/**
  A doubly linked list of integers whose nodes are relinked in place.

  The list keeps a head and a tail reference; every node holds its value and a
  link to its successor and to its predecessor. The ghost field `Nodes` lists the
  nodes in forward order and `Contents` their values; `Valid()` ties them to the
  real fields. Every operation states its effect on `Contents` through one of the
  sequence functions below, and the lemmas about those functions state what the
  operation means.
 */
module DoublyLinked {

  // ---------------------------------------------------------------------------
  // Sequence specifications of the list operations
  // ---------------------------------------------------------------------------

  /** Index of the first occurrence of `v` in `s`. */
  function IndexOf(s: seq<int>, v: int): (k: nat)
    requires v in s
    ensures k < |s| && s[k] == v
    ensures v !in s[..k]
  {
    if s[0] == v then 0
    else
      assert v in s[1..] by { var j :| 0 <= j < |s| && s[j] == v; assert s[1..][j - 1] == v; }
      var k := 1 + IndexOf(s[1..], v);
      assert s[..k] == [s[0]] + s[1..][..k - 1];
      k
  }

  /** The first occurrence of a value is the only index holding it with no earlier copy. */
  lemma IndexOfUnique(s: seq<int>, v: int, i: nat)
    requires i < |s| && s[i] == v && v !in s[..i]
    ensures v in s && IndexOf(s, v) == i
  {
    var k := IndexOf(s, v);
    assert forall j :: 0 <= j < i ==> s[..i][j] == s[j];
    assert forall j :: 0 <= j < k ==> s[..k][j] == s[j];
  }

  /** `s` with `w` inserted right after the first occurrence of `v`; `s` itself when `v` is absent. */
  function InsertedAfter(s: seq<int>, v: int, w: int): seq<int>
  {
    if v in s then
      var k := IndexOf(s, v);
      s[..k + 1] + [w] + s[k + 1..]
    else s
  }

  /** `s` without its first occurrence of `v`; `s` itself when `v` is absent. */
  function RemovedFirst(s: seq<int>, v: int): seq<int>
  {
    if v in s then Without(s, IndexOf(s, v)) else s
  }

  /** `s` without its element at index `k`. */
  function Without<T>(s: seq<T>, k: nat): seq<T>
    requires k < |s|
  {
    s[..k] + s[k + 1..]
  }

  /** `s` with every element equal to `x` rewritten to `y`. */
  function ReplacedAll(s: seq<int>, x: int, y: int): seq<int>
  {
    if s == [] then []
    else [if s[0] == x then y else s[0]] + ReplacedAll(s[1..], x, y)
  }

  /** `s` read from its last element to its first. */
  function Reversed(s: seq<int>): seq<int>
  {
    if s == [] then [] else Reversed(s[1..]) + [s[0]]
  }

  // ---------------------------------------------------------------------------
  // What the specifications mean
  // ---------------------------------------------------------------------------

  /** Inserting after an absent value changes nothing; otherwise exactly one
      element is added, it sits right after the first `v`, and everything else
      keeps its place and order. */
  lemma InsertedAfterPlacement(s: seq<int>, v: int, w: int)
    ensures v !in s ==> InsertedAfter(s, v, w) == s
    ensures v in s ==>
      var r, k := InsertedAfter(s, v, w), IndexOf(s, v);
      && |r| == |s| + 1
      && r[k] == v && r[k + 1] == w && v !in r[..k]
      && (forall i :: 0 <= i <= k ==> r[i] == s[i])
      && (forall i :: k < i < |s| ==> r[i + 1] == s[i])
  {
    if v in s {
      var k := IndexOf(s, v);
      var r := s[..k + 1] + [w] + s[k + 1..];
      assert r == InsertedAfter(s, v, w);
      assert r[..k] == s[..k];
      forall i | 0 <= i <= k ensures r[i] == s[i] {
        assert r[i] == s[..k + 1][i];
      }
      forall i | k < i < |s| ensures r[i + 1] == s[i] {
        assert r[i + 1] == s[k + 1..][i - k - 1];
      }
    }
  }

  /** Inserting adds one copy of the new value and keeps every other element. */
  lemma InsertedAfterCounts(s: seq<int>, v: int, w: int)
    requires v in s
    ensures multiset(InsertedAfter(s, v, w)) == multiset(s) + multiset{w}
  {
    var k := IndexOf(s, v);
    assert s == s[..k + 1] + s[k + 1..];
    assert multiset(InsertedAfter(s, v, w)) == multiset(s[..k + 1]) + multiset{w} + multiset(s[k + 1..]);
  }

  /** When the first occurrence of `v` is the last element, the new value becomes the last element. */
  lemma InsertedAfterTail(s: seq<int>, v: int, w: int)
    requires s != [] && s[|s| - 1] == v && v !in s[..|s| - 1]
    ensures InsertedAfter(s, v, w) == s + [w]
  {
    IndexOfUnique(s, v, |s| - 1);
    assert s[..|s|] == s;
  }

  /** Removing the first occurrence of `v` deletes the element at its index and
      keeps every other element in order; an absent value changes nothing. */
  lemma RemovedFirstDeletesOne(s: seq<int>, v: int)
    ensures v !in s ==> RemovedFirst(s, v) == s
    ensures v in s ==>
      var r, k := RemovedFirst(s, v), IndexOf(s, v);
      && |r| == |s| - 1
      && (forall i :: 0 <= i < k ==> r[i] == s[i] && r[i] != v)
      && (forall i :: k <= i < |r| ==> r[i] == s[i + 1])
  {
    if v in s {
      var k := IndexOf(s, v);
      DeletedAt(s, k);
      forall i | 0 <= i < k ensures s[i] != v {
        assert s[i] == s[..k][i];
      }
    }
  }

  /** Removing deletes exactly one copy of `v` from the multiset of elements. */
  lemma RemovedFirstCounts(s: seq<int>, v: int)
    requires v in s
    ensures multiset(RemovedFirst(s, v)) == multiset(s) - multiset{v}
  {
    var k := IndexOf(s, v);
    assert RemovedFirst(s, v) == Without(s, k) == s[..k] + s[k + 1..];
    assert s == s[..k] + [v] + s[k + 1..];
    assert multiset(s) == multiset(s[..k]) + multiset{v} + multiset(s[k + 1..]);
  }

  /** Removing a value just inserted at the head gives back the original contents. */
  lemma RemovedFirstUndoesHeadInsert(s: seq<int>, v: int)
    ensures RemovedFirst([v] + s, v) == s
  {
    IndexOfUnique([v] + s, v, 0);
    assert Without([v] + s, 0) == s;
  }

  /** Removing a fresh value just inserted with InsertAfter gives back the original contents. */
  lemma RemovedFirstUndoesInsertAfter(s: seq<int>, v: int, w: int)
    requires v in s && w !in s
    ensures RemovedFirst(InsertedAfter(s, v, w), w) == s
  {
    var k := IndexOf(s, v);
    var a, b := s[..k + 1], s[k + 1..];
    InsertedFoundAfter(s, v, w);
    calc {
      RemovedFirst(InsertedAfter(s, v, w), w);
      Without(InsertedAfter(s, v, w), k + 1);
      { assert InsertedAfter(s, v, w) == a + [w] + b; }
      Without(a + [w] + b, |a|);
      { WithoutSplice(a, w, b); }
      a + b;
      { SplitJoin(s, k + 1); }
      s;
    }
  }

  lemma SplitJoin<T>(s: seq<T>, i: nat)
    requires i <= |s|
    ensures s[..i] + s[i..] == s
  {
  }

  /** Deleting the element placed between `a` and `b` gives back `a + b`. */
  lemma WithoutSplice<T>(a: seq<T>, x: T, b: seq<T>)
    ensures Without(a + [x] + b, |a|) == a + b
  {
    var r := a + [x] + b;
    assert r[..|a|] == a && r[|a| + 1..] == b;
  }

  /** A fresh `w` inserted after `v` is found right behind the first `v`. */
  lemma InsertedFoundAfter(s: seq<int>, v: int, w: int)
    requires v in s && w !in s
    ensures w in InsertedAfter(s, v, w)
    ensures IndexOf(InsertedAfter(s, v, w), w) == IndexOf(s, v) + 1
  {
    var k := IndexOf(s, v);
    var r := s[..k + 1] + [w] + s[k + 1..];
    assert r == InsertedAfter(s, v, w);
    assert r[k + 1] == w;
    assert w !in r[..k + 1] by { assert r[..k + 1] == s[..k + 1]; }
    IndexOfUnique(r, w, k + 1);
  }

  /** Replacing keeps the length and rewrites exactly the elements equal to `x`. */
  lemma {:induction false} ReplacedAllAt(s: seq<int>, x: int, y: int)
    ensures |ReplacedAll(s, x, y)| == |s|
    ensures forall i :: 0 <= i < |s| ==> ReplacedAll(s, x, y)[i] == if s[i] == x then y else s[i]
  {
    if s != [] {
      ReplacedAllAt(s[1..], x, y);
      forall i | 0 < i < |s| ensures ReplacedAll(s, x, y)[i] == if s[i] == x then y else s[i] {
        assert s[1..][i - 1] == s[i];
      }
    }
  }

  /** After a replacement no element equals `x` unless `x` is also the new value;
      replacing twice is the same as replacing once. */
  lemma ReplacedAllIdempotent(s: seq<int>, x: int, y: int)
    ensures x != y ==> x !in ReplacedAll(s, x, y)
    ensures ReplacedAll(ReplacedAll(s, x, y), x, y) == ReplacedAll(s, x, y)
  {
    var r := ReplacedAll(s, x, y);
    ReplacedAllAt(s, x, y);
    ReplacedAllAt(r, x, y);
  }

  /** Element `k` of the reversal is element `|s| - 1 - k` of the original. */
  lemma {:induction false} ReversedAt(s: seq<int>)
    ensures |Reversed(s)| == |s|
    ensures forall k :: 0 <= k < |s| ==> Reversed(s)[k] == s[|s| - 1 - k]
  {
    if s != [] {
      ReversedAt(s[1..]);
    }
  }

  /** Reading backward twice reads forward: the reversal is its own inverse. */
  lemma ReversedInvolution(s: seq<int>)
    ensures Reversed(Reversed(s)) == s
  {
    ReversedAt(s);
    ReversedAt(Reversed(s));
  }

  /** The reversal of a list with one more element at the front ends with that element. */
  lemma ReversedSuffixStep(s: seq<int>, i: nat)
    requires i < |s|
    ensures Reversed(s[i..]) == Reversed(s[i + 1..]) + [s[i]]
  {
    assert s[i..][1..] == s[i + 1..];
  }

  /** Where the elements of `s` sit once `x` is spliced in after index `i`. */
  lemma SplicedAt<T>(s: seq<T>, i: nat, x: T)
    requires i < |s|
    ensures var t := s[..i + 1] + [x] + s[i + 1..];
      && |t| == |s| + 1 && t[i + 1] == x
      && (forall j :: 0 <= j <= i ==> t[j] == s[j])
      && (forall j :: i + 1 < j < |t| ==> t[j] == s[j - 1])
  {
  }

  /** Where the elements of `s` sit once index `i` is cut out. */
  lemma DeletedAt<T>(s: seq<T>, i: nat)
    requires i < |s|
    ensures var t := s[..i] + s[i + 1..];
      && |t| == |s| - 1
      && (forall j :: 0 <= j < i ==> t[j] == s[j])
      && (forall j :: i <= j < |t| ==> t[j] == s[j + 1])
  {
  }

  // ---------------------------------------------------------------------------
  // The list and its nodes
  // ---------------------------------------------------------------------------

  class Node {
    var data: int
    var next: Node?
    var prev: Node?

    constructor (data: int)
      ensures this.data == data && next == null && prev == null
    {
      this.data := data;
      next := null;
      prev := null;
    }
  }

  class LinkedList {
    var head: Node?
    var tail: Node?

    // public view: the nodes from head to tail and the values they hold
    ghost var Nodes: seq<Node>
    ghost var Contents: seq<int>

    /** The links of `Nodes` form one chain from head to tail. */
    ghost predicate Linked()
      reads this, Nodes
    {
      && (head == null <==> Nodes == [])
      && (tail == null <==> Nodes == [])
      && (Nodes != [] ==>
            && head == Nodes[0] && tail == Nodes[|Nodes| - 1]
            && Nodes[0].prev == null && Nodes[|Nodes| - 1].next == null)
      && (forall i {:trigger Nodes[i].next} :: 0 <= i < |Nodes| - 1 ==> Nodes[i].next == Nodes[i + 1])
      && (forall i {:trigger Nodes[i].prev} :: 0 < i < |Nodes| ==> Nodes[i].prev == Nodes[i - 1])
      && (forall i, j :: 0 <= i < j < |Nodes| ==> Nodes[i] != Nodes[j])
    }

    /** The object invariant: a well-linked chain whose values are `Contents`. */
    ghost predicate Valid()
      reads this, Nodes
    {
      && Linked()
      && |Nodes| == |Contents|
      && (forall i :: 0 <= i < |Nodes| ==> Nodes[i].data == Contents[i])
    }

    constructor ()
      ensures Valid() && Contents == [] && Nodes == []
    {
      head, tail := null, null;
      Nodes, Contents := [], [];
    }

    method InsertHead(value: int)
      requires Valid()
      modifies this, Nodes
      ensures Valid()
      ensures Contents == [value] + old(Contents)
      ensures fresh(Nodes[0]) && Nodes[1..] == old(Nodes)
      ensures head == Nodes[0] && (old(Contents) == [] ==> tail == head)
    {
      var node := new Node(value);
      if head == null {
        head, tail := node, node;
        Nodes, Contents := [node], [value];
      } else {
        node.next := head;
        head.prev := node;
        head := node;
        Nodes, Contents := [node] + Nodes, [value] + Contents;
      }
    }

    method InsertTail(value: int)
      requires Valid()
      modifies this, Nodes
      ensures Valid()
      ensures Contents == old(Contents) + [value]
      ensures fresh(Nodes[|Nodes| - 1]) && Nodes[..|Nodes| - 1] == old(Nodes)
      ensures tail == Nodes[|Nodes| - 1] && (old(Contents) == [] ==> head == tail)
    {
      var node := new Node(value);
      if tail == null {
        head, tail := node, node;
        Nodes, Contents := [node], [value];
      } else {
        node.prev := tail;
        tail.next := node;
        tail := node;
        Nodes, Contents := Nodes + [node], Contents + [value];
      }
    }

    method InsertAfter(value: int, newValue: int)
      requires Valid()
      modifies this, Nodes
      ensures Valid()
      ensures Contents == InsertedAfter(old(Contents), value, newValue)
      ensures value !in old(Contents) ==> Nodes == old(Nodes)
      ensures value in old(Contents) ==>
        var k := IndexOf(old(Contents), value);
        && |Nodes| == |old(Nodes)| + 1
        && Nodes[..k + 1] == old(Nodes)[..k + 1]
        && fresh(Nodes[k + 1])
        && Nodes[k + 2..] == old(Nodes)[k + 1..]
        && (k == |old(Nodes)| - 1 ==> tail == Nodes[k + 1])
    {
      // walk to the first node holding `value`
      var curr := head;
      ghost var i := 0;
      while curr != null && curr.data != value
        invariant 0 <= i <= |Nodes|
        invariant curr == if i < |Nodes| then Nodes[i] else null
        invariant value !in Contents[..i]
        decreases |Nodes| - i
      {
        assert Contents[..i + 1] == Contents[..i] + [Contents[i]];
        curr := curr.next;
        i := i + 1;
      }
      if curr == null {
        assert Contents[..i] == Contents;
        assert InsertedAfter(Contents, value, newValue) == Contents;
        return;
      }
      IndexOfUnique(Contents, value, i);
      assert InsertedAfter(Contents, value, newValue) == Contents[..i + 1] + [newValue] + Contents[i + 1..];
      InsertAfterNode(curr, i, newValue);
    }

    /** Links a new node holding `newValue` right after `curr` (at position
        `i`): after the tail through InsertTail, after any other node by
        splicing it between `curr` and its successor. */
    method InsertAfterNode(curr: Node, ghost i: nat, newValue: int)
      requires Valid() && i < |Nodes| && curr == Nodes[i]
      modifies this, Nodes
      ensures Valid()
      ensures Contents == old(Contents)[..i + 1] + [newValue] + old(Contents)[i + 1..]
      ensures |Nodes| == |old(Nodes)| + 1
      ensures Nodes[..i + 1] == old(Nodes)[..i + 1] && fresh(Nodes[i + 1])
      ensures Nodes[i + 2..] == old(Nodes)[i + 1..]
    {
      if curr == tail {
        assert Nodes[i] == Nodes[|Nodes| - 1];
        assert Contents[i + 1..] == [] && Contents[..i + 1] == Contents;
        InsertTail(newValue);
        assert Nodes[i + 2..] == [] == old(Nodes)[i + 1..];
      } else {
        LinkAfter(curr, i, newValue);
      }
    }

    method RemoveHead()
      requires Valid()
      modifies this, Nodes
      ensures Valid()
      ensures Contents == if old(Contents) == [] then [] else old(Contents)[1..]
      ensures Nodes == if old(Nodes) == [] then [] else old(Nodes)[1..]
      ensures |old(Contents)| <= 1 ==> head == null && tail == null
    {
      if head == tail {
        head, tail := null, null;
        Nodes, Contents := [], [];
      } else if head != null {
        assert head.next == Nodes[1];
        head.next.prev := null;
        head := head.next;
        Nodes, Contents := Nodes[1..], Contents[1..];
      }
    }

    method RemoveTail()
      requires Valid()
      modifies this, Nodes
      ensures Valid()
      ensures Contents == if old(Contents) == [] then [] else old(Contents)[..|old(Contents)| - 1]
      ensures Nodes == if old(Nodes) == [] then [] else old(Nodes)[..|old(Nodes)| - 1]
      ensures |old(Contents)| <= 1 ==> head == null && tail == null
    {
      if head == tail {
        head, tail := null, null;
        Nodes, Contents := [], [];
      } else if tail != null {
        assert tail.prev == Nodes[|Nodes| - 2];
        tail.prev.next := null;
        tail := tail.prev;
        Nodes, Contents := Nodes[..|Nodes| - 1], Contents[..|Contents| - 1];
      }
    }

    method Remove(value: int)
      requires Valid()
      modifies this, Nodes
      ensures Valid()
      ensures Contents == RemovedFirst(old(Contents), value)
      ensures value !in old(Contents) ==> Nodes == old(Nodes)
      ensures value in old(Contents) ==>
        Nodes == Without(old(Nodes), IndexOf(old(Contents), value))
    {
      if head == null {
        assert Contents == [];
        return;
      }
      if head.data == value {
        IndexOfUnique(Contents, value, 0);
        assert Without(Contents, 0) == Contents[1..];
        assert Without(Nodes, 0) == Nodes[1..];
        RemoveHead();
        return;
      }
      // walk to the first node holding `value`
      var curr := head;
      ghost var i := 0;
      while curr != null && curr.data != value
        invariant 0 <= i <= |Nodes|
        invariant curr == if i < |Nodes| then Nodes[i] else null
        invariant value !in Contents[..i]
        decreases |Nodes| - i
      {
        assert Contents[..i + 1] == Contents[..i] + [Contents[i]];
        curr := curr.next;
        i := i + 1;
      }
      if curr == null {
        assert Contents[..i] == Contents;
        assert value !in old(Contents);
        return;
      }
      IndexOfUnique(Contents, value, i);
      RemoveNode(curr, i);
    }

    /** Takes the node `curr` (at position `i`, not the head) out of the chain:
        the tail through RemoveTail, an interior node by linking its neighbours
        to each other. */
    method RemoveNode(curr: Node, ghost i: nat)
      requires Valid() && 0 < i < |Nodes| && curr == Nodes[i]
      modifies this, Nodes
      ensures Valid()
      ensures Contents == Without(old(Contents), i)
      ensures Nodes == Without(old(Nodes), i)
    {
      if curr == tail {
        assert Nodes[i] == Nodes[|Nodes| - 1];
        assert i == |Nodes| - 1;
        assert Without(Nodes, i) == Nodes[..|Nodes| - 1];
        assert Without(Contents, i) == Contents[..|Contents| - 1];
        RemoveTail();
      } else {
        Unlink(curr, i);
      }
    }

    /** Splices a new node holding `newValue` between the interior node `curr`
        (at position `i`) and its successor. */
    method LinkAfter(curr: Node, ghost i: nat, newValue: int)
      requires Valid() && i < |Nodes| - 1 && curr == Nodes[i]
      modifies this, Nodes
      ensures Valid()
      ensures Contents == old(Contents)[..i + 1] + [newValue] + old(Contents)[i + 1..]
      ensures Nodes[..i + 1] == old(Nodes)[..i + 1] && fresh(Nodes[i + 1])
      ensures Nodes[i + 2..] == old(Nodes)[i + 1..]
    {
      ghost var before := Nodes;
      var after := curr.next;
      assert after == before[i + 1];
      var node := new Node(newValue);
      node.next := after;
      node.prev := curr;
      after.prev := node;
      curr.next := node;
      Nodes := Nodes[..i + 1] + [node] + Nodes[i + 1..];
      SplicedAt(before, i, node);
      Contents := Contents[..i + 1] + [newValue] + Contents[i + 1..];
      forall j | 0 <= j < |Nodes| - 1 ensures Nodes[j].next == Nodes[j + 1] {
        if j < i {
          assert Nodes[j] == before[j] && Nodes[j + 1] == before[j + 1];
        } else if j > i + 1 {
          assert Nodes[j] == before[j - 1] && Nodes[j + 1] == before[j];
        }
      }
      forall j | 0 < j < |Nodes| ensures Nodes[j].prev == Nodes[j - 1] {
        if j < i + 1 {
          assert Nodes[j] == before[j] && Nodes[j - 1] == before[j - 1];
        } else if j > i + 2 {
          assert Nodes[j] == before[j - 1] && Nodes[j - 1] == before[j - 2];
        }
      }
      forall a, b | 0 <= a < b < |Nodes| ensures Nodes[a] != Nodes[b] {
        if a != i + 1 && b != i + 1 {
          assert Nodes[a] == before[if a <= i then a else a - 1];
          assert Nodes[b] == before[if b <= i then b else b - 1];
        }
      }
      forall a | 0 <= a < |Nodes| ensures Nodes[a].data == Contents[a] {
        if a != i + 1 {
          assert Nodes[a] == before[if a <= i then a else a - 1];
        }
      }
      assert Nodes[0] == before[0] && Nodes[|Nodes| - 1] == before[|before| - 1];
    }

    /** Relinks the neighbours of the interior node `curr` (at position `i`) to bypass it. */
    method Unlink(curr: Node, ghost i: nat)
      requires Valid() && 0 < i < |Nodes| - 1 && curr == Nodes[i]
      modifies this, Nodes
      ensures Valid()
      ensures Contents == Without(old(Contents), i)
      ensures Nodes == Without(old(Nodes), i)
    {
      ghost var before := Nodes;
      assert curr.prev == before[i - 1] && curr.next == before[i + 1];
      curr.prev.next := curr.next;
      curr.next.prev := curr.prev;
      Nodes := Nodes[..i] + Nodes[i + 1..];
      Contents := Contents[..i] + Contents[i + 1..];
      DeletedAt(before, i);
      forall j | 0 <= j < |Nodes| - 1 ensures Nodes[j].next == Nodes[j + 1] {
        if j < i - 1 {
          assert Nodes[j] == before[j] && Nodes[j + 1] == before[j + 1];
        } else if j >= i {
          assert Nodes[j] == before[j + 1] && Nodes[j + 1] == before[j + 2];
        }
      }
      forall j | 0 < j < |Nodes| ensures Nodes[j].prev == Nodes[j - 1] {
        if j < i {
          assert Nodes[j] == before[j] && Nodes[j - 1] == before[j - 1];
        } else if j > i {
          assert Nodes[j] == before[j + 1] && Nodes[j - 1] == before[j];
        }
      }
      forall a, b | 0 <= a < b < |Nodes| ensures Nodes[a] != Nodes[b] {
        assert Nodes[a] == before[if a < i then a else a + 1];
        assert Nodes[b] == before[if b < i then b else b + 1];
      }
      forall a | 0 <= a < |Nodes| ensures Nodes[a].data == Contents[a] {
        assert Nodes[a] == before[if a < i then a else a + 1];
      }
      assert Nodes[0] == before[0] && Nodes[|Nodes| - 1] == before[|before| - 1];
    }

    method Replace(oldValue: int, newValue: int)
      requires Valid()
      modifies this, Nodes
      ensures Valid()
      ensures Nodes == old(Nodes) && head == old(head) && tail == old(tail)
      ensures Contents == ReplacedAll(old(Contents), oldValue, newValue)
    {
      var curr := head;
      ghost var i := 0;
      while curr != null
        invariant Linked() && Nodes == old(Nodes) && Contents == old(Contents)
        invariant head == old(head) && tail == old(tail)
        invariant |Nodes| == |Contents|
        invariant 0 <= i <= |Nodes|
        invariant curr == if i < |Nodes| then Nodes[i] else null
        invariant forall j :: 0 <= j < i ==>
          Nodes[j].data == if Contents[j] == oldValue then newValue else Contents[j]
        invariant forall j :: i <= j < |Nodes| ==> Nodes[j].data == Contents[j]
        decreases |Nodes| - i
      {
        if curr.data == oldValue {
          SetData(curr, i, newValue);
        }
        curr := curr.next;
        i := i + 1;
      }
      ReplacedAllAt(Contents, oldValue, newValue);
      Contents := ReplacedAll(Contents, oldValue, newValue);
    }

    /** Overwrites the value held by the node `curr` (at position `i`); every
        link and every other node stay as they were. */
    method SetData(curr: Node, ghost i: nat, value: int)
      requires Linked() && i < |Nodes| && curr == Nodes[i]
      modifies curr
      ensures Linked() && curr.data == value
      ensures forall j :: 0 <= j < |Nodes| && j != i ==> Nodes[j].data == old(Nodes[j].data)
    {
      curr.data := value;
    }

    /** Forward enumeration, from head to tail. */
    method GetEnumerator() returns (values: seq<int>)
      requires Valid()
      ensures values == Contents
    {
      values := [];
      var curr := head;
      ghost var i := 0;
      while curr != null
        invariant 0 <= i <= |Nodes|
        invariant curr == if i < |Nodes| then Nodes[i] else null
        invariant values == Contents[..i]
        decreases |Nodes| - i
      {
        values := values + [curr.data];
        curr := curr.next;
        i := i + 1;
      }
      assert Contents[..i] == Contents;
    }

    /** Backward enumeration, from tail to head. */
    method Reverse() returns (values: seq<int>)
      requires Valid()
      ensures values == Reversed(Contents)
    {
      values := [];
      var curr := tail;
      ghost var i := |Nodes|;
      while curr != null
        invariant 0 <= i <= |Nodes|
        invariant curr == if i > 0 then Nodes[i - 1] else null
        invariant values == Reversed(Contents[i..])
        decreases i
      {
        ReversedSuffixStep(Contents, i - 1);
        values := values + [curr.data];
        curr := curr.prev;
        i := i - 1;
      }
      assert Contents[0..] == Contents;
    }

    predicate HeadAndTailAreNull()
      requires Valid()
      reads this, Nodes
      ensures HeadAndTailAreNull() <==> Contents == []
    {
      head == null && tail == null
    }

    predicate HeadAndTailAreNotNull()
      requires Valid()
      reads this, Nodes
      ensures HeadAndTailAreNotNull() <==> Contents != []
      ensures HeadAndTailAreNotNull() <==> !HeadAndTailAreNull()
    {
      head != null && tail != null
    }
  }
}
