/**
  Right rotation of a list of integers, done in place.

  The list is an `array<int>`: the rotation never changes its length, and the
  clear-then-append of the original is two copy loops over the same cells. The
  exceptions the original raises (division by zero on an empty list, an
  out-of-range slice for a negative remainder) are returned as a `Fail`
  outcome, with the array left as it was, since both are raised before the list
  is touched.
 */
module Arrays {

  datatype RotateError = DivideByZero | ArgumentOutOfRange

  datatype Outcome = Pass | Fail(error: RotateError)

  /** A product of two non-negative numbers is non-negative. */
  lemma {:induction false} MulNonNegative(d: int, n: int)
    requires d >= 0 && n >= 0
    ensures d * n >= 0
    decreases d
  {
    if d > 0 {
      MulNonNegative(d - 1, n);
      assert d * n == (d - 1) * n + n;
    }
  }

  /** Euclidean division is unique: a quotient and a remainder in `[0, n)` that
      rebuild `a` are `a / n` and `a % n`. */
  lemma ModUnique(a: int, n: int, q: int, r: int)
    requires n > 0 && 0 <= r < n && a == q * n + r
    ensures a % n == r && a / n == q
  {
    var q0, r0 := a / n, a % n;
    assert (q - q0) * n == r0 - r;
    if q > q0 {
      MulNonNegative(q - q0 - 1, n);
    } else if q < q0 {
      MulNonNegative(q0 - q - 1, n);
    }
  }

  /** Adding a multiple of `n` does not change the remainder. */
  lemma ModShift(a: int, k: int, n: int)
    requires n > 0
    ensures (a + k * n) % n == a % n
  {
    ModUnique(a + k * n, n, a / n + k, a % n);
  }

  /** `(a % n - b) % n == (a - b) % n` for Euclidean `%`. */
  lemma ModSubtract(a: int, b: int, n: int)
    requires n > 0
    ensures (a % n - b) % n == (a - b) % n
  {
    ModShift(a % n - b, a / n, n);
  }

  /** The remainder of the C# `%` operator, which truncates toward zero: it has
      the sign of `a`, agrees with the Euclidean remainder when `a >= 0`, and is
      zero exactly when `n` divides `a`. */
  function TruncatedRemainder(a: int, n: int): (r: int)
    requires n > 0
    ensures a >= 0 ==> r == a % n
    ensures a < 0 ==> -n < r <= 0
    ensures r == 0 <==> a % n == 0
  {
    if a >= 0 then a % n
    else
      var m := (-a) % n;
      assert -a == ((-a) / n) * n + m;
      if m == 0 then
        ModUnique(a, n, -((-a) / n), 0);
        0
      else
        ModUnique(a, n, -((-a) / n) - 1, n - m);
        -m
  }

  /** The rotation of `s` by `amount` places to the right: the element at index
      `i` moves to index `(i + amount) mod |s|`. Negative amounts rotate left. */
  function Rotated(s: seq<int>, amount: int): seq<int>
  {
    seq(|s|, i requires 0 <= i < |s| => s[(i - amount) % |s|])
  }

  /** Every element lands `amount` places further on, wrapping around. */
  lemma RotatedAt(s: seq<int>, amount: int, i: nat)
    requires i < |s|
    ensures |Rotated(s, amount)| == |s|
    ensures Rotated(s, amount)[(i + amount) % |s|] == s[i]
  {
    var n := |s|;
    var j := (i + amount) % n;
    var q := (i + amount) / n;
    ModUnique(j - amount, n, -q, i);
  }

  /** The rotation the original performs by slicing, `s[n-r..] + s[..n-r]`,
      is the rotation by `r`. */
  lemma SliceIsRotation(s: seq<int>, r: int)
    requires 0 <= r <= |s|
    ensures s[|s| - r..] + s[..|s| - r] == Rotated(s, r)
  {
    var n := |s|;
    var t := s[n - r..] + s[..n - r];
    forall i | 0 <= i < n ensures t[i] == Rotated(s, r)[i] {
      if i < r {
        ModUnique(i - r, n, -1, i - r + n);
      } else {
        ModUnique(i - r, n, 0, i - r);
      }
    }
  }

  /** Rotating by `amount` and by `amount + k * |s|` gives the same list. */
  lemma RotatedPeriodic(s: seq<int>, amount: int, k: int)
    ensures Rotated(s, amount + k * |s|) == Rotated(s, amount)
  {
    var n := |s|;
    forall i | 0 <= i < n ensures Rotated(s, amount + k * n)[i] == Rotated(s, amount)[i] {
      ModShift(i - amount, -k, n);
      assert i - (amount + k * n) == (i - amount) + (-k) * n;
    }
  }

  /** Only the Euclidean remainder of the amount matters. */
  lemma RotatedByRemainder(s: seq<int>, amount: int)
    requires s != []
    ensures Rotated(s, amount) == Rotated(s, amount % |s|)
  {
    var n := |s|;
    RotatedPeriodic(s, amount % n, amount / n);
    assert amount % n + (amount / n) * n == amount;
  }

  /** A rotation by a multiple of the length (including 0 and the length itself) changes nothing. */
  lemma RotatedByMultiple(s: seq<int>, amount: int)
    requires s != [] && amount % |s| == 0
    ensures Rotated(s, amount) == s
  {
    var n := |s|;
    forall i | 0 <= i < n ensures Rotated(s, amount)[i] == s[i] {
      ModUnique(i - amount, n, -(amount / n), i);
    }
  }

  /** A rotation is a permutation: same length, same multiset of elements. */
  lemma RotatedPermutes(s: seq<int>, amount: int)
    ensures |Rotated(s, amount)| == |s|
    ensures multiset(Rotated(s, amount)) == multiset(s)
  {
    if s != [] {
      var n := |s|;
      var r := amount % n;
      RotatedByRemainder(s, amount);
      SliceIsRotation(s, r);
      assert s == s[..n - r] + s[n - r..];
    }
  }

  /** Rotating right by `a` and then by `b` is rotating by `a + b`. */
  lemma RotatedCompose(s: seq<int>, a: int, b: int)
    ensures Rotated(Rotated(s, a), b) == Rotated(s, a + b)
  {
    var n := |s|;
    var t := Rotated(s, a);
    forall i | 0 <= i < n ensures Rotated(t, b)[i] == Rotated(s, a + b)[i] {
      var j := (i - b) % n;
      ModSubtract(i - b, a, n);
      assert (j - a) % n == (i - (a + b)) % n by {
        assert i - (a + b) == (i - b) - a;
      }
    }
  }

  /** Rotating left by the same amount undoes a rotation. */
  lemma RotatedUndo(s: seq<int>, a: int)
    ensures Rotated(Rotated(s, a), -a) == s
  {
    RotatedCompose(s, a, -a);
    assert Rotated(Rotated(s, a), -a) == Rotated(s, a + -a);
    RotatedZero(s, a + -a);
    assert Rotated(s, a + -a) == s;
  }

  lemma RotatedZero(s: seq<int>, z: int)
    requires z == 0
    ensures Rotated(s, z) == s
  {
    if s != [] {
      ModUnique(0, |s|, 0, 0);
      RotatedByMultiple(s, z);
    }
  }

  /** `Arrays.RotateListRight`: rotate `data` to the right by `amount` places. */
  method RotateListRight(data: array<int>, amount: int) returns (outcome: Outcome)
    modifies data
    ensures data.Length == 0 ==> outcome == Fail(DivideByZero)
    ensures data.Length > 0 && amount >= 0 ==> outcome == Pass
    ensures data.Length > 0 && amount < 0 ==>
      outcome == if amount % data.Length == 0 then Pass else Fail(ArgumentOutOfRange)
    ensures outcome.Fail? ==> data[..] == old(data[..])
    ensures outcome.Pass? ==> data[..] == Rotated(old(data[..]), amount)
  {
    if data.Length == 0 {
      return Fail(DivideByZero);
    }
    var n := data.Length;
    var rotate := TruncatedRemainder(amount, n);
    if rotate == 0 {
      assert amount % n == 0;
      RotatedByMultiple(data[..], amount);
      return Pass;
    }
    if rotate < 0 {
      // the slice `GetRange(n - rotate, rotate)` has a negative count
      return Fail(ArgumentOutOfRange);
    }
    assert amount >= 0 && rotate == amount % n;
    var right := data[n - rotate..];
    var left := data[..n - rotate];
    SliceIsRotation(data[..], rotate);
    RotatedByRemainder(data[..], amount);
    Refill(data, right, left);
    return Pass;
  }

  /** Clears the list and appends `right`, then `left`: with the length
      unchanged, this writes `right + left` over the array cell by cell. */
  method Refill(data: array<int>, right: seq<int>, left: seq<int>)
    requires |right| + |left| == data.Length
    modifies data
    ensures data[..] == right + left
  {
    var r := |right|;
    for i := 0 to r
      invariant forall k :: 0 <= k < i ==> data[k] == right[k]
    {
      data[i] := right[i];
    }
    for i := r to data.Length
      invariant forall k :: 0 <= k < r ==> data[k] == right[k]
      invariant forall k :: r <= k < i ==> data[k] == left[k - r]
    {
      data[i] := left[i - r];
    }
    assert data[..] == right + left;
  }
}
