/**
  Two puzzles solved with a set and a dictionary.

  `FindPairs` reports the symmetric two-letter word pairs of a word list by
  keeping a growing set of the words seen and not yet matched; a reported pair
  is the tuple `(reversed, word)`. `IsAnagram` normalises both words to lower-case
  letters and compares their letter counts with a dictionary.
 */
module SetsAndMaps {

  /** No element occurs twice. */
  predicate Distinct<T(==)>(s: seq<T>)
  {
    forall i, j :: 0 <= i < j < |s| ==> s[i] != s[j]
  }

  // ---------------------------------------------------------------------------
  // Symmetric pairs
  // ---------------------------------------------------------------------------

  /** The characters of `w` in the opposite order. */
  function Reverse(w: string): string
  {
    if w == [] then [] else Reverse(w[1..]) + [w[0]]
  }

  /** Character `k` of the reversal is character `|w| - 1 - k` of the word. */
  lemma {:induction false} ReverseAt(w: string)
    ensures |Reverse(w)| == |w|
    ensures forall k :: 0 <= k < |w| ==> Reverse(w)[k] == w[|w| - 1 - k]
  {
    if w != [] {
      ReverseAt(w[1..]);
    }
  }

  /** Reversing twice gives the word back. */
  lemma ReverseInvolution(w: string)
    ensures Reverse(Reverse(w)) == w
  {
    ReverseAt(w);
    ReverseAt(Reverse(w));
  }

  /** The reference definition of the answer: scanning the words in order, a word
      is reported, paired with its reversal, when its reversal occurred earlier. */
  function SymmetricPairs(words: seq<string>): seq<(string, string)>
  {
    if words == [] then []
    else
      var before, w := words[..|words| - 1], words[|words| - 1];
      SymmetricPairs(before) + (if Reverse(w) in before then [(Reverse(w), w)] else [])
  }

  /** `(r, w)` is reported exactly when `w` occurs after `r` and `r` is its reversal. */
  lemma SymmetricPairsMembership(words: seq<string>, r: string, w: string)
    ensures (r, w) in SymmetricPairs(words) <==>
      r == Reverse(w) && exists i, j :: 0 <= i < j < |words| && words[i] == r && words[j] == w
  {
    if (r, w) in SymmetricPairs(words) {
      ReportedPairOccurs(words, r, w);
    }
    if r == Reverse(w) && exists i, j :: 0 <= i < j < |words| && words[i] == r && words[j] == w {
      var i, j :| 0 <= i < j < |words| && words[i] == r && words[j] == w;
      OccurringPairReported(words, i, j);
    }
  }

  /** A reported pair `(r, w)` has `r` before `w` in the list, and `r` is the reversal of `w`. */
  lemma {:induction false} ReportedPairOccurs(words: seq<string>, r: string, w: string)
    requires (r, w) in SymmetricPairs(words)
    ensures r == Reverse(w) && exists i, j :: 0 <= i < j < |words| && words[i] == r && words[j] == w
  {
    var n := |words|;
    var before := words[..n - 1];
    if (r, w) in SymmetricPairs(before) {
      ReportedPairOccurs(before, r, w);
      var i, j :| 0 <= i < j < n - 1 && before[i] == r && before[j] == w;
      assert words[i] == r && words[j] == w;
    } else {
      var i :| 0 <= i < n - 1 && before[i] == r;
      assert words[i] == r && words[n - 1] == w;
    }
  }

  /** A word whose reversal occurs at an earlier index is reported with it. */
  lemma {:induction false} OccurringPairReported(words: seq<string>, i: nat, j: nat)
    requires i < j < |words| && words[i] == Reverse(words[j])
    ensures (words[i], words[j]) in SymmetricPairs(words)
  {
    var n := |words|;
    var before := words[..n - 1];
    if j < n - 1 {
      OccurringPairReported(before, i, j);
      assert before[i] == words[i] && before[j] == words[j];
    } else {
      assert before[i] == words[i];
    }
  }

  /** Every reported pair is made of two input words, the first the reversal of the second. */
  lemma PairsFromWords(words: seq<string>, p: (string, string))
    requires p in SymmetricPairs(words)
    ensures p.0 in words && p.1 in words && p.0 == Reverse(p.1) && p.1 == Reverse(p.0)
  {
    SymmetricPairsMembership(words, p.0, p.1);
    ReverseInvolution(p.1);
  }

  /** A word whose reversal is not an input word never appears in the answer. */
  lemma UnmatchedNeverReported(words: seq<string>, w: string)
    requires Reverse(w) !in words
    ensures forall p :: p in SymmetricPairs(words) ==> p.0 != w && p.1 != w
  {
    forall p | p in SymmetricPairs(words) ensures p.0 != w && p.1 != w {
      PairsFromWords(words, p);
    }
  }

  /** Without duplicates, a word that is its own reversal (such as "aa") is never reported. */
  lemma PalindromeNeverReported(words: seq<string>)
    requires Distinct(words)
    ensures forall p :: p in SymmetricPairs(words) ==> p.0 != p.1
  {
    forall p | p in SymmetricPairs(words) ensures p.0 != p.1 {
      SymmetricPairsMembership(words, p.0, p.1);
    }
  }

  /** Without duplicates, each symmetric pair of distinct words is reported in
      exactly one orientation. */
  lemma EachPairOnce(words: seq<string>, u: string)
    requires Distinct(words)
    requires u in words && Reverse(u) in words && u != Reverse(u)
    ensures (Reverse(u), u) in SymmetricPairs(words) <==> (u, Reverse(u)) !in SymmetricPairs(words)
  {
    var v := Reverse(u);
    ReverseInvolution(u);
    var i :| 0 <= i < |words| && words[i] == u;
    var j :| 0 <= j < |words| && words[j] == v;
    SymmetricPairsMembership(words, v, u);
    SymmetricPairsMembership(words, u, v);
    if j < i {
      assert (v, u) in SymmetricPairs(words);
    } else {
      assert (u, v) in SymmetricPairs(words);
    }
  }

  /** The words mentioned by a list of pairs. */
  function Mentioned(pairs: seq<(string, string)>): set<string>
  {
    if pairs == [] then {}
    else Mentioned(pairs[..|pairs| - 1]) + {pairs[|pairs| - 1].0, pairs[|pairs| - 1].1}
  }

  /** The set of elements of a list without duplicates has one member per element. */
  lemma {:induction false} DistinctCardinality(s: seq<string>)
    requires Distinct(s)
    ensures |set x | x in s| == |s|
  {
    if s != [] {
      var before := s[..|s| - 1];
      DistinctCardinality(before);
      assert (set x | x in s) == (set x | x in before) + {s[|s| - 1]};
    }
  }

  /** Without duplicates the reported pairs use `2 * |pairs|` different input words. */
  lemma {:induction false} MentionedWords(words: seq<string>)
    requires Distinct(words)
    ensures Mentioned(SymmetricPairs(words)) <= set x | x in words
    ensures |Mentioned(SymmetricPairs(words))| == 2 * |SymmetricPairs(words)|
  {
    if words != [] {
      var before, w := words[..|words| - 1], words[|words| - 1];
      DistinctPrefix(words);
      MentionedWords(before);
      MentionedWordsStep(before, w);
      assert before + [w] == words;
    }
  }

  /** Dropping the last word keeps the list free of duplicates, and that word
      does not occur before it. */
  lemma DistinctPrefix(words: seq<string>)
    requires Distinct(words) && words != []
    ensures Distinct(words[..|words| - 1])
    ensures words[|words| - 1] !in words[..|words| - 1]
  {
    var n := |words|;
    var before := words[..n - 1];
    forall i, j | 0 <= i < j < n - 1 ensures before[i] != before[j] {
      assert before[i] == words[i] && before[j] == words[j];
    }
    forall i | 0 <= i < n - 1 ensures before[i] != words[n - 1] {
      assert before[i] == words[i];
    }
  }

  /** The induction step of MentionedWords: a new word either adds no pair or
      adds one pair of two words not mentioned so far. */
  lemma MentionedWordsStep(before: seq<string>, w: string)
    requires w !in before
    requires Mentioned(SymmetricPairs(before)) <= set x | x in before
    requires |Mentioned(SymmetricPairs(before))| == 2 * |SymmetricPairs(before)|
    ensures Mentioned(SymmetricPairs(before + [w])) <= set x | x in before + [w]
    ensures |Mentioned(SymmetricPairs(before + [w]))| == 2 * |SymmetricPairs(before + [w])|
  {
    var words := before + [w];
    assert words[..|words| - 1] == before && words[|words| - 1] == w;
    var P := SymmetricPairs(before);
    var M := Mentioned(P);
    assert (set x | x in words) == (set x | x in before) + {w};
    if Reverse(w) in before {
      NewPairIsFresh(before, w);
      MentionedAppend(P, (Reverse(w), w));
      assert SymmetricPairs(words) == P + [(Reverse(w), w)];
    } else {
      assert SymmetricPairs(words) == P;
    }
  }

  /** Appending a pair mentions its two words besides the earlier ones. */
  lemma MentionedAppend(pairs: seq<(string, string)>, p: (string, string))
    ensures Mentioned(pairs + [p]) == Mentioned(pairs) + {p.0, p.1}
  {
    assert (pairs + [p])[..|pairs|] == pairs;
  }

  /** A word not among the earlier words, whose reversal is, brings two words not
      yet mentioned by the earlier pairs. */
  lemma NewPairIsFresh(before: seq<string>, w: string)
    requires Reverse(w) in before && w !in before
    requires Mentioned(SymmetricPairs(before)) <= set x | x in before
    ensures w !in Mentioned(SymmetricPairs(before))
    ensures Reverse(w) !in Mentioned(SymmetricPairs(before))
    ensures Reverse(w) != w
    ensures |Mentioned(SymmetricPairs(before)) + {Reverse(w), w}| == |Mentioned(SymmetricPairs(before))| + 2
  {
    var P := SymmetricPairs(before);
    var M := Mentioned(P);
    ReverseInvolution(w);
    if Reverse(w) in M {
      MentionedIn(P, Reverse(w));
      var p :| p in P && (p.0 == Reverse(w) || p.1 == Reverse(w));
      PairsFromWords(before, p);
    }
    assert M + {Reverse(w), w} == (M + {Reverse(w)}) + {w};
  }

  /** A mentioned word belongs to some pair. */
  lemma {:induction false} MentionedIn(pairs: seq<(string, string)>, x: string)
    requires x in Mentioned(pairs)
    ensures exists p :: p in pairs && (p.0 == x || p.1 == x)
  {
    var last := pairs[|pairs| - 1];
    if x == last.0 || x == last.1 {
      assert last in pairs;
    } else {
      MentionedIn(pairs[..|pairs| - 1], x);
      var p :| p in pairs[..|pairs| - 1] && (p.0 == x || p.1 == x);
      assert p in pairs;
    }
  }

  /** Without duplicates at most half as many pairs as words are reported. */
  lemma PairsBound(words: seq<string>)
    requires Distinct(words)
    ensures 2 * |SymmetricPairs(words)| <= |words|
  {
    MentionedWords(words);
    DistinctCardinality(words);
    SubsetCardinality(Mentioned(SymmetricPairs(words)), set x | x in words);
  }

  /** A subset is no larger than its superset. */
  lemma SubsetCardinality(a: set<string>, b: set<string>)
    requires a <= b
    ensures |a| <= |b|
  {
    assert b == a + (b - a);
  }

  /** What FindPairs knows after looking at the first `k` words: every pair is
      made of two of those words, one the reversal of the other; the set holds
      only those words; and, without duplicates, the pairs are the declarative
      ones and the set holds exactly the words whose reversal came before none
      of them. */
  ghost predicate Scanned(words: seq<string>, k: nat, wordSet: set<string>, result: seq<(string, string)>)
    requires k <= |words|
  {
    && (forall p :: p in result ==> p.0 in words[..k] && p.1 in words[..k] && p.0 == Reverse(p.1))
    && (forall x :: x in wordSet ==> x in words[..k])
    && (Distinct(words) ==> result == SymmetricPairs(words[..k]))
    && (Distinct(words) ==>
          forall i :: 0 <= i < k ==> (words[i] in wordSet <==> Reverse(words[i]) !in words[..i]))
  }

  /** `SetsAndMaps.FindPairs`. */
  method FindPairs(words: seq<string>) returns (result: seq<(string, string)>)
    ensures forall p :: p in result ==> p.0 in words && p.1 in words && p.0 == Reverse(p.1)
    ensures Distinct(words) ==> result == SymmetricPairs(words)
    ensures Distinct(words) ==> 2 * |result| <= |words|
  {
    result := [];
    var wordSet: set<string> := {};
    for k := 0 to |words|
      invariant Scanned(words, k, wordSet, result)
    {
      var word := words[k];
      var reversed := Reverse(word);
      ghost var wordSet0, result0 := wordSet, result;
      if reversed in wordSet {
        result := result + [(reversed, word)];
      } else {
        wordSet := wordSet + {word};
      }
      FindPairsStep(words, k, wordSet0, result0, wordSet, result);
    }
    assert words[..|words|] == words;
    if Distinct(words) {
      PairsBound(words);
    }
  }

  /** One step of FindPairs keeps `Scanned`: a word whose reversal is in the set
      completes a pair; any other word joins the set. */
  lemma FindPairsStep(words: seq<string>, k: nat, wordSet: set<string>, result: seq<(string, string)>,
                      wordSet': set<string>, result': seq<(string, string)>)
    requires k < |words| && Scanned(words, k, wordSet, result)
    requires Reverse(words[k]) in wordSet ==>
      wordSet' == wordSet && result' == result + [(Reverse(words[k]), words[k])]
    requires Reverse(words[k]) !in wordSet ==>
      wordSet' == wordSet + {words[k]} && result' == result
    ensures Scanned(words, k + 1, wordSet', result')
  {
    var w := words[k];
    assert words[..k + 1] == words[..k] + [w];
    if Distinct(words) {
      SeenBefore(words, k, wordSet);
      assert SymmetricPairs(words[..k + 1]) ==
        if Reverse(w) in words[..k] then result + [(Reverse(w), w)] else result;
    }
  }

  /** Against a set holding exactly the unmatched words so far, looking up the
      reversal of the next word is looking it up among all earlier words. */
  lemma SeenBefore(words: seq<string>, k: nat, wordSet: set<string>)
    requires Distinct(words) && k < |words|
    requires forall x :: x in wordSet ==> x in words[..k]
    requires forall i :: 0 <= i < k ==> (words[i] in wordSet <==> Reverse(words[i]) !in words[..i])
    ensures Reverse(words[k]) in wordSet <==> Reverse(words[k]) in words[..k]
    ensures words[k] !in wordSet && words[k] !in words[..k]
  {
    var w := words[k];
    if Reverse(w) in words[..k] {
      var i :| 0 <= i < k && words[i] == Reverse(w);
      ReverseInvolution(w);
      assert w !in words[..i];
    }
  }

  // ---------------------------------------------------------------------------
  // Anagrams
  // ---------------------------------------------------------------------------

  /** `char.IsLetter`, restricted to ASCII. */
  predicate IsLetter(c: char)
  {
    'a' <= c <= 'z' || 'A' <= c <= 'Z'
  }

  /** `char.ToLower`, restricted to ASCII. */
  function ToLower(c: char): char
  {
    if 'A' <= c <= 'Z' then (c as int + 32) as char else c
  }

  /** `string.ToLower()`. */
  function Lowered(s: string): string
  {
    if s == [] then [] else [ToLower(s[0])] + Lowered(s[1..])
  }

  /** `Where(char.IsLetter)`. */
  function LettersOnly(s: string): string
  {
    if s == [] then []
    else if IsLetter(s[0]) then [s[0]] + LettersOnly(s[1..])
    else LettersOnly(s[1..])
  }

  /** The word as the comparison sees it: lower-cased, letters only. */
  function Normalize(s: string): string
  {
    LettersOnly(Lowered(s))
  }

  /** Lower-casing distributes over concatenation. */
  lemma {:induction false} LoweredConcat(a: string, b: string)
    ensures Lowered(a + b) == Lowered(a) + Lowered(b)
  {
    if a == [] {
      assert a + b == b;
    } else {
      var ab := a + b;
      assert ab[0] == a[0] && ab[1..] == a[1..] + b;
      calc {
        Lowered(ab);
        [ToLower(a[0])] + Lowered(a[1..] + b);
        { LoweredConcat(a[1..], b); }
        [ToLower(a[0])] + (Lowered(a[1..]) + Lowered(b));
        ([ToLower(a[0])] + Lowered(a[1..])) + Lowered(b);
        Lowered(a) + Lowered(b);
      }
    }
  }

  /** Filtering distributes over concatenation. */
  lemma {:induction false} LettersOnlyConcat(a: string, b: string)
    ensures LettersOnly(a + b) == LettersOnly(a) + LettersOnly(b)
  {
    if a == [] {
      assert a + b == b;
    } else {
      var ab := a + b;
      assert ab[0] == a[0] && ab[1..] == a[1..] + b;
      LettersOnlyConcat(a[1..], b);
      if IsLetter(a[0]) {
        calc {
          LettersOnly(ab);
          [a[0]] + LettersOnly(a[1..] + b);
          [a[0]] + (LettersOnly(a[1..]) + LettersOnly(b));
          ([a[0]] + LettersOnly(a[1..])) + LettersOnly(b);
        }
      }
    }
  }

  /** Normalising is compatible with concatenation. */
  lemma NormalizeConcat(a: string, b: string)
    ensures Normalize(a + b) == Normalize(a) + Normalize(b)
  {
    LoweredConcat(a, b);
    LettersOnlyConcat(Lowered(a), Lowered(b));
  }

  /** A normalised word holds only lower-case letters. */
  lemma {:induction false} NormalizeLowerLetters(s: string)
    ensures forall c :: c in Normalize(s) ==> 'a' <= c <= 'z'
  {
    if s != [] {
      NormalizeLowerLetters(s[1..]);
      NormalizeConcat([s[0]], s[1..]);
      assert [s[0]] + s[1..] == s;
    }
  }

  /** A string of lower-case letters is its own normalisation. */
  lemma {:induction false} LowerLettersFixed(s: string)
    requires forall c :: c in s ==> 'a' <= c <= 'z'
    ensures Normalize(s) == s
  {
    if s != [] {
      assert forall c :: c in s[1..] ==> c in s;
      LowerLettersFixed(s[1..]);
      NormalizeConcat([s[0]], s[1..]);
      assert [s[0]] + s[1..] == s;
      assert s[0] in s;
      assert [s[0]][1..] == [];
      assert Lowered([s[0]]) == [s[0]];
      assert LettersOnly([s[0]]) == [s[0]];
    }
  }

  /** Spaces and case do not matter: removing a space changes nothing, and
      normalising twice is normalising once. */
  lemma NormalizeIgnoresSpacesAndCase(a: string, b: string)
    ensures Normalize(a + " " + b) == Normalize(a + b)
    ensures Normalize(Normalize(a)) == Normalize(a)
  {
    NormalizeConcat(a + " ", b);
    NormalizeConcat(a, " ");
    NormalizeConcat(a, b);
    NormalizeLowerLetters(a);
    LowerLettersFixed(Normalize(a));
  }

  /** The two words are anagrams: their normalisations have the same letters with the same counts. */
  predicate AreAnagrams(word1: string, word2: string)
  {
    multiset(Normalize(word1)) == multiset(Normalize(word2))
  }

  /** Being anagrams is reflexive and symmetric, and words whose normalisations
      differ in length are never anagrams. */
  lemma AnagramLaws(word1: string, word2: string)
    ensures AreAnagrams(word1, word1)
    ensures AreAnagrams(word1, word2) == AreAnagrams(word2, word1)
    ensures |Normalize(word1)| != |Normalize(word2)| ==> !AreAnagrams(word1, word2)
  {
    assert |multiset(Normalize(word1))| == |Normalize(word1)|;
    assert |multiset(Normalize(word2))| == |Normalize(word2)|;
  }

  /** One character normalises to its lower-case form if it is a letter, and to nothing otherwise. */
  lemma NormalizeChar(c: char)
    ensures Normalize([c]) == if IsLetter(c) then [ToLower(c)] else []
  {
    assert [c][1..] == [];
    assert Lowered([c]) == [ToLower(c)];
    assert IsLetter(ToLower(c)) == IsLetter(c);
    var x := ToLower(c);
    assert [x][0] == x && [x][1..] == [];
    assert LettersOnly([x]) == if IsLetter(x) then [x] else [];
  }

  /** The documented examples: "CAT" and "ACT" are anagrams ... */
  lemma AnagramExampleCat()
    ensures AreAnagrams("CAT", "ACT")
  {
    NormalizeChar('A'); NormalizeChar('C'); NormalizeChar('T');
    NormalizeConcat("C", "AT"); NormalizeConcat("A", "T");
    NormalizeConcat("A", "CT"); NormalizeConcat("C", "T");
    assert Normalize("CAT") == "cat" && Normalize("ACT") == "act";
    assert multiset("cat") == multiset("act");
  }

  /** ... "DOG" and "GOOD" are not, since "GOOD" has two O's ... */
  lemma AnagramExampleDog()
    ensures !AreAnagrams("DOG", "GOOD")
  {
    NormalizeChar('D'); NormalizeChar('G'); NormalizeChar('O');
    NormalizeConcat("D", "OG"); NormalizeConcat("O", "G");
    NormalizeConcat("G", "OOD"); NormalizeConcat("O", "OD"); NormalizeConcat("O", "D");
    assert |Normalize("DOG")| == 3 && |Normalize("GOOD")| == 4;
    AnagramLaws("DOG", "GOOD");
  }

  /** ... and case is ignored: "Ab" and "Ba" are anagrams. */
  lemma AnagramExampleCase()
    ensures AreAnagrams("Ab", "Ba")
  {
    NormalizeChar('A'); NormalizeChar('B'); NormalizeChar('a'); NormalizeChar('b');
    NormalizeConcat("A", "b"); NormalizeConcat("B", "a");
    assert Normalize("Ab") == "ab" && Normalize("Ba") == "ba";
    assert multiset("ab") == multiset("ba");
  }

  /** A sub-multiset of the same size is the whole multiset. */
  lemma SubMultisetOfSameSize(a: multiset<char>, b: multiset<char>)
    requires a <= b && |a| == |b|
    ensures a == b
  {
    assert b == a + (b - a);
  }

  /** `SetsAndMaps.IsAnagram`. */
  method IsAnagram(word1: string, word2: string) returns (r: bool)
    ensures r == AreAnagrams(word1, word2)
  {
    var w1 := Normalize(word1);
    var w2 := Normalize(word2);
    if |w1| != |w2| {
      AnagramLaws(word1, word2);
      return false;
    }
    r := SameLetterCounts(w1, w2);
  }

  /** The two loops of IsAnagram, on words of equal length: count the letters
      of `w1`, then take away each letter of `w2`, failing on a letter whose
      count is already zero. */
  method SameLetterCounts(w1: string, w2: string) returns (r: bool)
    requires |w1| == |w2|
    ensures r == (multiset(w1) == multiset(w2))
  {
    var charCount := CountLetters(w1);
    ghost var remaining := multiset(w1);
    ghost var matched: multiset<char> := multiset{};
    for j := 0 to |w2|
      invariant matched == multiset(w2[..j])
      invariant remaining + matched == multiset(w1)
      invariant forall c :: CountOf(charCount, c) == remaining[c]
      invariant forall c :: c in charCount ==> charCount[c] >= 0
    {
      assert w2[..j + 1] == w2[..j] + [w2[j]];
      var c := w2[j];
      if c !in charCount || charCount[c] == 0 {
        assert remaining[c] == 0;
        ExceedsCount(w2, j, multiset(w1));
        return false;
      }
      charCount := charCount[c := charCount[c] - 1];
      remaining := remaining - multiset{c};
      matched := matched + multiset{c};
    }
    assert w2[..|w2|] == w2;
    SubMultisetOfSameSize(multiset(w2), multiset(w1));
    return true;
  }

  /** The first loop of IsAnagram: how often each letter occurs in `w`. */
  method CountLetters(w: string) returns (charCount: map<char, int>)
    ensures forall c :: CountOf(charCount, c) == multiset(w)[c]
    ensures forall c :: c in charCount ==> charCount[c] >= 1
  {
    charCount := map[];
    ghost var counted: multiset<char> := multiset{};
    for i := 0 to |w|
      invariant counted == multiset(w[..i])
      invariant forall c :: CountOf(charCount, c) == counted[c]
      invariant forall c :: c in charCount ==> charCount[c] >= 1
    {
      assert w[..i + 1] == w[..i] + [w[i]];
      var c := w[i];
      if c in charCount {
        charCount := charCount[c := charCount[c] + 1];
      } else {
        charCount := charCount[c := 1];
      }
      counted := counted + multiset{c};
    }
    assert w[..|w|] == w;
  }

  /** The dictionary's count for `c`, zero when `c` is not a key. */
  function CountOf(charCount: map<char, int>, c: char): int
  {
    if c in charCount then charCount[c] else 0
  }

  /** When the letters of `w` before position `j` already use up every `w[j]`
      of `m`, the whole of `w` has more `w[j]`s than `m`. */
  lemma ExceedsCount(w: string, j: nat, m: multiset<char>)
    requires j < |w| && multiset(w[..j])[w[j]] == m[w[j]]
    ensures multiset(w) != m
  {
    assert w == w[..j] + [w[j]] + w[j + 1..];
    assert multiset(w) == multiset(w[..j]) + multiset{w[j]} + multiset(w[j + 1..]);
  }
}
