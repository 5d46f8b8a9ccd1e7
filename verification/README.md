# Linked list, list rotation and set/map puzzles

This project models three in-memory components of a C# teaching repository and
proves what each one promises.

- **`DoublyLinked`** (`linked_list.dfy`) is the doubly linked list of integers of
  `week04/code/LinkedList.cs`. `LinkedList` is a class with `head` and `tail`
  references. Each `Node` holds its `data` and `next`/`prev` links, and every
  operation relinks them in place. Two ghost fields describe the chain:
  - `Nodes` lists the nodes from head to tail;
  - `Contents` lists their values.

  `Valid()` is the object invariant that ties them to the real fields:
  - `head` and `tail` are null together, exactly when the list is empty;
  - the head's `prev` and the tail's `next` are null;
  - each `next` link is mirrored by the `prev` link that leads back;
  - no node occurs twice;
  - the nodes hold `Contents`.

  Every operation preserves `Valid()`. It states its new `Contents`, and its new
  `Nodes`, through a sequence function:
  - `InsertedAfter`, `RemovedFirst`, `ReplacedAll` and `Reversed`;
  - these rest on `IndexOf` (first occurrence) and `Without` (delete one index).

  Lemmas prove what those functions mean: positions, multisets, inverses and
  idempotence. The searching operations walk the chain with `while` loops, as
  the original does.
- **`Arrays`** (`arrays.dfy`) is `RotateListRight` of `week01/code/Arrays.cs`. It
  rotates a list of integers to the right, in place. The remainder is computed
  with C#'s truncating `%`, and the two exceptions the original can raise come
  back as a `Fail` outcome. When the rotation succeeds, the list equals
  `Rotated(old, amount)`. That function is proved to equal the slicing the
  original performs, `old[n-r..] + old[..n-r]`, and to be:
  - periodic in the amount;
  - a permutation;
  - undone by the opposite rotation.
- **`SetsAndMaps`** (`sets_and_maps.dfy`) holds `FindPairs` and `IsAnagram` of
  `week03/code/SetsAndMaps.cs`.
  - `FindPairs` grows a set of unmatched words. It reports `(reversed, word)`
    when the reversal of the current word is in the set. It is proved against a
    declarative reference, `SymmetricPairs`.
  - `IsAnagram` normalises both words to lower-case letters. It then counts the
    letters of the first word in a dictionary and takes away those of the
    second. It is proved to return exactly whether the normalised words are
    equal as multisets.

## Model

| member | source | states |
|---|---|---|
| DoublyLinked.IndexOf | week04/code/LinkedList.cs:55-74 | the index the forward walk stops at holds `v`, and no earlier element is `v` |
| DoublyLinked.IndexOfUnique | week04/code/LinkedList.cs:56-74 | the first index holding `v` with no earlier copy is the index of the first occurrence |
| DoublyLinked.InsertedAfterPlacement | week04/code/LinkedList.cs:53-76 | insertion after an absent value changes nothing; otherwise the new value sits right after the first `v` and all other elements keep their order |
| DoublyLinked.InsertedAfterCounts | week04/code/LinkedList.cs:53-76 | insertion after a present value adds exactly one copy of the new value to the multiset of values |
| DoublyLinked.InsertedAfterTail | week04/code/LinkedList.cs:60-63 | when the first `v` is the last element, the new value is appended, as InsertTail does |
| DoublyLinked.InsertedFoundAfter | week04/code/LinkedList.cs:53-76 | a fresh value inserted after `v` is then first found one place after the first `v` |
| DoublyLinked.RemovedFirstDeletesOne | week04/code/LinkedList.cs:115-144 | removal of an absent value changes nothing; otherwise exactly the element at the first `v` goes, and everything before it (no `v` there) and after it keeps its order |
| DoublyLinked.RemovedFirstCounts | week04/code/LinkedList.cs:115-144 | removal of a present value takes exactly one copy of it out of the multiset |
| DoublyLinked.RemovedFirstUndoesHeadInsert | week04/code/LinkedList.cs:115-124 | removing a value just put at the head gives the original contents back |
| DoublyLinked.RemovedFirstUndoesInsertAfter | week04/code/LinkedList.cs:115-144 | removing a fresh value just inserted after `v` gives the original contents back |
| DoublyLinked.ReplacedAllAt | week04/code/LinkedList.cs:149-160 | replacement keeps the length, rewrites each element equal to the old value and leaves every other element alone |
| DoublyLinked.ReplacedAllIdempotent | week04/code/LinkedList.cs:149-160 | after a replacement the old value is gone (unless it equals the new one), and replacing again changes nothing |
| DoublyLinked.ReversedAt | week04/code/LinkedList.cs:183-191 | element `k` of the backward reading is element `n-1-k` of the forward reading |
| DoublyLinked.ReversedInvolution | week04/code/LinkedList.cs:165-191 | the backward reading of the backward reading is the forward reading |
| DoublyLinked.ReversedSuffixStep | week04/code/LinkedList.cs:185-190 | one step of the backward walk appends the value of the previous node to the reading so far |
| DoublyLinked.Node.constructor | week04/code/LinkedList.cs:15 | a new node holds its value and has no links |
| DoublyLinked.LinkedList.constructor | week04/code/LinkedList.cs:7-8 | a new list has null head and tail, is valid and is empty |
| DoublyLinked.LinkedList.InsertHead | week04/code/LinkedList.cs:13-28 | keeps `Valid()`; contents become `[v] + old`; a fresh node becomes the head, and also the tail of a list that was empty |
| DoublyLinked.LinkedList.InsertTail | week04/code/LinkedList.cs:33-48 | keeps `Valid()`; contents become `old + [v]`; a fresh node becomes the tail, and also the head of a list that was empty |
| DoublyLinked.LinkedList.InsertAfter | week04/code/LinkedList.cs:53-76 | keeps `Valid()`; contents become `InsertedAfter(old, value, newValue)`; an absent value leaves the node chain as it was; otherwise one fresh node enters right after the first match, and it becomes the tail when the match was the tail |
| DoublyLinked.LinkedList.InsertAfterNode | week04/code/LinkedList.cs:60-71 | after the tail through InsertTail, elsewhere by a splice: one fresh node enters at `i + 1` and all other nodes keep their order |
| DoublyLinked.LinkedList.LinkAfter | week04/code/LinkedList.cs:66-70 | the four-link splice keeps `Valid()` and puts one fresh node holding the new value after position `i` |
| DoublyLinked.LinkedList.RemoveHead | week04/code/LinkedList.cs:81-93 | keeps `Valid()`; drops the first node and value; does nothing on an empty list; leaves head and tail null when at most one element was there |
| DoublyLinked.LinkedList.RemoveTail | week04/code/LinkedList.cs:98-110 | keeps `Valid()`; drops the last node and value; does nothing on an empty list; leaves head and tail null when at most one element was there |
| DoublyLinked.LinkedList.Remove | week04/code/LinkedList.cs:115-144 | keeps `Valid()`; contents become `RemovedFirst(old, value)`; the node chain loses exactly the node of the first match, and is unchanged when the value is absent or the list is empty |
| DoublyLinked.LinkedList.RemoveNode | week04/code/LinkedList.cs:129-140 | a matched node after the head is removed through RemoveTail when it is the tail, and by relinking its neighbours otherwise; exactly position `i` goes from nodes and contents |
| DoublyLinked.LinkedList.Unlink | week04/code/LinkedList.cs:137-138 | relinking the neighbours of an interior node keeps `Valid()` and removes exactly that node and its value |
| DoublyLinked.LinkedList.Replace | week04/code/LinkedList.cs:149-160 | keeps `Valid()`; contents become `ReplacedAll(old, oldValue, newValue)`; nodes, head and tail are not relinked |
| DoublyLinked.LinkedList.SetData | week04/code/LinkedList.cs:154-157 | writing one node's value changes no link and no other node's value |
| DoublyLinked.LinkedList.GetEnumerator | week04/code/LinkedList.cs:165-173 | the forward walk yields exactly the contents, and changes nothing |
| DoublyLinked.LinkedList.Reverse | week04/code/LinkedList.cs:183-191 | the backward walk yields exactly the reversed contents, and changes nothing |
| DoublyLinked.LinkedList.HeadAndTailAreNull | week04/code/LinkedList.cs:199-202 | holds exactly when the list is empty |
| DoublyLinked.LinkedList.HeadAndTailAreNotNull | week04/code/LinkedList.cs:205-208 | holds exactly when the list is non-empty, so exactly one of the two checks holds |
| Arrays.TruncatedRemainder | week01/code/Arrays.cs:24 | C#'s `%`: the Euclidean remainder for a non-negative amount, a value in `(-n, 0]` for a negative one, and zero exactly when `n` divides the amount |
| Arrays.RotatedAt | week01/code/Arrays.cs:31-37 | the element at index `i` moves to index `(i + amount) mod n` |
| Arrays.SliceIsRotation | week01/code/Arrays.cs:31-37 | `old[n-r..] + old[..n-r]` is the rotation by `r` |
| Arrays.RotatedPeriodic | week01/code/Arrays.cs:24 | rotating by `amount` and by `amount + k*n` gives the same list |
| Arrays.RotatedByRemainder | week01/code/Arrays.cs:24 | only `amount mod n` matters |
| Arrays.RotatedByMultiple | week01/code/Arrays.cs:24-28 | a multiple of the length, `0` and `n` included, leaves the list unchanged |
| Arrays.RotatedPermutes | week01/code/Arrays.cs:31-37 | rotation keeps the length and the multiset of elements |
| Arrays.RotatedCompose | week01/code/Arrays.cs:21-38 | rotating by `a` then by `b` is rotating by `a + b` |
| Arrays.RotatedUndo | week01/code/Arrays.cs:21-38 | rotating left by the same amount restores the list |
| Arrays.RotatedZero | week01/code/Arrays.cs:26-28 | rotating by zero leaves the list unchanged |
| Arrays.RotateListRight | week01/code/Arrays.cs:21-38 | an empty list divides by zero; a negative amount that `n` does not divide makes `GetRange` throw; neither touches the list; in every other case the list becomes its rotation by `amount` |
| Arrays.Refill | week01/code/Arrays.cs:35-37 | clear-then-append leaves exactly `right + left` in the list |
| SetsAndMaps.ReverseAt | week03/code/SetsAndMaps.cs:33 | the reversed word has the same length, with character `k` taken from position `n-1-k` |
| SetsAndMaps.ReverseInvolution | week03/code/SetsAndMaps.cs:33 | reversing twice gives the word back |
| SetsAndMaps.SymmetricPairsMembership | week03/code/SetsAndMaps.cs:30-46 | `(r, w)` is in the reference answer exactly when `w` comes after `r` in the list and `r` is its reversal |
| SetsAndMaps.ReportedPairOccurs | week03/code/SetsAndMaps.cs:36-39 | a reported pair consists of an earlier word and a later word, the first the reversal of the second |
| SetsAndMaps.OccurringPairReported | week03/code/SetsAndMaps.cs:30-46 | a word whose reversal occurs earlier is reported with it |
| SetsAndMaps.PairsFromWords | week03/code/SetsAndMaps.cs:36-39 | both words of a reported pair are input words, each the reversal of the other |
| SetsAndMaps.UnmatchedNeverReported | week03/code/SetsAndMaps.cs:36-44 | a word whose reversal is not an input word (such as "at" without "ta") is never reported |
| SetsAndMaps.PalindromeNeverReported | week03/code/SetsAndMaps.cs:36-44 | without duplicates, a word that is its own reversal (such as "aa") is never reported |
| SetsAndMaps.EachPairOnce | week03/code/SetsAndMaps.cs:30-46 | without duplicates, each symmetric pair is reported in exactly one orientation |
| SetsAndMaps.MentionedWords | week03/code/SetsAndMaps.cs:36-45 | without duplicates, the reported pairs use `2 * |pairs|` different input words |
| SetsAndMaps.MentionedWordsStep | week03/code/SetsAndMaps.cs:36-45 | a new word adds no pair, or one pair of two words not used so far |
| SetsAndMaps.NewPairIsFresh | week03/code/SetsAndMaps.cs:36-39 | a new match uses two distinct words that no earlier pair used |
| SetsAndMaps.PairsBound | week03/code/SetsAndMaps.cs:36-45 | without duplicates, at most half as many pairs as words are reported |
| SetsAndMaps.FindPairs | week03/code/SetsAndMaps.cs:22-50 | every reported pair is two input words, one the reversal of the other; without duplicates, the answer is exactly the reference `SymmetricPairs` and has at most `|words| / 2` entries |
| SetsAndMaps.FindPairsStep | week03/code/SetsAndMaps.cs:36-45 | one loop step keeps the loop invariant: the set holds exactly the unmatched words seen so far |
| SetsAndMaps.SeenBefore | week03/code/SetsAndMaps.cs:36 | without duplicates, looking up a reversal in the set is looking it up among all earlier words |
| SetsAndMaps.LoweredConcat | week03/code/SetsAndMaps.cs:112-113 | lower-casing works character by character |
| SetsAndMaps.LettersOnlyConcat | week03/code/SetsAndMaps.cs:112-113 | the letter filter works character by character |
| SetsAndMaps.NormalizeConcat | week03/code/SetsAndMaps.cs:112-113 | normalisation of a concatenation is the concatenation of the normalisations |
| SetsAndMaps.NormalizeChar | week03/code/SetsAndMaps.cs:112-113 | a letter normalises to its lower-case form, any other character to nothing |
| SetsAndMaps.NormalizeLowerLetters | week03/code/SetsAndMaps.cs:112-113 | a normalised word holds only lower-case letters |
| SetsAndMaps.LowerLettersFixed | week03/code/SetsAndMaps.cs:112-113 | a word of lower-case letters is its own normalisation |
| SetsAndMaps.NormalizeIgnoresSpacesAndCase | week03/code/SetsAndMaps.cs:112-113 | a space never matters, and normalising twice is normalising once |
| SetsAndMaps.AnagramLaws | week03/code/SetsAndMaps.cs:109-142 | being anagrams is reflexive and symmetric, and normalised words of different lengths are never anagrams |
| SetsAndMaps.AnagramExampleCat | week03/code/SetsAndMaps.cs:99 | "CAT" and "ACT" are anagrams |
| SetsAndMaps.AnagramExampleDog | week03/code/SetsAndMaps.cs:100 | "DOG" and "GOOD" are not anagrams |
| SetsAndMaps.AnagramExampleCase | week03/code/SetsAndMaps.cs:102-104 | "Ab" and "Ba" are anagrams, because case is ignored |
| SetsAndMaps.IsAnagram | week03/code/SetsAndMaps.cs:109-142 | returns true exactly when the normalised words are equal as multisets, and false when their lengths differ |
| SetsAndMaps.SameLetterCounts | week03/code/SetsAndMaps.cs:119-141 | on equal lengths, the count-then-decrement loops return true exactly when the two words are equal as multisets; the guard keeps every count non-negative |
| SetsAndMaps.CountLetters | week03/code/SetsAndMaps.cs:120-129 | the dictionary maps each letter of the word to its number of occurrences, and holds no other key |
| SetsAndMaps.ExceedsCount | week03/code/SetsAndMaps.cs:134-135 | a letter found with count zero or no key occurs more often in the second word than in the first |

## Left out

- The `Node` class of `week04/code/Node.cs`: Node.cs is not part of this model. `Node` is modelled from its uses in `LinkedList.cs`. The constructor takes the value and leaves both links null.
- LinkedList.HeadAndTailAreNull, LinkedList.HeadAndTailAreNotNull, LinkedList.GetEnumerator and LinkedList.Reverse require `Valid()`. The original asks nothing of its callers. `Valid()` is the object invariant, established by the constructor and kept by every operation.
- The enumerations are lazy `yield` iterators in the original. They are modelled as methods that walk the chain and return the whole reading as a sequence. Interleaving a walk with a mutation is not modelled.
- A removed node keeps its own `next`/`prev` links in the original. The model says nothing about a node once it has left `Nodes`. Garbage collection is not modelled.
- Several source methods are split into helpers so that each proof stays small:
  - `InsertAfter` and `InsertAfterNode`/`LinkAfter`;
  - `Remove` and `RemoveNode`/`Unlink`;
  - `Replace` and `SetData`;
  - `RotateListRight` and `Refill`;
  - `IsAnagram` and `CountLetters`/`SameLetterCounts`.

  Each helper holds one branch or loop of the original, unchanged.
- RotateListRight:
  - The `List<int>` is an `array<int>`, because the rotation never changes its length.
  - `Clear` and `AddRange` become copy loops over the same cells. List capacity is not modelled.
  - Each exception is a `Fail` outcome that leaves the list untouched, since both are raised before the list is modified:
    - `DivideByZeroException` on an empty list;
    - `ArgumentOutOfRangeException` from `GetRange` when a negative amount leaves a negative remainder.
  - A negative amount that is a multiple of the length returns normally with the list unchanged, as in C#.
- FindPairs: when the input has duplicates, only soundness is stated: every pair is two input words, one the reversal of the other. The exact answer and the `|words| / 2` bound are proved under the documented no-duplicates condition.
- Each pair is a tuple `(reversed, word)` instead of the string `"reversed & word"`. The order of the answer is the order in which pairs are found.
- IsAnagram: `ToLower` and `char.IsLetter` are modelled for ASCII letters only. Unicode case mapping and the letter categories are not modelled.
- `MultiplesOf` in `Arrays.cs` is not modelled: it computes with floating-point `double`.
- `SummarizeDegrees` is not modelled: it reads a file.
- `EarthquakeDailySummary` and `FeatureCollection.cs` are not modelled: they fetch JSON over HTTP and deserialise it.
- `LinkedList.ToString` and `IntArrayExtensionMethods.AsString` are not modelled: they only format text for display.
- The list is single-threaded. Concurrent access is not modelled.
