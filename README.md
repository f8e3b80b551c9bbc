# Binary-search autocomplete, modelled in Dafny

`BinarySearchAutocomplete` is a prefix-completion index. It holds an array
`myTerms` of terms, each a word with a weight, and sorts it by word once, in
the constructor. Every query finds the contiguous block of terms whose word
starts with a prefix. It does so with two binary searches:

- `firstIndexOf` finds the leftmost index equivalent to a key under a
  comparator;
- `lastIndexOf` finds the rightmost one.

At every call site the comparator is the prefix order on the first |prefix|
characters. The three queries then work inside that block:

- `topMatches(prefix, k)` copies the block, sorts it by descending weight and
  returns the first min(k, m) words;
- `topMatch(prefix)` scans the block for the heaviest word;
- `weightOf(term)` scans the block for the term itself, comparing while
  ignoring case.

The model has two modules:

- `Terms` (terms.dfy) holds:
  - the `Term` datatype;
  - lexicographic comparison by character code;
  - the three comparators: natural order by word, `PrefixOrder(r)` and
    descending weight. Each is a `(Term, Term) -> int` function in the style
    of a Java `Comparator`;
  - `IsComparator`, the comparator contract: the sign flips when the
    arguments are swapped, and "not after" is transitive;
  - the sortedness facts the searches rest on.
- `Autocomplete` (autocomplete.dfy) holds:
  - the class `BinarySearchAutocomplete` over `myTerms: array<Term>`. Its
    methods keep the source's loops, with their invariants;
  - the specification functions and lemmas the methods are proved against.
    `MatchesOf` gives the matches of a prefix in store order,
    `IsTopSelection` says what a valid top-k answer is, and `ExactWeight`
    gives the documented weight lookup.

Design points:

- `Arrays.sort` and `Collections.sort` become one verified insertion sort,
  `Sort`. It is specified by its result: sorted under the comparator, and a
  permutation of the input.
- `MatchRangeOf` is a helper method. It holds the two search calls that
  `topMatches`, `topMatch` and `weightOf` each repeat, with the same key
  `Term(prefix, 0)` and comparator.
- Both searches only ever compute `mid` with `low + high >= 0`. So Java's
  truncating `/` agrees with Dafny's `/` there.
- The source's three `compare` calls on the same pair in one iteration are
  computed once. The comparators are pure functions.

## Model

| member | source | states |
|---|---|---|
| Terms.LexCompare | src/BinarySearchAutocomplete.java:41 | Term's natural order by word: the result is -1, 0 or 1, and it is 0 exactly when the words are equal |
| Terms.LexCompareIsLexLess | src/BinarySearchAutocomplete.java:41 | the comparison is negative exactly when the first word is a proper prefix of the second, or is smaller at the first position where they differ |
| Terms.LexAntisymmetric | src/BinarySearchAutocomplete.java:41 | swapping the words negates the comparison |
| Terms.LexTransitive | src/BinarySearchAutocomplete.java:41 | "not after" on words is transitive |
| Terms.NaturalOrderIsComparator | src/BinarySearchAutocomplete.java:41 | the natural order meets the comparator contract that sorting requires |
| Terms.LexPrefixMonotone | src/BinarySearchAutocomplete.java:137-138 | cutting two ordered words to their first r characters keeps them ordered |
| Terms.PrefixOrderIsComparator | src/BinarySearchAutocomplete.java:137-138 | PrefixOrder(r) meets the comparator contract that the searches require |
| Terms.ReverseWeightOrderIsComparator | src/BinarySearchAutocomplete.java:151 | descending weight order meets the comparator contract |
| Terms.SortedByWordIsPrefixSorted | src/BinarySearchAutocomplete.java:137-138 | a store sorted by word is sorted under PrefixOrder(r) for every r, so the searches may use it |
| Terms.SortedIsSortedAgainstKey | src/BinarySearchAutocomplete.java:66-72 | in an array sorted under a comparator, the elements before the key, equivalent to it and after it form three consecutive blocks, which is why one probe decides which half to keep |
| Terms.PrefixKeyEquivalence | src/BinarySearchAutocomplete.java:137 | under PrefixOrder(\|p\|), a term is equivalent to the key Term(p, 0) exactly when its word starts with p; a shorter word never is |
| Terms.LexBetweenSharesPrefix | src/BinarySearchAutocomplete.java:137-142 | a word lying lexicographically between two words that start with p starts with p |
| Terms.MatchesContiguous | src/BinarySearchAutocomplete.java:137-142 | in a store sorted by word, every term between two matches of p matches p |
| Terms.EqualsIgnoreCase | src/BinarySearchAutocomplete.java:230 | equalsIgnoreCase with ASCII folding: equal strings are equal ignoring case, and strings equal ignoring case have the same length |
| Terms.MatchIgnoringCaseIsExact | src/BinarySearchAutocomplete.java:229-230 | inside the match range of a term, a word equal to the term ignoring case is equal to it exactly |
| Autocomplete.MatchesOf | src/BinarySearchAutocomplete.java:109-116 | the terms of the store that start with p, in store order: every one of them matches, and there are no more of them than terms |
| Autocomplete.MatchesOfSlice | src/BinarySearchAutocomplete.java:144-148 | when the matches of p are exactly the indices in [f, e), copying that index range yields exactly the matches, in store order |
| Autocomplete.EmptyPrefixMatchesAll | src/BinarySearchAutocomplete.java:137-142 | the empty prefix matches the whole store |
| Autocomplete.EmptyPrefixRange | src/BinarySearchAutocomplete.java:137-142 | for the empty prefix the searches return 0 and n-1 on a non-empty store and -1 on an empty one |
| Autocomplete.PrefixSearchable | src/BinarySearchAutocomplete.java:137-138 | the sorted store meets both searches' precondition under PrefixOrder(\|p\|) |
| Autocomplete.MatchRange | src/BinarySearchAutocomplete.java:137-142 | the leftmost and rightmost results are -1 together and then nothing matches; otherwise 0 <= f <= l < n and an index lies in [f, l] exactly when its word starts with p |
| Autocomplete.SortedPrefixIsTopSelection | src/BinarySearchAutocomplete.java:150-158 | the first min(k, m) terms of the matches sorted by descending weight are a valid top-k selection: the right count, taken from the matches, in non-increasing weight, and no left-out match heavier than a chosen one |
| Autocomplete.LeftOutIsLighter | src/BinarySearchAutocomplete.java:150-158 | after a sort by descending weight, nothing past position n is heavier than anything before it |
| Autocomplete.LeftOutIsRest | src/BinarySearchAutocomplete.java:155-158 | the matches a first-n cut leaves out are exactly the rest of the sorted sequence |
| Autocomplete.HeaviestFirstIsTopSelection | src/BinarySearchAutocomplete.java:150-158 | the words of that cut number min(k, m), all start with the prefix, and are the words of a valid top-k selection |
| Autocomplete.RangeHeaviestFirstIsTopSelection | src/BinarySearchAutocomplete.java:144-158 | copying the match range, sorting it by descending weight and cutting it to k gives a valid topMatches answer for the whole store |
| Autocomplete.NoMatchesSelectNothing | src/BinarySearchAutocomplete.java:140-142 | with no match, the empty answer is a valid top-k selection and the only one |
| Autocomplete.TopOfOneIsHeaviest | src/BinarySearchAutocomplete.java:183-195 | a valid one-word top selection of a non-empty set of matches takes a term of it that no match outweighs |
| Autocomplete.MatchesOfMembers | src/BinarySearchAutocomplete.java:109-116 | a term is among the matches of p exactly when it is a term of the store whose word starts with p |
| Autocomplete.TopOneAgrees | src/BinarySearchAutocomplete.java:183-195 | topMatches(p, 1) and topMatch(p) agree: when the store has a heaviest match, any valid topMatches(p, 1) answer is one word, the word of a matching store term exactly as heavy as the term topMatch returns |
| Autocomplete.DocumentedTopMatchesB | src/BinarySearchAutocomplete.java:114-116 | on the store {air:3, bat:2, bell:4, boy:1}, ["bell", "bat"] is a valid topMatches("b", 2) answer |
| Autocomplete.DocumentedTopMatchesA | src/BinarySearchAutocomplete.java:114-116 | on the same store, ["air"] is a valid topMatches("a", 2) answer: fewer than k matches gives all of them |
| Autocomplete.DocumentedTopMatchB | src/BinarySearchAutocomplete.java:184-186 | on the same store, "bell" at index 2 is the first heaviest match of "b", the documented topMatch("b") |
| Autocomplete.ExactWeight | src/BinarySearchAutocomplete.java:222-224 | the documented lookup over the whole store: 0.0 when no term has the word, otherwise the weight of the first term that does |
| Autocomplete.ExactWeightSkip | src/BinarySearchAutocomplete.java:229-234 | skipping terms whose word is not the searched one does not change the documented weight |
| Autocomplete.MissingWordExample | src/BinarySearchAutocomplete.java:226-234 | the documented store {air:3, bat:2, bell:4, boy:1} is sorted, "cat" matches none of its words, and the documented weight of "cat" is 0.0 |
| Autocomplete.Sort | src/BinarySearchAutocomplete.java:41 | after the sort the array is sorted under the comparator and is a permutation of its old contents |
| Autocomplete.BinarySearchAutocomplete.constructor | src/BinarySearchAutocomplete.java:32-42 | myTerms is new, has terms.Length entries, is a permutation of the pairs (terms[i], weights[i]) and is sorted by word |
| Autocomplete.BinarySearchAutocomplete.Create | src/BinarySearchAutocomplete.java:37-40 | a weights array shorter than terms fails at index weights.Length; otherwise the index is built as the constructor states |
| Autocomplete.BinarySearchAutocomplete.FirstIndexOf | src/BinarySearchAutocomplete.java:60-76 | on an array sorted under the comparator: -1 exactly when no element is equivalent to the key, otherwise the smallest equivalent index |
| Autocomplete.BinarySearchAutocomplete.LastIndexOf | src/BinarySearchAutocomplete.java:91-107 | on an array sorted under the comparator: -1 exactly when no element is equivalent to the key, otherwise the largest equivalent index |
| Autocomplete.BinarySearchAutocomplete.MatchRangeOf | src/BinarySearchAutocomplete.java:137-142 | the two searches under PrefixOrder(\|prefix\|) are -1 together when no word starts with prefix; otherwise [firstIndex, lastIndex] holds exactly the words that do |
| Autocomplete.BinarySearchAutocomplete.TopMatches | src/BinarySearchAutocomplete.java:129-160 | a negative k fails with IllegalArgument; otherwise the answer has min(k, m) words for the m matches, every word starts with prefix, and the words form a valid top-k selection: non-increasing weight, no left-out match heavier |
| Autocomplete.BinarySearchAutocomplete.TopMatch | src/BinarySearchAutocomplete.java:196-220 | "" when nothing matches; otherwise the word of a heaviest match that is the first one in the store, since only a strictly heavier term replaces the best so far |
| Autocomplete.BinarySearchAutocomplete.WeightOf | src/BinarySearchAutocomplete.java:222-234 | the weight of the first term whose word is term, and 0.0 when there is none, as documented |
| Autocomplete.BinarySearchAutocomplete.WeightOfAsWritten | src/BinarySearchAutocomplete.java:226-234 | fails with IndexOutOfBounds(-1) exactly when no word starts with term; otherwise returns the documented weight |

## Left out

- `NullPointerException` checks (lines 33-34, 61, 92, 132, 199): Dafny references and strings are never null.
- The `Term` class is not part of this model, and no comment in the code states its orders. The natural order, `PrefixOrder` and `ReverseWeightOrder` are this model's own definitions: lexicographic order by word, the same order on the first r characters (a word shorter than r is never equivalent to a key of length r), and descending weight.
- Strings are sequences of Unicode code points, where Java's `String` holds UTF-16 code units: `compareTo`, `length()` (line 137) and the prefix cut all work on code units. For text beyond U+FFFF (emoji, for example) the store order can differ from Java's. That changes which of several equally heavy matches `topMatch` picks first. A Java string can also hold a lone surrogate, which a Dafny string cannot.
- `Arrays.sort` and `Collections.sort`: replaced by one verified insertion sort, specified as sorted and a permutation. The stability of `Collections.sort` is a library guarantee. The model does not state it, so among equal weights it fixes no order.
- `double` weights are `real`. Weights are only ever compared, so no rounding arises.
- The `PriorityQueue` in `topMatch` (line 210) holds at most one term. It is modelled as a single "best so far" option.
- The commented-out priority-queue variant of `topMatches` (lines 162-180) is dead code.
- The "1 + log n comparator calls" bound in the doc comment (lines 47-48) is not modelled. The code makes up to three calls per iteration, and the model counts neither calls nor iterations.
- `equalsIgnoreCase` is modelled with ASCII case folding, not Java's full Unicode rules. Inside the prefix range of the term, any case-insensitive match is an exact one (`MatchIgnoringCaseIsExact`), so the fold never decides anything there.
- Java `int` overflow of `low + high` is not modelled; integers are unbounded.
- `Iterable`, `ArrayList` and the `Autocompletor` interface: answers are `seq<string>`.
- Autocomplete.BinarySearchAutocomplete.constructor: requires `terms.Length <= weights.Length`, where Java throws instead. `Create` models that failure, at index `weights.Length`. A weights array longer than terms is accepted and its extra weights are ignored, as the code does, although a reimplementation could be expected to reject it.
- Autocomplete.BinarySearchAutocomplete.TopMatches: a top-k answer is stated up to ties in weight (`IsTopSelection`), not as one fixed sequence of words, because the library sort's tie order is not modelled.

## Findings

| source | as written | input that shows it | evidently intended | confidence | as-written member | corrected member |
|---|---|---|---|---|---|---|
| src/BinarySearchAutocomplete.java:229-230 | when no word starts with `term`, both searches return -1 and the scan runs once with i = -1, reading `myTerms[-1]` (an out-of-bounds exception) | the store {air:3, bat:2, bell:4, boy:1} and `weightOf("cat")` | return 0.0 for a word not in the store, as the doc comment at lines 222-224 says | high; not executed | Autocomplete.BinarySearchAutocomplete.WeightOfAsWritten | Autocomplete.BinarySearchAutocomplete.WeightOf |

`WeightOfAsWritten` bounds-checks each array read as Java does. Its contract
states that it fails with `IndexOutOfBounds(-1)` exactly when nothing matches.
`MissingWordExample` shows that the documented example store has no match for
"cat" and that `ExactWeight` for "cat" is 0.0, so the two disagree there.
`WeightOf` guards the scan with the not-found check that `topMatches` and
`topMatch` make. It is proved to return `ExactWeight` on every store.
