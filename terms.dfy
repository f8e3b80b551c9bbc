/** Terms of the completion index and the orders the index uses on them.

    A term is a word with a weight. Three comparators order terms, each in
    the style of a Java `Comparator`: a negative result means "before", zero
    "equivalent", a positive result "after".
    - NaturalOrder: lexicographic by word (character codes, a proper prefix
      first);
    - PrefixOrder(r): lexicographic on the first r characters of each word,
      so a word shorter than r is never equivalent to a key of length r;
    - ReverseWeightOrder: descending by weight. */
module Terms {

  /** A completion candidate. Weights are only ever compared. */
  datatype Term = Term(word: string, weight: real)

  function Sign(x: int): int
  {
    if x < 0 then -1 else if x > 0 then 1 else 0
  }

  /** Lexicographic comparison of two strings by character code. */
  function LexCompare(a: string, b: string): (c: int)
    ensures -1 <= c <= 1
    ensures c == 0 <==> a == b
  {
    if a == [] then (if b == [] then 0 else -1)
    else if b == [] then 1
    else if a[0] < b[0] then -1
    else if a[0] > b[0] then 1
    else
      assert a == [a[0]] + a[1..] && b == [b[0]] + b[1..];
      LexCompare(a[1..], b[1..])
  }

  /** The textbook definition of "a sorts strictly before b": a is a proper
      prefix of b, or the two first differ at an index where a is smaller. */
  ghost predicate LexLess(a: string, b: string)
  {
    (a < b) ||
    exists k :: 0 <= k < |a| && k < |b| && a[..k] == b[..k] && a[k] < b[k]
  }

  lemma {:induction false} LexCompareIsLexLess(a: string, b: string)
    ensures LexCompare(a, b) < 0 <==> LexLess(a, b)
  {
    if a == [] || b == [] {
      if b == [] {
        assert !(a < b);
      }
    } else if a[0] < b[0] {
      assert a[..0] == b[..0];
    } else if a[0] > b[0] {
      if |a| < |b| { assert b[..|a|][0] == b[0]; }
      if exists k :: 0 <= k < |a| && k < |b| && a[..k] == b[..k] && a[k] < b[k] {
        var k :| 0 <= k < |a| && k < |b| && a[..k] == b[..k] && a[k] < b[k];
        if k > 0 { assert a[..k][0] == b[..k][0]; }
      }
    } else {
      LexCompareIsLexLess(a[1..], b[1..]);
      if LexLess(a[1..], b[1..]) {
        if a[1..] < b[1..] {
          assert a == [a[0]] + a[1..] && b == [b[0]] + b[1..];
        } else {
          var k :| 0 <= k < |a[1..]| && k < |b[1..]| && a[1..][..k] == b[1..][..k] && a[1..][k] < b[1..][k];
          assert a[..k + 1] == [a[0]] + a[1..][..k];
          assert b[..k + 1] == [b[0]] + b[1..][..k];
        }
      }
      if LexLess(a, b) {
        if a < b {
          assert a[1..] < b[1..];
        } else {
          var k :| 0 <= k < |a| && k < |b| && a[..k] == b[..k] && a[k] < b[k];
          assert k > 0;
          assert a[1..][..k - 1] == a[..k][1..];
          assert b[1..][..k - 1] == b[..k][1..];
        }
      }
    }
  }

  lemma {:induction false} LexAntisymmetric(a: string, b: string)
    ensures LexCompare(a, b) == -LexCompare(b, a)
  {
    if a != [] && b != [] && a[0] == b[0] {
      LexAntisymmetric(a[1..], b[1..]);
    }
  }

  lemma {:induction false} LexTransitive(a: string, b: string, c: string)
    requires LexCompare(a, b) <= 0 && LexCompare(b, c) <= 0
    ensures LexCompare(a, c) <= 0
  {
    if a != [] && b != [] && c != [] && a[0] == b[0] && b[0] == c[0] {
      LexTransitive(a[1..], b[1..], c[1..]);
    }
  }

  /** The first r characters of w, or all of w when it is shorter. */
  function Prefix(w: string, r: nat): string
  {
    if |w| <= r then w else w[..r]
  }

  /** Cutting both words to the same length keeps their lexicographic order. */
  lemma {:induction false} LexPrefixMonotone(a: string, b: string, r: nat)
    requires LexCompare(a, b) <= 0
    ensures LexCompare(Prefix(a, r), Prefix(b, r)) <= 0
  {
    if r > 0 && a != [] && b != [] && a[0] == b[0] {
      LexPrefixMonotone(a[1..], b[1..], r - 1);
      assert Prefix(a, r)[1..] == Prefix(a[1..], r - 1);
      assert Prefix(b, r)[1..] == Prefix(b[1..], r - 1);
    }
  }

  /** Term's natural order: lexicographic by word. */
  function NaturalOrder(): (Term, Term) -> int
  {
    (x: Term, y: Term) => LexCompare(x.word, y.word)
  }

  /** Lexicographic order on the first r characters of the words. */
  function PrefixOrder(r: nat): (Term, Term) -> int
  {
    (x: Term, y: Term) => LexCompare(Prefix(x.word, r), Prefix(y.word, r))
  }

  /** Descending order by weight. */
  function ReverseWeightOrder(): (Term, Term) -> int
  {
    (x: Term, y: Term) => if x.weight > y.weight then -1 else if x.weight < y.weight then 1 else 0
  }

  /** Swapping the arguments of cmp flips the sign of its result. */
  ghost predicate Flips(cmp: (Term, Term) -> int, x: Term, y: Term)
  {
    Sign(cmp(x, y)) == -Sign(cmp(y, x))
  }

  /** "Not after" is transitive across x, y and z. */
  ghost predicate Chains(cmp: (Term, Term) -> int, x: Term, y: Term, z: Term)
  {
    cmp(x, y) <= 0 && cmp(y, z) <= 0 ==> cmp(x, z) <= 0
  }

  /** The contract of a Java comparator: the sign flips when the arguments
      are swapped, and "not after" is transitive. The two facts are stated
      through Flips and Chains so that a proof uses them where it names them. */
  ghost predicate IsComparator(cmp: (Term, Term) -> int)
  {
    (forall x, y :: Flips(cmp, x, y)) &&
    (forall x, y, z :: Chains(cmp, x, y, z))
  }

  /** x does not come after y under cmp. */
  ghost predicate InOrder(cmp: (Term, Term) -> int, x: Term, y: Term)
  {
    cmp(x, y) <= 0
  }

  /** s is sorted under cmp: no element comes after a later one. A proof
      uses the fact for a pair where it names InOrder for that pair. */
  ghost predicate SortedBy(s: seq<Term>, cmp: (Term, Term) -> int)
  {
    forall i, j {:trigger InOrder(cmp, s[i], s[j])} :: 0 <= i < j < |s| ==> InOrder(cmp, s[i], s[j])
  }

  /** s is sorted relative to key: the sign of cmp(s[i], key) never
      decreases along s, so the elements before key, those equivalent to it
      and those after it form three consecutive blocks. */
  ghost predicate SortedAgainst(s: seq<Term>, key: Term, cmp: (Term, Term) -> int)
  {
    forall i, j :: 0 <= i < j < |s| ==> Sign(cmp(s[i], key)) <= Sign(cmp(s[j], key))
  }

  lemma NaturalOrderIsComparator()
    ensures IsComparator(NaturalOrder())
  {
    forall x: Term, y: Term
      ensures Flips(NaturalOrder(), x, y)
    {
      LexAntisymmetric(x.word, y.word);
    }
    forall x: Term, y: Term, z: Term
      ensures Chains(NaturalOrder(), x, y, z)
    {
      if NaturalOrder()(x, y) <= 0 && NaturalOrder()(y, z) <= 0 {
        LexTransitive(x.word, y.word, z.word);
      }
    }
  }

  lemma PrefixOrderIsComparator(r: nat)
    ensures IsComparator(PrefixOrder(r))
  {
    forall x: Term, y: Term
      ensures Flips(PrefixOrder(r), x, y)
    {
      LexAntisymmetric(Prefix(x.word, r), Prefix(y.word, r));
    }
    forall x: Term, y: Term, z: Term
      ensures Chains(PrefixOrder(r), x, y, z)
    {
      if PrefixOrder(r)(x, y) <= 0 && PrefixOrder(r)(y, z) <= 0 {
        LexTransitive(Prefix(x.word, r), Prefix(y.word, r), Prefix(z.word, r));
      }
    }
  }

  lemma ReverseWeightOrderIsComparator()
    ensures IsComparator(ReverseWeightOrder())
  {
  }

  /** An array sorted under a comparator is sorted relative to every key:
      this is what lets a binary search decide by one probe which half to
      keep. */
  lemma SortedIsSortedAgainstKey(s: seq<Term>, key: Term, cmp: (Term, Term) -> int)
    requires IsComparator(cmp) && SortedBy(s, cmp)
    ensures SortedAgainst(s, key, cmp)
  {
    forall i, j | 0 <= i < j < |s|
      ensures Sign(cmp(s[i], key)) <= Sign(cmp(s[j], key))
    {
      assert InOrder(cmp, s[i], s[j]);
      assert Chains(cmp, s[i], s[j], key);
      assert Flips(cmp, s[i], key) && Flips(cmp, s[j], key);
      assert Chains(cmp, key, s[i], s[j]);
    }
  }

  /** Sorted by full word implies sorted under PrefixOrder(r) for every r. */
  lemma SortedByWordIsPrefixSorted(s: seq<Term>, r: nat)
    requires SortedBy(s, NaturalOrder())
    ensures SortedBy(s, PrefixOrder(r))
  {
    forall i, j | 0 <= i < j < |s|
      ensures InOrder(PrefixOrder(r), s[i], s[j])
    {
      assert InOrder(NaturalOrder(), s[i], s[j]);
      LexPrefixMonotone(s[i].word, s[j].word, r);
    }
  }

  /** The term's word starts with prefix p. */
  predicate Matches(t: Term, p: string)
  {
    p <= t.word
  }

  /** Against a key whose word is the prefix p itself, PrefixOrder(|p|)
      finds exactly the terms whose word starts with p. */
  lemma PrefixKeyEquivalence(p: string, w: real)
    ensures forall t :: PrefixOrder(|p|)(t, Term(p, w)) == 0 <==> Matches(t, p)
  {
    forall t
      ensures PrefixOrder(|p|)(t, Term(p, w)) == 0 <==> Matches(t, p)
    {
      if |t.word| >= |p| {
        assert Prefix(t.word, |p|) == t.word[..|p|];
      }
    }
  }

  /** A word lying lexicographically between two words that start with p
      starts with p too. */
  lemma LexBetweenSharesPrefix(a: string, b: string, c: string, p: string)
    requires LexCompare(a, b) <= 0 && LexCompare(b, c) <= 0
    requires p <= a && p <= c
    ensures p <= b
  {
    LexPrefixMonotone(a, b, |p|);
    LexPrefixMonotone(b, c, |p|);
    assert Prefix(a, |p|) == p;
    assert Prefix(c, |p|) == p;
    LexAntisymmetric(p, Prefix(b, |p|));
  }

  /** In a store sorted by word, the terms that start with p are contiguous. */
  lemma MatchesContiguous(s: seq<Term>, p: string, f: int, l: int)
    requires SortedBy(s, NaturalOrder())
    requires 0 <= f <= l < |s|
    requires Matches(s[f], p) && Matches(s[l], p)
    ensures forall i :: f <= i <= l ==> Matches(s[i], p)
  {
    forall i | f < i < l
      ensures Matches(s[i], p)
    {
      assert InOrder(NaturalOrder(), s[f], s[i]);
      assert InOrder(NaturalOrder(), s[i], s[l]);
      LexBetweenSharesPrefix(s[f].word, s[i].word, s[l].word, p);
    }
  }

  /** ASCII case folding. */
  function ToLowerAscii(c: char): char
  {
    if 'A' <= c <= 'Z' then (c as int + 32) as char else c
  }

  /** Java's String.equalsIgnoreCase, with ASCII case folding: equal
      strings are equal ignoring case, and only strings of one length are. */
  predicate EqualsIgnoreCase(a: string, b: string): (r: bool)
    ensures a == b ==> r
    ensures r ==> |a| == |b|
  {
    |a| == |b| && forall i :: 0 <= i < |a| ==> ToLowerAscii(a[i]) == ToLowerAscii(b[i])
  }

  /** A word that starts with p and equals p ignoring case equals p: within
      a prefix range the case-insensitive test is an exact one. */
  lemma {:induction false} MatchIgnoringCaseIsExact(w: string, p: string)
    requires p <= w && EqualsIgnoreCase(w, p)
    ensures w == p
  {
    assert w[..|p|] == p;
  }
}
