/** A prefix-completion index over an array of terms sorted once by word.

    Each query locates the contiguous block of terms whose word starts with
    the prefix by two binary searches under PrefixOrder, then ranks, scans or
    looks up inside that block. No query changes the index. */
module Autocomplete {
  import opened Terms

  datatype Option<T> = None | Some(value: T)

  /** The exceptions the source throws on its inputs. */
  datatype Error = IllegalArgument | IndexOutOfBounds(index: int)

  datatype Result<T> = Success(value: T) | Failure(error: Error)

  function Min(a: int, b: int): int
  {
    if a < b then a else b
  }

  /** The terms built from parallel word and weight sequences. */
  function Pairs(words: seq<string>, weights: seq<real>): seq<Term>
    requires |words| <= |weights|
  {
    seq(|words|, i requires 0 <= i < |words| => Term(words[i], weights[i]))
  }

  /** The words of a sequence of terms, in order. */
  function Words(ts: seq<Term>): seq<string>
  {
    seq(|ts|, i requires 0 <= i < |ts| => ts[i].word)
  }

  lemma WordsOfPair(a: Term, b: Term)
    ensures Words([a, b]) == [a.word, b.word]
  {
    var ws := Words([a, b]);
    assert |ws| == 2 && ws[0] == a.word && ws[1] == b.word;
  }

  /** The terms of s whose word starts with p, in store order. */
  function MatchesOf(s: seq<Term>, p: string): (ms: seq<Term>)
    ensures forall i :: 0 <= i < |ms| ==> Matches(ms[i], p)
    ensures |ms| <= |s|
  {
    if s == [] then []
    else
      assert s == [s[0]] + s[1..];
      (if Matches(s[0], p) then [s[0]] else []) + MatchesOf(s[1..], p)
  }

  /** When the matches of s are exactly the indices in [f, e), they are the
      slice s[f..e]. */
  lemma {:induction false} MatchesOfSlice(s: seq<Term>, p: string, f: nat, e: nat)
    requires f <= e <= |s|
    requires forall i :: 0 <= i < |s| ==> (f <= i < e <==> Matches(s[i], p))
    ensures MatchesOf(s, p) == s[f..e]
  {
    if s != [] {
      var t := s[1..];
      var f', e' := if f > 0 then f - 1 else 0, if e > 0 then e - 1 else 0;
      forall i | 0 <= i < |t|
        ensures f' <= i < e' <==> Matches(t[i], p)
      {
        assert t[i] == s[i + 1];
      }
      MatchesOfSlice(t, p, f', e');
      if f > 0 {
        assert t[f'..e'] == s[f..e];
      } else if e > 0 {
        assert s[0..e] == [s[0]] + t[0..e'];
      }
    }
  }

  /** A term is among the matches of p exactly when it is a term of s that
      starts with p. */
  lemma {:induction false} MatchesOfMembers(s: seq<Term>, p: string)
    ensures forall t :: t in MatchesOf(s, p) <==> t in s && Matches(t, p)
  {
    if s != [] {
      MatchesOfMembers(s[1..], p);
      assert s == [s[0]] + s[1..];
    }
  }

  /** The empty prefix matches every term. */
  lemma {:induction false} EmptyPrefixMatchesAll(s: seq<Term>)
    ensures MatchesOf(s, "") == s
  {
    MatchesOfSlice(s, "", 0, |s|);
  }

  /** f is what a leftmost search must return: -1 when cmp finds no element
      of s equivalent to key, else the first equivalent index. */
  ghost predicate IsFirstEquivalent(s: seq<Term>, key: Term, cmp: (Term, Term) -> int, f: int)
  {
    if f == -1 then forall i :: 0 <= i < |s| ==> cmp(s[i], key) != 0
    else 0 <= f < |s| && cmp(s[f], key) == 0 && forall i :: 0 <= i < f ==> cmp(s[i], key) != 0
  }

  /** l is what a rightmost search must return. */
  ghost predicate IsLastEquivalent(s: seq<Term>, key: Term, cmp: (Term, Term) -> int, l: int)
  {
    if l == -1 then forall i :: 0 <= i < |s| ==> cmp(s[i], key) != 0
    else 0 <= l < |s| && cmp(s[l], key) == 0 && forall i :: l < i < |s| ==> cmp(s[i], key) != 0
  }

  /** A store sorted by word can be searched under PrefixOrder(|p|). */
  lemma PrefixSearchable(s: seq<Term>, p: string)
    requires SortedBy(s, NaturalOrder())
    ensures IsComparator(PrefixOrder(|p|)) && SortedBy(s, PrefixOrder(|p|))
  {
    PrefixOrderIsComparator(|p|);
    SortedByWordIsPrefixSorted(s, |p|);
  }

  /** The leftmost and rightmost searches under PrefixOrder(|p|) with a key
      whose word is p delimit the match range of p: both are -1 and nothing
      matches, or [f, l] holds exactly the indices of the words that start
      with p. */
  lemma MatchRange(s: seq<Term>, p: string, f: int, l: int)
    requires SortedBy(s, NaturalOrder())
    requires IsFirstEquivalent(s, Term(p, 0.0), PrefixOrder(|p|), f)
    requires IsLastEquivalent(s, Term(p, 0.0), PrefixOrder(|p|), l)
    ensures f == -1 <==> l == -1
    ensures f == -1 ==> forall i :: 0 <= i < |s| ==> !Matches(s[i], p)
    ensures f != -1 ==> 0 <= f <= l < |s|
    ensures f != -1 ==> forall i :: 0 <= i < |s| ==> (f <= i <= l <==> Matches(s[i], p))
  {
    PrefixKeyEquivalence(p, 0.0);
    if f != -1 {
      MatchesContiguous(s, p, f, l);
    }
  }

  /** For the empty prefix the two searches return the whole store, or -1
      on an empty store. */
  lemma EmptyPrefixRange(s: seq<Term>, f: int, l: int)
    requires SortedBy(s, NaturalOrder())
    requires IsFirstEquivalent(s, Term("", 0.0), PrefixOrder(0), f)
    requires IsLastEquivalent(s, Term("", 0.0), PrefixOrder(0), l)
    ensures |s| == 0 ==> f == -1 && l == -1
    ensures |s| > 0 ==> f == 0 && l == |s| - 1
  {
    MatchRange(s, "", f, l);
    if |s| > 0 {
      assert Matches(s[0], "") && Matches(s[|s| - 1], "");
    }
  }

  /** sel is a valid answer to "the k heaviest of ms in descending weight":
      it takes min(k, |ms|) of the terms of ms, in non-increasing weight, and
      no term of ms it leaves out is heavier than one it takes. */
  ghost predicate IsTopSelection(sel: seq<Term>, ms: seq<Term>, k: int)
  {
    && |sel| == Min(k, |ms|)
    && multiset(sel) <= multiset(ms)
    && (forall i, j :: 0 <= i < j < |sel| ==> sel[i].weight >= sel[j].weight)
    && (forall t, u :: t in multiset(ms) - multiset(sel) && u in sel ==> t.weight <= u.weight)
  }

  /** Sorting by descending weight and keeping the first min(k, m) terms is
      a valid top-k selection. */
  lemma SortedPrefixIsTopSelection(sorted: seq<Term>, ms: seq<Term>, k: int)
    requires 0 <= k
    requires multiset(sorted) == multiset(ms)
    requires SortedBy(sorted, ReverseWeightOrder())
    ensures IsTopSelection(sorted[..Min(k, |sorted|)], ms, k)
  {
    var n := Min(k, |sorted|);
    var sel, rest := sorted[..n], sorted[n..];
    assert |ms| == |sorted| by {
      assert |multiset(ms)| == |multiset(sorted)|;
    }
    LeftOutIsRest(sorted, ms, n);
    LeftOutIsLighter(sorted, n);
    forall i, j | 0 <= i < j < |sel|
      ensures sel[i].weight >= sel[j].weight
    {
      assert InOrder(ReverseWeightOrder(), sorted[i], sorted[j]);
    }
  }

  /** In a sequence sorted by descending weight, nothing after position n
      is heavier than anything before it. */
  lemma LeftOutIsLighter(sorted: seq<Term>, n: nat)
    requires SortedBy(sorted, ReverseWeightOrder()) && n <= |sorted|
    ensures forall t, u :: t in multiset(sorted[n..]) && u in sorted[..n] ==> t.weight <= u.weight
  {
    forall t, u | t in multiset(sorted[n..]) && u in sorted[..n]
      ensures t.weight <= u.weight
    {
      var a :| n <= a < |sorted| && sorted[a] == t;
      var b :| 0 <= b < n && sorted[b] == u;
      assert InOrder(ReverseWeightOrder(), sorted[b], sorted[a]);
    }
  }

  /** The words topMatches returns, the first min(k, m) words of the
      matches sorted by descending weight, are all words that start with p,
      and form a valid top-k selection. */
  lemma HeaviestFirstIsTopSelection(sorted: seq<Term>, ms: seq<Term>, p: string, k: int)
    requires 0 <= k
    requires multiset(sorted) == multiset(ms)
    requires SortedBy(sorted, ReverseWeightOrder())
    requires forall i :: 0 <= i < |ms| ==> Matches(ms[i], p)
    ensures var ws := Words(sorted[..Min(k, |sorted|)]);
      && |ws| == Min(k, |ms|)
      && (forall i :: 0 <= i < |ws| ==> p <= ws[i])
      && exists sel :: IsTopSelection(sel, ms, k) && ws == Words(sel)
  {
    var sel := sorted[..Min(k, |sorted|)];
    SortedPrefixIsTopSelection(sorted, ms, k);
    forall i | 0 <= i < |sel|
      ensures p <= sel[i].word
    {
      assert sel[i] in multiset(ms);
    }
  }

  /** ws is a valid topMatches answer for prefix p and limit k over the
      store s: min(k, m) words for the m terms of s that match p, each
      starting with p, the words of a valid top-k selection of the matches. */
  ghost predicate IsTopMatchesAnswer(s: seq<Term>, p: string, k: int, ws: seq<string>)
  {
    && |ws| == Min(k, |MatchesOf(s, p)|)
    && (forall i :: 0 <= i < |ws| ==> p <= ws[i])
    && exists sel :: IsTopSelection(sel, MatchesOf(s, p), k) && ws == Words(sel)
  }

  /** The answer topMatches builds from the match range [f, l] of s: the
      range copied out and sorted by descending weight, cut to k words. */
  lemma RangeHeaviestFirstIsTopSelection(s: seq<Term>, p: string, f: int, l: int, sorted: seq<Term>, k: int)
    requires 0 <= k && 0 <= f <= l < |s|
    requires forall i :: 0 <= i < |s| ==> (f <= i <= l <==> Matches(s[i], p))
    requires multiset(sorted) == multiset(s[f..l + 1])
    requires SortedBy(sorted, ReverseWeightOrder())
    ensures IsTopMatchesAnswer(s, p, k, Words(sorted[..Min(k, |sorted|)]))
  {
    MatchesOfSlice(s, p, f, l + 1);
    HeaviestFirstIsTopSelection(sorted, MatchesOf(s, p), p, k);
  }

  /** With no match, the empty answer is the only valid top-k selection. */
  lemma NoMatchesSelectNothing(s: seq<Term>, p: string, k: int)
    requires 0 <= k
    requires forall i :: 0 <= i < |s| ==> !Matches(s[i], p)
    ensures MatchesOf(s, p) == []
    ensures IsTopSelection([], MatchesOf(s, p), k) && Words([]) == []
    ensures forall sel :: IsTopSelection(sel, MatchesOf(s, p), k) ==> sel == []
  {
    MatchesOfSlice(s, p, 0, 0);
  }

  /** What a first-n cut of a permutation of ms leaves out of ms is the rest
      of the cut sequence. */
  lemma LeftOutIsRest(sorted: seq<Term>, ms: seq<Term>, n: nat)
    requires multiset(sorted) == multiset(ms) && n <= |sorted|
    ensures multiset(sorted[..n]) <= multiset(ms)
    ensures multiset(ms) - multiset(sorted[..n]) == multiset(sorted[n..])
  {
    assert sorted == sorted[..n] + sorted[n..];
  }

  /** Any one-term top selection of a non-empty ms is a heaviest term of ms,
      so topMatch and the first result of topMatches agree on the weight. */
  lemma TopOfOneIsHeaviest(sel: seq<Term>, ms: seq<Term>)
    requires |ms| > 0 && IsTopSelection(sel, ms, 1)
    ensures |sel| == 1
    ensures sel[0] in ms
    ensures forall t :: t in ms ==> t.weight <= sel[0].weight
  {
    assert sel[0] in multiset(sel);
    forall t | t in ms
      ensures t.weight <= sel[0].weight
    {
      if t !in multiset(ms) - multiset(sel) {
        assert t in multiset(sel);
      } else {
        assert sel[0] in sel;
      }
    }
  }

  /** i is the first index of a heaviest term starting with p: no matching
      term is heavier, and every earlier matching term is strictly lighter. */
  ghost predicate IsHeaviestMatch(s: seq<Term>, p: string, i: int)
  {
    && 0 <= i < |s| && Matches(s[i], p)
    && (forall j :: 0 <= j < |s| && Matches(s[j], p) ==> s[j].weight <= s[i].weight)
    && (forall j :: 0 <= j < i && Matches(s[j], p) ==> s[j].weight < s[i].weight)
  }

  /** topMatches(p, 1) and topMatch(p) agree: when the store has a heaviest
      match at i, any valid one-word topMatches answer is the word of a
      matching store term exactly as heavy as the term topMatch returns. */
  lemma TopOneAgrees(s: seq<Term>, p: string, ws: seq<string>, i: int)
    requires IsTopMatchesAnswer(s, p, 1, ws) && IsHeaviestMatch(s, p, i)
    ensures |ws| == 1
    ensures exists t :: t in s && Matches(t, p) && t.word == ws[0] && t.weight == s[i].weight
  {
    var ms := MatchesOf(s, p);
    MatchesOfMembers(s, p);
    assert s[i] in ms;
    var sel :| IsTopSelection(sel, ms, 1) && ws == Words(sel);
    TopOfOneIsHeaviest(sel, ms);
    var t := sel[0];
    assert t in s && Matches(t, p);
    var j :| 0 <= j < |s| && s[j] == t;
    assert t.word == ws[0] && t.weight == s[i].weight;
  }

  /** The store {air:3, bat:2, bell:4, boy:1} of the source's own examples,
      sorted by word. */
  function ExampleStore(): seq<Term>
  {
    [Term("air", 3.0), Term("bat", 2.0), Term("bell", 4.0), Term("boy", 1.0)]
  }

  /** The documented answer topMatches("b", 2) == ["bell", "bat"] on the
      example store. */
  lemma DocumentedTopMatchesB()
    ensures IsTopMatchesAnswer(ExampleStore(), "b", 2, ["bell", "bat"])
  {
    var s := ExampleStore();
    assert s[0].word[0] == 'a' && !Matches(s[0], "b");
    assert Matches(s[1], "b") && Matches(s[2], "b") && Matches(s[3], "b");
    var sorted := [s[2], s[1], s[3]];
    assert multiset(sorted) == multiset(s[1..4]) by {
      assert s[1..4] == [s[1], s[2], s[3]];
    }
    assert SortedBy(sorted, ReverseWeightOrder()) by {
      forall i, j | 0 <= i < j < 3
        ensures InOrder(ReverseWeightOrder(), sorted[i], sorted[j])
      {
      }
    }
    RangeHeaviestFirstIsTopSelection(s, "b", 1, 3, sorted, 2);
    assert sorted[..2] == [s[2], s[1]];
    WordsOfPair(s[2], s[1]);
    assert [s[2].word, s[1].word] == ["bell", "bat"];
  }

  /** The documented answer topMatch("b") == "bell" on the example store:
      bell, at index 2, is the first heaviest match. */
  lemma DocumentedTopMatchB()
    ensures IsHeaviestMatch(ExampleStore(), "b", 2) && ExampleStore()[2].word == "bell"
  {
    var s := ExampleStore();
    assert s[0].word[0] == 'a' && !Matches(s[0], "b");
    assert Matches(s[2], "b");
  }

  /** The documented answer topMatches("a", 2) == ["air"] on the example
      store: fewer than k matches gives all of them. */
  lemma DocumentedTopMatchesA()
    ensures IsTopMatchesAnswer(ExampleStore(), "a", 2, ["air"])
  {
    var s := ExampleStore();
    assert Matches(s[0], "a");
    forall i | 1 <= i < 4
      ensures !Matches(s[i], "a")
    {
      assert s[i].word[0] == 'b';
    }
    MatchesOfSlice(s, "a", 0, 1);
    var ma := MatchesOf(s, "a");
    assert IsTopSelection(ma, ma, 2) && Words(ma) == ["air"];
  }

  /** The weight of the first term of s whose word is w, or 0.0 when no
      term has that word: a linear scan of the whole store. */
  function ExactWeight(s: seq<Term>, w: string): (r: real)
    ensures (forall i :: 0 <= i < |s| ==> s[i].word != w) ==> r == 0.0
    ensures forall i :: 0 <= i < |s| && s[i].word == w && (forall j :: 0 <= j < i ==> s[j].word != w) ==>
              r == s[i].weight
  {
    if s == [] then 0.0
    else if s[0].word == w then s[0].weight
    else ExactWeight(s[1..], w)
  }

  /** Terms before the first one with word w do not affect the lookup. */
  lemma {:induction false} ExactWeightSkip(s: seq<Term>, w: string, i: nat)
    requires i <= |s|
    requires forall j :: 0 <= j < i ==> s[j].word != w
    ensures ExactWeight(s, w) == ExactWeight(s[i..], w)
  {
    if i > 0 {
      ExactWeightSkip(s[1..], w, i - 1);
      assert s[1..][i - 1..] == s[i..];
    }
  }

  /** The example store is sorted by word. No word in it starts with "cat",
      so WeightOfAsWritten fails on "cat" with IndexOutOfBounds(-1), where
      the documented answer for a missing word, ExactWeight, is 0.0. */
  lemma MissingWordExample()
    ensures var s := ExampleStore();
      && SortedBy(s, NaturalOrder())
      && (forall i :: 0 <= i < |s| ==> !Matches(s[i], "cat"))
      && ExactWeight(s, "cat") == 0.0
  {
    var s := ExampleStore();
    NaturalOrderIsComparator();
    assert InOrder(NaturalOrder(), s[0], s[1]);
    assert InOrder(NaturalOrder(), s[1], s[2]);
    assert InOrder(NaturalOrder(), s[2], s[3]);
    forall i, j | 0 <= i < j < |s|
      ensures InOrder(NaturalOrder(), s[i], s[j])
    {
      if j - i == 2 {
        assert Chains(NaturalOrder(), s[i], s[i + 1], s[j]);
      } else if j - i == 3 {
        assert Chains(NaturalOrder(), s[0], s[1], s[2]);
        assert Chains(NaturalOrder(), s[0], s[2], s[3]);
      }
    }
    forall i | 0 <= i < |s|
      ensures !Matches(s[i], "cat")
    {
      assert s[i].word[0] != 'c';
    }
  }

  /** Sorts a in place under cmp: the library sorts Arrays.sort and
      Collections.sort, specified by their result (sorted, a permutation). */
  method Sort(a: array<Term>, cmp: (Term, Term) -> int)
    requires IsComparator(cmp)
    modifies a
    ensures SortedBy(a[..], cmp)
    ensures multiset(a[..]) == old(multiset(a[..]))
  {
    var i := 0;
    while i < a.Length
      invariant 0 <= i <= a.Length
      invariant forall x, y :: 0 <= x < y < i ==> InOrder(cmp, a[x], a[y])
      invariant multiset(a[..]) == old(multiset(a[..]))
    {
      var j := i;
      while 0 < j && cmp(a[j - 1], a[j]) > 0
        invariant 0 <= j <= i
        invariant forall x, y :: 0 <= x < y <= i && y != j ==> InOrder(cmp, a[x], a[y])
        invariant multiset(a[..]) == old(multiset(a[..]))
      {
        assert Flips(cmp, a[j - 1], a[j]);
        ghost var b := a[..];
        a[j - 1], a[j] := a[j], a[j - 1];
        assert a[..] == b[j - 1 := b[j]][j := b[j - 1]];
        j := j - 1;
      }
      forall x | 0 <= x < j - 1
        ensures InOrder(cmp, a[x], a[j])
      {
        assert Chains(cmp, a[x], a[j - 1], a[j]);
      }
      i := i + 1;
    }
    forall x, y | 0 <= x < y < a.Length
      ensures InOrder(cmp, a[..][x], a[..][y])
    {
      assert InOrder(cmp, a[x], a[y]);
    }
  }

  class BinarySearchAutocomplete {
    var myTerms: array<Term>

    /** The store is sorted by word. */
    ghost predicate Valid()
      reads this, myTerms
    {
      SortedBy(myTerms[..], NaturalOrder())
    }

    /** Builds the store from parallel word and weight arrays and sorts it.
        Only the first terms.Length weights are used. */
    constructor (terms: array<string>, weights: array<real>)
      requires terms.Length <= weights.Length
      ensures Valid() && fresh(myTerms)
      ensures myTerms.Length == terms.Length
      ensures multiset(myTerms[..]) == multiset(Pairs(terms[..], weights[..]))
    {
      var store := new Term[terms.Length];
      var i := 0;
      while i < terms.Length
        invariant 0 <= i <= terms.Length
        invariant forall j :: 0 <= j < i ==> store[j] == Term(terms[j], weights[j])
      {
        store[i] := Term(terms[i], weights[i]);
        i := i + 1;
      }
      assert store[..] == Pairs(terms[..], weights[..]);
      NaturalOrderIsComparator();
      Sort(store, NaturalOrder());
      myTerms := store;
    }

    /** The constructor on any pair of arrays: Java fails with an
        out-of-bounds exception at index weights.Length when weights is
        shorter than terms, and otherwise builds the index. */
    static method Create(terms: array<string>, weights: array<real>) returns (r: Result<BinarySearchAutocomplete>)
      ensures r.Failure? <==> terms.Length > weights.Length
      ensures r.Failure? ==> r.error == IndexOutOfBounds(weights.Length)
      ensures r.Success? ==> fresh(r.value) && fresh(r.value.myTerms) && r.value.Valid()
      ensures r.Success? ==> multiset(r.value.myTerms[..]) == multiset(Pairs(terms[..], weights[..]))
    {
      if terms.Length > weights.Length {
        return Failure(IndexOutOfBounds(weights.Length));
      }
      var index := new BinarySearchAutocomplete(terms, weights);
      return Success(index);
    }

    /** The first index of a that cmp considers equivalent to key, or -1. */
    static method FirstIndexOf(a: array<Term>, key: Term, cmp: (Term, Term) -> int) returns (index: int)
      requires IsComparator(cmp) && SortedBy(a[..], cmp)
      ensures IsFirstEquivalent(a[..], key, cmp, index)
    {
      if a.Length == 0 {
        return -1;
      }
      SortedIsSortedAgainstKey(a[..], key, cmp);
      var low := -1;
      var high := a.Length - 1;
      while high - low > 1
        invariant -1 <= low < high <= a.Length - 1
        invariant forall i :: 0 <= i <= low ==> cmp(a[i], key) < 0
        invariant high == a.Length - 1 || cmp(a[high], key) >= 0
      {
        if low > high {
          break;
        }
        var mid := (low + high) / 2;
        var c := cmp(a[mid], key);
        if c == 0 {
          high := mid;
        } else if c < 0 {
          low := mid;
        } else if c > 0 {
          high := mid;
        }
      }
      if cmp(a[high], key) == 0 {
        return high;
      } else {
        return -1;
      }
    }

    /** The last index of a that cmp considers equivalent to key, or -1. */
    static method LastIndexOf(a: array<Term>, key: Term, cmp: (Term, Term) -> int) returns (index: int)
      requires IsComparator(cmp) && SortedBy(a[..], cmp)
      ensures IsLastEquivalent(a[..], key, cmp, index)
    {
      if a.Length == 0 {
        return -1;
      }
      SortedIsSortedAgainstKey(a[..], key, cmp);
      var low := 0;
      var high := a.Length;
      while high - low > 1
        invariant 0 <= low < high <= a.Length
        invariant forall i :: high <= i < a.Length ==> cmp(a[i], key) > 0
        invariant low == 0 || cmp(a[low], key) <= 0
      {
        if low > high {
          break;
        }
        var mid := (low + high) / 2;
        var c := cmp(a[mid], key);
        if c == 0 {
          low := mid;
        } else if c < 0 {
          low := mid;
        } else if c > 0 {
          high := mid;
        }
      }
      if cmp(a[low], key) == 0 {
        return low;
      } else {
        return -1;
      }
    }

    /** The match range of prefix, as every query computes it: the two
        searches under PrefixOrder(|prefix|) with a key whose word is
        prefix. Both are -1 when no word starts with prefix; otherwise
        [firstIndex, lastIndex] holds exactly the words that do. */
    method MatchRangeOf(prefix: string) returns (firstIndex: int, lastIndex: int)
      requires Valid()
      ensures firstIndex == -1 <==> lastIndex == -1
      ensures firstIndex == -1 ==> forall i :: 0 <= i < myTerms.Length ==> !Matches(myTerms[i], prefix)
      ensures firstIndex != -1 ==> 0 <= firstIndex <= lastIndex < myTerms.Length
      ensures firstIndex != -1 ==> forall i :: 0 <= i < myTerms.Length ==>
                (firstIndex <= i <= lastIndex <==> Matches(myTerms[i], prefix))
    {
      PrefixSearchable(myTerms[..], prefix);
      firstIndex := FirstIndexOf(myTerms, Term(prefix, 0.0), PrefixOrder(|prefix|));
      lastIndex := LastIndexOf(myTerms, Term(prefix, 0.0), PrefixOrder(|prefix|));
      MatchRange(myTerms[..], prefix, firstIndex, lastIndex);
    }

    /** The k heaviest words that start with prefix, heaviest first; all
        of them when fewer than k match; none when nothing matches. A
        negative k is an illegal argument. */
    method TopMatches(prefix: string, k: int) returns (result: Result<seq<string>>)
      requires Valid()
      ensures result.Failure? <==> k < 0
      ensures result.Failure? ==> result.error == IllegalArgument
      ensures result.Success? ==> IsTopMatchesAnswer(myTerms[..], prefix, k, result.value)
    {
      if k < 0 {
        return Failure(IllegalArgument);
      }
      var firstIndex, lastIndex := MatchRangeOf(prefix);

      if firstIndex == -1 || lastIndex == -1 {
        NoMatchesSelectNothing(myTerms[..], prefix, k);
        return Success([]);
      }

      ghost var store := myTerms[..];
      var arr := new Term[lastIndex - firstIndex + 1];
      var i := firstIndex;
      while i <= lastIndex
        invariant firstIndex <= i <= lastIndex + 1
        invariant forall j :: firstIndex <= j < i ==> arr[j - firstIndex] == store[j]
      {
        arr[i - firstIndex] := myTerms[i];
        i := i + 1;
      }
      assert arr[..] == store[firstIndex..lastIndex + 1];

      ReverseWeightOrderIsComparator();
      Sort(arr, ReverseWeightOrder());

      var fin: seq<string> := [];
      var numResults := Min(k, arr.Length);
      i := 0;
      while i < numResults
        invariant 0 <= i <= numResults
        invariant |fin| == i && forall j :: 0 <= j < i ==> fin[j] == arr[j].word
      {
        fin := fin + [arr[i].word];
        i := i + 1;
      }
      assert fin == Words(arr[..numResults]);
      RangeHeaviestFirstIsTopSelection(store, prefix, firstIndex, lastIndex, arr[..], k);
      return Success(fin);
    }

    /** The heaviest word that starts with prefix, the first of them in the
        store on a tie, or "" when no word starts with prefix. */
    method TopMatch(prefix: string) returns (word: string)
      requires Valid()
      ensures (forall i :: 0 <= i < myTerms.Length ==> !Matches(myTerms[i], prefix)) ==> word == ""
      ensures (exists i :: 0 <= i < myTerms.Length && Matches(myTerms[i], prefix)) ==>
                exists i :: IsHeaviestMatch(myTerms[..], prefix, i) && word == myTerms[i].word
    {
      var firstIndex, lastIndex := MatchRangeOf(prefix);

      if firstIndex == -1 || lastIndex == -1 {
        return "";
      }

      // The one-slot priority queue: the heaviest term seen so far.
      var best: Option<Term> := None;
      ghost var at := -1;
      var i := firstIndex;
      while i <= lastIndex
        invariant firstIndex <= i <= lastIndex + 1
        invariant best.None? <==> i == firstIndex
        invariant best.Some? ==> firstIndex <= at < i && best.value == myTerms[at]
        invariant best.Some? ==> forall j :: firstIndex <= j < i ==> myTerms[j].weight <= best.value.weight
        invariant best.Some? ==> forall j :: firstIndex <= j < at ==> myTerms[j].weight < best.value.weight
      {
        if best.None? {
          best, at := Some(myTerms[i]), i;
        } else if best.value.weight < myTerms[i].weight {
          best, at := Some(myTerms[i]), i;
        }
        i := i + 1;
      }
      assert IsHeaviestMatch(myTerms[..], prefix, at);
      return best.value.word;
    }

    /** The weight of the term whose word is term, or 0.0 when the store has
        no such word. The scan of the range is guarded by the not-found
        check that TopMatches and TopMatch make. */
    method WeightOf(term: string) returns (weight: real)
      requires Valid()
      ensures weight == ExactWeight(myTerms[..], term)
    {
      var firstIndex, lastIndex := MatchRangeOf(term);

      if firstIndex == -1 || lastIndex == -1 {
        ExactWeightSkip(myTerms[..], term, myTerms.Length);
        return 0.0;
      }
      var i := firstIndex;
      while i <= lastIndex
        invariant firstIndex <= i <= lastIndex + 1
        invariant forall j :: 0 <= j < i ==> myTerms[j].word != term
      {
        if EqualsIgnoreCase(myTerms[i].word, term) {
          MatchIgnoringCaseIsExact(myTerms[i].word, term);
          ExactWeightSkip(myTerms[..], term, i);
          assert myTerms[..][i..][0] == myTerms[i];
          return myTerms[i].weight;
        }
        i := i + 1;
      }
      ExactWeightSkip(myTerms[..], term, myTerms.Length);
      return 0.0;
    }

    /** weightOf as the source writes it: the scan of the range has no
        not-found guard, so with firstIndex == lastIndex == -1 it reads
        index -1, which Java rejects with an out-of-bounds exception. Every
        array read of the scan is bounds-checked here as Java checks it. */
    method WeightOfAsWritten(term: string) returns (result: Result<real>)
      requires Valid()
      ensures result.Failure? <==> forall i :: 0 <= i < myTerms.Length ==> !Matches(myTerms[i], term)
      ensures result.Failure? ==> result.error == IndexOutOfBounds(-1)
      ensures result.Success? ==> result.value == ExactWeight(myTerms[..], term)
    {
      var firstIndex, lastIndex := MatchRangeOf(term);

      if firstIndex != -1 {
        assert Matches(myTerms[firstIndex], term);
      }
      var i := firstIndex;
      while i <= lastIndex
        invariant firstIndex == -1 ==> i == -1
        invariant firstIndex != -1 ==> firstIndex <= i <= lastIndex + 1
        invariant forall j :: 0 <= j < i ==> myTerms[j].word != term
      {
        if !(0 <= i < myTerms.Length) {
          return Failure(IndexOutOfBounds(i));
        }
        if EqualsIgnoreCase(myTerms[i].word, term) {
          MatchIgnoringCaseIsExact(myTerms[i].word, term);
          ExactWeightSkip(myTerms[..], term, i);
          assert myTerms[..][i..][0] == myTerms[i];
          return Success(myTerms[i].weight);
        }
        i := i + 1;
      }
      ExactWeightSkip(myTerms[..], term, myTerms.Length);
      return Success(0.0);
    }
  }
}
