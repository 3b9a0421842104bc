/**
 First-occurrence-wins removal of structurally equal articles.

 `Deduplicated` is the specification: it processes the input left to right,
 with an accumulator, exactly as the app's filter does, and appends an
 element only if no equal one is already kept. `FilterForUniqueArticles` is
 the app's nested-loop algorithm, proved to compute it. The lemmas state what
 the result means: pairwise distinct, the same elements as the input, ordered
 by first occurrence (and uniquely determined by these three facts),
 idempotent, the identity on distinct input, and stable under appending.
 */
module Dedup {
  import opened Articles

  /** No two positions of `s` hold equal records. */
  predicate Distinct(s: seq<Article>)
  {
    forall i, j :: 0 <= i < j < |s| ==> s[i] != s[j]
  }

  /** The result of the filter on `s`. */
  function Deduplicated(s: seq<Article>): seq<Article>
  {
    if |s| == 0 then []
    else
      var kept := Deduplicated(s[..|s| - 1]);
      if s[|s| - 1] in kept then kept else kept + [s[|s| - 1]]
  }

  /** The position of the first occurrence of `x` in `s`. */
  function FirstIndex(s: seq<Article>, x: Article): (i: nat)
    requires x in s
    ensures i < |s| && s[i] == x
    ensures x !in s[..i]
  {
    if s[0] == x then 0
    else
      var i' := FirstIndex(s[1..], x);
      assert s[..i' + 1] == [s[0]] + s[1..][..i'];
      i' + 1
  }

  /** Appending to `s` does not move the first occurrence of an element of `s`. */
  lemma FirstIndexOfPrefix(s: seq<Article>, t: seq<Article>, x: Article)
    requires x in s
    ensures FirstIndex(s + t, x) == FirstIndex(s, x)
  {
    var i, j := FirstIndex(s + t, x), FirstIndex(s, x);
    assert (s + t)[j] == x;
  }

  /** The filter keeps every element of the input and invents none. */
  lemma {:induction false} DedupSameElements(s: seq<Article>)
    ensures forall x :: x in Deduplicated(s) <==> x in s
  {
    if |s| > 0 {
      var init := s[..|s| - 1];
      DedupSameElements(init);
      assert s == init + [s[|s| - 1]];
    }
  }

  /** The filter's output has no two structurally equal elements. */
  lemma {:induction false} DedupDistinct(s: seq<Article>)
    ensures Distinct(Deduplicated(s))
  {
    if |s| > 0 {
      DedupDistinct(s[..|s| - 1]);
    }
  }

  /** The filter's output lists the distinct records of the input in the order
      of their first occurrence. Together with DedupDistinct and
      DedupSameElements, this says the output is the subsequence of first
      occurrences: `s[FirstIndex(s, r[k])] == r[k]` at strictly increasing
      positions. */
  lemma {:induction false} DedupFirstOccurrenceOrder(s: seq<Article>)
    ensures forall x :: x in Deduplicated(s) ==> x in s
    ensures forall k1, k2 :: 0 <= k1 < k2 < |Deduplicated(s)| ==>
      FirstIndex(s, Deduplicated(s)[k1]) < FirstIndex(s, Deduplicated(s)[k2])
  {
    DedupSameElements(s);
    if |s| > 0 {
      var init, e := s[..|s| - 1], s[|s| - 1];
      var kept, r := Deduplicated(init), Deduplicated(s);
      assert s == init + [e];
      DedupFirstOccurrenceOrder(init);
      DedupSameElements(init);
      forall k | 0 <= k < |kept|
        ensures FirstIndex(s, r[k]) == FirstIndex(init, kept[k]) < |init|
      {
        FirstIndexOfPrefix(init, [e], kept[k]);
      }
      if e !in kept {
        assert FirstIndex(s, e) == |init|;
      }
    }
  }

  /** Ordered by first occurrence in `s`. */
  predicate OrderedByFirstIndex(s: seq<Article>, r: seq<Article>)
    requires forall x :: x in r ==> x in s
  {
    forall k1, k2 :: 0 <= k1 < k2 < |r| ==> FirstIndex(s, r[k1]) < FirstIndex(s, r[k2])
  }

  /** Of two sequences with the same elements, both ordered by first
      occurrence in `s`, the last elements agree. */
  lemma LastOfOrdered(s: seq<Article>, r1: seq<Article>, r2: seq<Article>)
    requires |r1| > 0 && |r2| > 0
    requires forall x :: x in r1 ==> x in s
    requires forall x :: x in r1 <==> x in r2
    requires OrderedByFirstIndex(s, r1) && OrderedByFirstIndex(s, r2)
    ensures r1[|r1| - 1] == r2[|r2| - 1]
  {
    var a, b := r1[|r1| - 1], r2[|r2| - 1];
    assert a in r1 && b in r2;
  }

  /** Dropping the last element of a distinct sequence removes exactly that
      element and keeps the order. */
  lemma DropLast(s: seq<Article>, r: seq<Article>)
    requires |r| > 0 && Distinct(r)
    requires forall x :: x in r ==> x in s
    requires OrderedByFirstIndex(s, r)
    ensures r == r[..|r| - 1] + [r[|r| - 1]]
    ensures Distinct(r[..|r| - 1])
    ensures forall x :: x in r[..|r| - 1] <==> x in r && x != r[|r| - 1]
    ensures OrderedByFirstIndex(s, r[..|r| - 1])
  {
    var p := r[..|r| - 1];
    assert r == p + [r[|r| - 1]];
    forall x | x in p ensures x != r[|r| - 1] {
      var i :| 0 <= i < |p| && p[i] == x;
      assert r[i] == x;
    }
  }

  /** Supplies the term `r[0]` so that the empty case of
      OrderedByFirstIndexUnique closes without an assertion in a dead branch. */
  lemma HeadIsElement(r: seq<Article>)
    requires |r| > 0
    ensures r[0] in r
  {
  }

  /** Two distinct sequences with the same elements, both ordered by first
      occurrence in `s`, are equal. */
  lemma {:induction false} OrderedByFirstIndexUnique(s: seq<Article>, r1: seq<Article>, r2: seq<Article>)
    requires Distinct(r1) && Distinct(r2)
    requires forall x :: x in r1 ==> x in s
    requires forall x :: x in r1 <==> x in r2
    requires OrderedByFirstIndex(s, r1) && OrderedByFirstIndex(s, r2)
    ensures r1 == r2
    decreases |r1|
  {
    if |r1| == 0 {
      if |r2| > 0 {
        HeadIsElement(r2);
      }
    } else {
      assert r1[0] in r1;
      assert |r2| > 0;
      LastOfOrdered(s, r1, r2);
      DropLast(s, r1);
      DropLast(s, r2);
      var p1, p2 := r1[..|r1| - 1], r2[..|r2| - 1];
      forall x ensures x in p1 <==> x in p2 {
        assert x in p1 <==> x in r1 && x != r1[|r1| - 1];
        assert x in p2 <==> x in r2 && x != r2[|r2| - 1];
      }
      OrderedByFirstIndexUnique(s, r1[..|r1| - 1], r2[..|r2| - 1]);
    }
  }

  /** Distinctness, the element set and first-occurrence order determine the
      filter's output completely: any sequence with those three properties
      is the filter's output. */
  lemma DedupCharacterized(s: seq<Article>, r: seq<Article>)
    requires Distinct(r)
    requires forall x :: x in r <==> x in s
    requires forall k1, k2 :: 0 <= k1 < k2 < |r| ==> FirstIndex(s, r[k1]) < FirstIndex(s, r[k2])
    ensures r == Deduplicated(s)
  {
    DedupDistinct(s);
    DedupSameElements(s);
    DedupFirstOccurrenceOrder(s);
    OrderedByFirstIndexUnique(s, r, Deduplicated(s));
  }

  /** On an input without duplicates the filter returns the input. */
  lemma {:induction false} DedupOfDistinct(s: seq<Article>)
    requires Distinct(s)
    ensures Deduplicated(s) == s
  {
    if |s| > 0 {
      var init := s[..|s| - 1];
      DedupOfDistinct(init);
      assert s == init + [s[|s| - 1]];
    }
  }

  /** Running the filter twice gives the same as running it once. */
  lemma {:induction false} DedupIdempotent(s: seq<Article>)
    ensures Deduplicated(Deduplicated(s)) == Deduplicated(s)
  {
    DedupDistinct(s);
    DedupOfDistinct(Deduplicated(s));
  }

  /** The output for `a` is a prefix of the output for `a + b`: records kept
      earlier are never dropped or moved by later input. */
  lemma {:induction false} DedupPrefix(a: seq<Article>, b: seq<Article>)
    ensures |Deduplicated(a)| <= |Deduplicated(a + b)|
    ensures Deduplicated(a + b)[..|Deduplicated(a)|] == Deduplicated(a)
  {
    if |b| == 0 {
      assert a + b == a;
    } else {
      var b' := b[..|b| - 1];
      DedupPrefix(a, b');
      assert (a + b)[..|a + b| - 1] == a + b';
    }
  }

  /** Input records already present earlier change nothing. */
  lemma {:induction false} DedupAppendCovered(a: seq<Article>, b: seq<Article>)
    requires forall x :: x in b ==> x in a
    ensures Deduplicated(a + b) == Deduplicated(a)
  {
    if |b| == 0 {
      assert a + b == a;
    } else {
      var b' := b[..|b| - 1];
      DedupAppendCovered(a, b');
      assert (a + b)[..|a + b| - 1] == a + b';
      DedupSameElements(a);
      assert b[|b| - 1] in b;
    }
  }

  /** A list followed by itself deduplicates to the list's deduplication. */
  lemma DedupDoubled(s: seq<Article>)
    ensures Deduplicated(s + s) == Deduplicated(s)
  {
    DedupAppendCovered(s, s);
  }

  /** Deduplicating a prefix first does not change the final result. */
  lemma {:induction false} DedupOfDedupPrefix(a: seq<Article>, b: seq<Article>)
    ensures Deduplicated(Deduplicated(a) + b) == Deduplicated(a + b)
  {
    if |b| == 0 {
      assert a + b == a;
      assert Deduplicated(a) + b == Deduplicated(a);
      DedupIdempotent(a);
    } else {
      var b' := b[..|b| - 1];
      DedupOfDedupPrefix(a, b');
      assert (a + b)[..|a + b| - 1] == a + b';
      assert (Deduplicated(a) + b)[..|Deduplicated(a) + b| - 1] == Deduplicated(a) + b';
      DedupSameElements(a + b');
      DedupSameElements(Deduplicated(a) + b');
    }
  }

  /** The app's filter: for each record, scan everything kept so far for an
      equal one (without stopping early), and keep the record if none was
      found. */
  method FilterForUniqueArticles(arr: seq<Article>) returns (cleaned: seq<Article>)
    ensures cleaned == Deduplicated(arr)
    ensures Distinct(cleaned)
    ensures forall x :: x in cleaned <==> x in arr
  {
    cleaned := [];
    var i := 0;
    while i < |arr|
      invariant 0 <= i <= |arr|
      invariant cleaned == Deduplicated(arr[..i])
    {
      var itm := arr[i];
      var unique := true;
      var j := 0;
      while j < |cleaned|
        invariant 0 <= j <= |cleaned|
        invariant unique <==> itm !in cleaned[..j]
      {
        var isEqual := itm == cleaned[j];
        if isEqual {
          unique := false;
        }
        assert cleaned[..j + 1] == cleaned[..j] + [cleaned[j]];
        j := j + 1;
      }
      assert cleaned[..j] == cleaned;
      if unique {
        cleaned := cleaned + [itm];
      }
      assert arr[..i + 1][..i] == arr[..i];
      i := i + 1;
    }
    assert arr[..i] == arr;
    DedupDistinct(arr);
    DedupSameElements(arr);
  }
}
