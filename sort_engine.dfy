/** The sort engine (merge, MergeSort and MergeSortWrapper in main.cpp): a top-down merge
    sort over a vector of strings, in place, under a comparator passed in, as the source
    passes an `IStringComparer*`. Index bounds are inclusive, as in the source, where
    `upper` is the low index and `lower` the high one; here they are `lo` and `hi`.

    `Merged` and `MergeSorted` are the pure specification of what the in-place methods
    leave in the array; the lemmas prove that specification sorted, a permutation of its
    input, and the only sorted permutation, for any comparator that is a placement order
    (which each of the three sort types is). */
module SortEngine {
  import opened Comparators

  /** IsFirstAboveSecond of some comparator. The engine is written for any element type;
      the source sorts strings. */
  type Comparer<!T> = (T, T) -> bool

  /** The comparator MergeSortWrapper allocates for a sort type. */
  function ComparerFor(t: SortType): Comparer<string>
  {
    (a: string, b: string) => Above(t, a, b)
  }

  /** Equal, or placed first. */
  ghost predicate LeBy<T>(above: Comparer<T>, a: T, b: T)
  {
    a == b || above(a, b)
  }

  /** Two different elements are never each placed before the other. */
  ghost predicate Antisymmetric<T(!new)>(above: Comparer<T>)
  {
    forall a, b :: above(a, b) && above(b, a) ==> a == b
  }

  /** What merge sort needs of a comparator: a false answer means the pair is in order
      the other way round, two different strings are never each placed first, and
      "equal or placed first" is transitive. */
  ghost predicate PlacementOrder<T(!new)>(above: Comparer<T>)
  {
    && (forall a, b :: !above(a, b) ==> LeBy(above, b, a))
    && Antisymmetric(above)
    && (forall a, b, c :: LeBy(above, a, b) && LeBy(above, b, c) ==> LeBy(above, a, c))
  }

  /** Every element is placed no later than every element after it. */
  ghost predicate IsSorted<T>(above: Comparer<T>, s: seq<T>)
  {
    forall i, j :: 0 <= i < j < |s| ==> LeBy(above, s[i], s[j])
  }

  /** The interleaving merge's loops produce: take the first half's front element when
      the comparator places it above the second half's, otherwise the second's; once
      one half is exhausted, the rest of the other. */
  function Merged<T>(above: Comparer<T>, xs: seq<T>, ys: seq<T>): seq<T>
    decreases |xs| + |ys|
  {
    if |xs| == 0 then ys
    else if |ys| == 0 then xs
    else if above(xs[0], ys[0]) then [xs[0]] + Merged(above, xs[1..], ys)
    else [ys[0]] + Merged(above, xs, ys[1..])
  }

  /** What MergeSort leaves in a range holding `s`: split after `mid`, where
      `mid - lo == (hi - lo) / 2`, sort both halves, merge. */
  function MergeSorted<T>(above: Comparer<T>, s: seq<T>): seq<T>
    decreases |s|
  {
    if |s| <= 1 then s
    else
      var m := (|s| - 1) / 2 + 1;
      Merged(above, MergeSorted(above, s[..m]), MergeSorted(above, s[m..]))
  }

  /** `s` with its stretch s[lo..hi] replaced by `x`. */
  function Spliced<T>(s: seq<T>, lo: int, hi: int, x: seq<T>): seq<T>
    requires 0 <= lo <= hi + 1 <= |s|
  {
    s[..lo] + x + s[hi + 1..]
  }

  /** The vector merge(lo, mid, hi) leaves behind when it holds `s`. */
  function MergedRange<T>(above: Comparer<T>, s: seq<T>, lo: int, mid: int, hi: int): seq<T>
    requires 0 <= lo <= mid + 1 <= hi + 1 <= |s|
  {
    Spliced(s, lo, hi, Merged(above, s[lo..mid + 1], s[mid + 1..hi + 1]))
  }

  /** The vector MergeSort(lo, hi) leaves behind when it holds `s`: the range sorted, the
      rest as it was; a range of at most one element, or an empty one, unchanged. */
  function SortedRange<T>(above: Comparer<T>, s: seq<T>, lo: int, hi: int): seq<T>
    requires lo < hi ==> 0 <= lo && hi < |s|
  {
    if lo < hi then Spliced(s, lo, hi, MergeSorted(above, s[lo..hi + 1])) else s
  }

  /** Each of the three comparators is a placement order. */
  lemma ComparerIsPlacementOrder(t: SortType)
    ensures PlacementOrder(ComparerFor(t))
  {
    var above := ComparerFor(t);
    forall a, b | !above(a, b)
      ensures LeBy(above, b, a)
    {
      NotAboveGivesLe(t, a, b);
    }
    forall a, b | above(a, b) && above(b, a)
      ensures a == b
    {
      AboveTiesOnlyEqual(t, a, b);
    }
    forall a, b, c | LeBy(above, a, b) && LeBy(above, b, c)
      ensures LeBy(above, a, c)
    {
      LeTransitive(t, a, b, c);
    }
  }

  // ---------------------------------------------------------------------------------
  // The in-place algorithm
  // ---------------------------------------------------------------------------------

  /** Whether merge's next element comes from the first half when i elements of it and
      j of the second have been written: the first half is not exhausted, and either the
      second is or the comparator places the first half's element above the second's. */
  predicate TakesFirst<T>(above: Comparer<T>, xs: seq<T>, ys: seq<T>, i: nat, j: nat)
  {
    i < |xs| && (j >= |ys| || above(xs[i], ys[j]))
  }

  /** The cursor pairs (i, j) merge's loops pass through, from (0, 0), one element
      written per step. */
  predicate Reached<T>(above: Comparer<T>, xs: seq<T>, ys: seq<T>, i: nat, j: nat)
    decreases i + j
  {
    if i == 0 && j == 0 then true
    else
      (i > 0 && TakesFirst(above, xs, ys, i - 1, j) && Reached(above, xs, ys, i - 1, j))
      || (j > 0 && !TakesFirst(above, xs, ys, i, j - 1) && Reached(above, xs, ys, i, j - 1))
  }

  /** merge: copy a[lo..mid] and a[mid+1..hi] into two temporaries, then interleave them
      back into a[lo..hi]. Nothing outside a[lo..hi] moves. */
  method Merge<T(0)>(a: array<T>, lo: int, mid: int, hi: int, above: Comparer<T>)
    requires 0 <= lo <= mid + 1 <= hi + 1 <= a.Length
    modifies a
    ensures a[..] == MergedRange(above, old(a[..]), lo, mid, hi)
  {
    ghost var s := a[..];
    var upperSize := mid - lo + 1;
    var lowerSize := hi - mid;
    var upArray := new T[upperSize];
    var lowArray := new T[lowerSize];

    for i := 0 to upperSize
      modifies upArray
      invariant forall p :: 0 <= p < i ==> upArray[p] == a[lo + p]
    {
      upArray[i] := a[lo + i];
    }
    for j := 0 to lowerSize
      modifies lowArray
      invariant forall p :: 0 <= p < j ==> lowArray[p] == a[mid + 1 + p]
    {
      lowArray[j] := a[mid + 1 + j];
    }
    assert upArray[..] == s[lo..mid + 1] && lowArray[..] == s[mid + 1..hi + 1];
    MergeBack(a, lo, mid, hi, upArray[..], lowArray[..], above);
    SplicedFromParts(s, a[..], lo, hi, Merged(above, s[lo..mid + 1], s[mid + 1..hi + 1]));
  }

  /** The interleaving part of merge: the cursors i, j and k walk the two temporaries
      and the range; the first loop compares, the other two copy whichever temporary is
      left over. */
  method MergeBack<T>(a: array<T>, lo: int, mid: int, hi: int, upArray: seq<T>, lowArray: seq<T>, above: Comparer<T>)
    requires 0 <= lo <= mid + 1 <= hi + 1 <= a.Length
    requires |upArray| == mid - lo + 1 && |lowArray| == hi - mid
    modifies a
    ensures a[lo..hi + 1] == Merged(above, upArray, lowArray)
    ensures forall p :: 0 <= p < a.Length && !(lo <= p <= hi) ==> a[p] == old(a[p])
  {
    var upperSize, lowerSize := |upArray|, |lowArray|;
    ghost var merged := Merged(above, upArray, lowArray);
    MergedLength(above, upArray, lowArray);
    var i, j, k := 0, 0, lo;
    while i < upperSize && j < lowerSize
      modifies a
      invariant 0 <= i <= upperSize && 0 <= j <= lowerSize && k == lo + i + j
      invariant Reached(above, upArray, lowArray, i, j)
      invariant forall p :: lo <= p < k ==> a[p] == merged[p - lo]
      invariant forall p :: 0 <= p < a.Length && !(lo <= p <= hi) ==> a[p] == old(a[p])
    {
      MergedAtCursor(above, upArray, lowArray, i, j);
      if above(upArray[i], lowArray[j]) {
        a[k] := upArray[i];
        i := i + 1;
      } else {
        a[k] := lowArray[j];
        j := j + 1;
      }
      k := k + 1;
    }
    while i < upperSize
      modifies a
      invariant 0 <= i <= upperSize && 0 <= j <= lowerSize && k == lo + i + j
      invariant i == upperSize || j == lowerSize
      invariant Reached(above, upArray, lowArray, i, j)
      invariant forall p :: lo <= p < k ==> a[p] == merged[p - lo]
      invariant forall p :: 0 <= p < a.Length && !(lo <= p <= hi) ==> a[p] == old(a[p])
    {
      MergedAtCursor(above, upArray, lowArray, i, j);
      a[k] := upArray[i];
      i := i + 1;
      k := k + 1;
    }
    while j < lowerSize
      modifies a
      invariant i == upperSize && 0 <= j <= lowerSize && k == lo + i + j
      invariant Reached(above, upArray, lowArray, i, j)
      invariant forall p :: lo <= p < k ==> a[p] == merged[p - lo]
      invariant forall p :: 0 <= p < a.Length && !(lo <= p <= hi) ==> a[p] == old(a[p])
    {
      MergedAtCursor(above, upArray, lowArray, i, j);
      a[k] := lowArray[j];
      j := j + 1;
      k := k + 1;
    }
    assert a[lo..hi + 1] == merged;
  }

  /** From any cursor pair merge reaches, what is still to be written is the merge of
      what is left of the two halves. */
  lemma {:induction false} MergedFromCursor<T>(above: Comparer<T>, xs: seq<T>, ys: seq<T>, i: nat, j: nat)
    requires i <= |xs| && j <= |ys| && Reached(above, xs, ys, i, j)
    ensures |Merged(above, xs, ys)| == |xs| + |ys|
    ensures Merged(above, xs[i..], ys[j..]) == Merged(above, xs, ys)[i + j..]
    decreases i + j
  {
    MergedLength(above, xs, ys);
    var all := Merged(above, xs, ys);
    if i == 0 && j == 0 {
      assert xs[0..] == xs && ys[0..] == ys;
    } else if i > 0 && TakesFirst(above, xs, ys, i - 1, j) && Reached(above, xs, ys, i - 1, j) {
      MergedFromCursor(above, xs, ys, i - 1, j);
      assert all[i + j - 1..][1..] == all[i + j..];
      if j == |ys| {
        assert xs[i - 1..] == [xs[i - 1]] + xs[i..];
      } else {
        assert xs[i - 1..][1..] == xs[i..];
      }
    } else {
      MergedFromCursor(above, xs, ys, i, j - 1);
      assert all[i + j - 1..][1..] == all[i + j..];
      if i == |xs| {
        assert ys[j - 1..] == [ys[j - 1]] + ys[j..];
      } else {
        assert ys[j - 1..][1..] == ys[j..];
      }
    }
  }

  /** The element merge writes at a reachable cursor pair is the one Merged puts there. */
  lemma MergedAtCursor<T>(above: Comparer<T>, xs: seq<T>, ys: seq<T>, i: nat, j: nat)
    requires i <= |xs| && j <= |ys| && i + j < |xs| + |ys|
    requires Reached(above, xs, ys, i, j)
    ensures |Merged(above, xs, ys)| == |xs| + |ys|
    ensures Merged(above, xs, ys)[i + j] == if TakesFirst(above, xs, ys, i, j) then xs[i] else ys[j]
  {
    MergedFromCursor(above, xs, ys, i, j);
    assert Merged(above, xs, ys)[i + j] == Merged(above, xs[i..], ys[j..])[0];
    assert xs[i..] != [] ==> xs[i..][0] == xs[i];
    assert ys[j..] != [] ==> ys[j..][0] == ys[j];
  }

  /** MergeSort over the inclusive range [lo, hi]; a range with `lo >= hi`, including
      the empty vector's `0, -1`, is left as it is. */
  method MergeSort<T(0)>(a: array<T>, lo: int, hi: int, above: Comparer<T>)
    requires lo < hi ==> 0 <= lo && hi < a.Length
    modifies a
    ensures a[..] == SortedRange(above, old(a[..]), lo, hi)
    decreases hi - lo
  {
    if lo < hi {
      ghost var s := a[..];
      var mid := lo + (hi - lo) / 2;
      MergeSort(a, lo, mid, above);
      ghost var s1 := a[..];
      MergeSort(a, mid + 1, hi, above);
      ghost var s2 := a[..];
      Merge(a, lo, mid, hi, above);
      MergeSortStep(above, s, s1, s2, lo, mid, hi);
    }
  }

  /** Sorting both halves and merging them sorts the range. */
  lemma MergeSortStep<T>(above: Comparer<T>, s: seq<T>, s1: seq<T>, s2: seq<T>, lo: int, mid: int, hi: int)
    requires 0 <= lo < hi < |s| && mid == lo + (hi - lo) / 2 && |s1| == |s2| == |s|
    requires s1 == SortedRange(above, s, lo, mid) && s2 == SortedRange(above, s1, mid + 1, hi)
    ensures MergedRange(above, s2, lo, mid, hi) == SortedRange(above, s, lo, hi)
  {
    var left, right := MergeSorted(above, s[lo..mid + 1]), MergeSorted(above, s[mid + 1..hi + 1]);
    HalvesSorted(above, s, s1, s2, lo, mid, hi);
    MergedRangeOfHalves(above, s, lo, mid, hi, left, right);
    SortedRangeSplit(above, s, lo, mid, hi);
  }

  /** Merging two runs spliced side by side into a range splices their merge. */
  lemma MergedRangeOfHalves<T>(above: Comparer<T>, s: seq<T>, lo: int, mid: int, hi: int, x: seq<T>, y: seq<T>)
    requires 0 <= lo <= mid < hi < |s| && |x| == mid + 1 - lo && |y| == hi - mid
    ensures MergedRange(above, Spliced(s, lo, hi, x + y), lo, mid, hi) == Spliced(s, lo, hi, Merged(above, x, y))
  {
    SplicedHalves(s, lo, mid, hi, x, y);
    SplicedOver(s, lo, hi, x + y, Merged(above, x, y));
  }

  /** Sorting a range of at least two elements splices in the merge of its sorted
      halves. */
  lemma SortedRangeSplit<T>(above: Comparer<T>, s: seq<T>, lo: int, mid: int, hi: int)
    requires 0 <= lo <= mid < hi < |s| && mid == lo + (hi - lo) / 2
    ensures SortedRange(above, s, lo, hi)
         == Spliced(s, lo, hi, Merged(above, MergeSorted(above, s[lo..mid + 1]), MergeSorted(above, s[mid + 1..hi + 1])))
  {
    var r, m := s[lo..hi + 1], mid - lo + 1;
    assert |r| == hi + 1 - lo && m == (|r| - 1) / 2 + 1;
    SliceHalves(s, lo, mid, hi);
    MergeSortedSplit(above, r, m);
    assert MergeSorted(above, r)
        == Merged(above, MergeSorted(above, s[lo..mid + 1]), MergeSorted(above, s[mid + 1..hi + 1]));
  }

  /** After the two recursive calls the range holds the two sorted halves side by
      side. */
  lemma HalvesSorted<T>(above: Comparer<T>, s: seq<T>, s1: seq<T>, s2: seq<T>, lo: int, mid: int, hi: int)
    requires 0 <= lo <= mid < hi < |s| && |s1| == |s|
    requires s1 == SortedRange(above, s, lo, mid) && s2 == SortedRange(above, s1, mid + 1, hi)
    ensures |MergeSorted(above, s[lo..mid + 1])| == mid + 1 - lo
    ensures |MergeSorted(above, s[mid + 1..hi + 1])| == hi - mid
    ensures s2 == Spliced(s, lo, hi, MergeSorted(above, s[lo..mid + 1]) + MergeSorted(above, s[mid + 1..hi + 1]))
  {
    var left, right := MergeSorted(above, s[lo..mid + 1]), MergeSorted(above, s[mid + 1..hi + 1]);
    MergeSortedLength(above, s[lo..mid + 1]);
    MergeSortedLength(above, s[mid + 1..hi + 1]);
    SortedRangeIsSpliced(above, s, lo, mid);
    SplicedKeepsAfter(s, lo, mid, hi, left);
    SortedRangeIsSpliced(above, s1, mid + 1, hi);
    SplicedTwice(s, lo, mid, hi, left, right);
  }

  /** Splicing s[lo..mid] leaves what comes after it alone. */
  lemma SplicedKeepsAfter<T>(s: seq<T>, lo: int, mid: int, hi: int, x: seq<T>)
    requires 0 <= lo <= mid < hi < |s| && |x| == mid + 1 - lo
    ensures Spliced(s, lo, mid, x)[mid + 1..hi + 1] == s[mid + 1..hi + 1]
  {
  }

  /** Splicing two adjacent stretches is splicing their concatenation. */
  lemma SplicedTwice<T>(s: seq<T>, lo: int, mid: int, hi: int, x: seq<T>, y: seq<T>)
    requires 0 <= lo <= mid < hi < |s| && |x| == mid + 1 - lo && |y| == hi - mid
    ensures Spliced(Spliced(s, lo, mid, x), mid + 1, hi, y) == Spliced(s, lo, hi, x + y)
  {
  }

  /** The two halves of a spliced concatenation are where they were put. */
  lemma SplicedHalves<T>(s: seq<T>, lo: int, mid: int, hi: int, x: seq<T>, y: seq<T>)
    requires 0 <= lo <= mid < hi < |s| && |x| == mid + 1 - lo && |y| == hi - mid
    ensures Spliced(s, lo, hi, x + y)[lo..mid + 1] == x
    ensures Spliced(s, lo, hi, x + y)[mid + 1..hi + 1] == y
  {
  }

  /** Cutting s[lo..hi] after mid gives s[lo..mid] and s[mid+1..hi]. */
  lemma SliceHalves<T>(s: seq<T>, lo: int, mid: int, hi: int)
    requires 0 <= lo <= mid < hi < |s|
    ensures s[lo..hi + 1][..mid + 1 - lo] == s[lo..mid + 1]
    ensures s[lo..hi + 1][mid + 1 - lo..] == s[mid + 1..hi + 1]
  {
  }

  /** Splicing over a splice of the same stretch forgets the first one. */
  lemma SplicedOver<T>(s: seq<T>, lo: int, hi: int, x: seq<T>, y: seq<T>)
    requires 0 <= lo <= hi + 1 <= |s| && |x| == hi + 1 - lo
    ensures Spliced(Spliced(s, lo, hi, x), lo, hi, y) == Spliced(s, lo, hi, y)
  {
  }

  /** SortedRange of a range with at least one element is the range spliced with its
      sorted contents (for a single element, sorting changes nothing). */
  lemma SortedRangeIsSpliced<T>(above: Comparer<T>, s: seq<T>, lo: int, hi: int)
    requires 0 <= lo <= hi < |s|
    ensures SortedRange(above, s, lo, hi) == Spliced(s, lo, hi, MergeSorted(above, s[lo..hi + 1]))
  {
    if lo == hi {
      assert s[..lo] + s[lo..hi + 1] + s[hi + 1..] == s;
    }
  }

  /** What splicing keeps and what it replaces. */
  lemma SplicedParts<T>(s: seq<T>, lo: int, hi: int, x: seq<T>)
    requires 0 <= lo <= hi + 1 <= |s| && |x| == hi + 1 - lo
    ensures var r := Spliced(s, lo, hi, x);
      |r| == |s| && r[lo..hi + 1] == x
      && forall p :: 0 <= p < |s| && !(lo <= p <= hi) ==> r[p] == s[p]
  {
  }

  /** A sequence that agrees with `s` outside s[lo..hi] and holds `x` inside is `s`
      spliced with `x`. */
  lemma SplicedFromParts<T>(s: seq<T>, t: seq<T>, lo: int, hi: int, x: seq<T>)
    requires 0 <= lo <= hi + 1 <= |s| && |t| == |s|
    requires t[lo..hi + 1] == x
    requires forall p :: 0 <= p < |s| && !(lo <= p <= hi) ==> t[p] == s[p]
    ensures t == Spliced(s, lo, hi, x)
  {
  }

  /** MergeSorted on a range longer than one: the merge of the two sorted halves. */
  lemma MergeSortedSplit<T>(above: Comparer<T>, s: seq<T>, m: int)
    requires |s| > 1 && m == (|s| - 1) / 2 + 1
    ensures MergeSorted(above, s) == Merged(above, MergeSorted(above, s[..m]), MergeSorted(above, s[m..]))
  {
  }

  /** MergeSortWrapper: select the comparator for the sort type and sort the whole list.
      `size() - 1` on an empty vector wraps and converts to the int -1, which is the int
      `|list| - 1` here, so the empty list is returned as it is. */
  method MergeSortWrapper(list: seq<string>, t: SortType) returns (sorted: seq<string>)
    ensures sorted == MergeSorted(ComparerFor(t), list)
    ensures multiset(sorted) == multiset(list)
    ensures forall i :: 0 <= i < |sorted| - 1 ==> Le(t, sorted[i], sorted[i + 1])
    ensures IsSorted(ComparerFor(t), list) ==> sorted == list
  {
    var stringSorter := ComparerFor(t);
    var a := new string[|list|](i requires 0 <= i < |list| => list[i]);
    assert a[..] == list;
    MergeSort(a, 0, |list| - 1, stringSorter);
    sorted := a[..];
    SortedRangeWhole(stringSorter, list);
    SortTypeResult(t, list);
  }

  /** Sorting the range 0 .. |s|-1 sorts the whole sequence, the empty one included. */
  lemma SortedRangeWhole<T>(above: Comparer<T>, s: seq<T>)
    ensures SortedRange(above, s, 0, |s| - 1) == MergeSorted(above, s)
  {
    if |s| > 1 {
      assert s[0..|s|] == s && s[..0] == [] && s[|s|..] == [];
    }
  }

  /** What sorting under one of the three sort types promises. */
  lemma SortTypeResult(t: SortType, list: seq<string>)
    ensures var sorted := MergeSorted(ComparerFor(t), list);
      && multiset(sorted) == multiset(list)
      && (forall i :: 0 <= i < |sorted| - 1 ==> Le(t, sorted[i], sorted[i + 1]))
      && (IsSorted(ComparerFor(t), list) ==> sorted == list)
  {
    var above := ComparerFor(t);
    var sorted := MergeSorted(above, list);
    ComparerIsPlacementOrder(t);
    MergeSortedPermutation(above, list);
    MergeSortedIsSorted(above, list);
    if IsSorted(above, list) {
      SortedPermutationUnique(above, sorted, list);
    }
    forall i | 0 <= i < |sorted| - 1
      ensures Le(t, sorted[i], sorted[i + 1])
    {
      assert LeBy(above, sorted[i], sorted[i + 1]);
    }
  }

  // ---------------------------------------------------------------------------------
  // The specification is a sorted permutation, and the only one
  // ---------------------------------------------------------------------------------

  lemma {:induction false} MergedLength<T>(above: Comparer<T>, xs: seq<T>, ys: seq<T>)
    ensures |Merged(above, xs, ys)| == |xs| + |ys|
    decreases |xs| + |ys|
  {
    if |xs| > 0 && |ys| > 0 {
      if above(xs[0], ys[0]) {
        MergedLength(above, xs[1..], ys);
      } else {
        MergedLength(above, xs, ys[1..]);
      }
    }
  }

  lemma {:induction false} MergeSortedLength<T>(above: Comparer<T>, s: seq<T>)
    ensures |MergeSorted(above, s)| == |s|
    decreases |s|
  {
    if |s| > 1 {
      var m := (|s| - 1) / 2 + 1;
      MergeSortedLength(above, s[..m]);
      MergeSortedLength(above, s[m..]);
      MergedLength(above, MergeSorted(above, s[..m]), MergeSorted(above, s[m..]));
    }
  }

  /** Merging moves elements and never adds or drops one. */
  lemma {:induction false} MergedPermutation<T>(above: Comparer<T>, xs: seq<T>, ys: seq<T>)
    ensures multiset(Merged(above, xs, ys)) == multiset(xs) + multiset(ys)
    decreases |xs| + |ys|
  {
    if |xs| > 0 && |ys| > 0 {
      if above(xs[0], ys[0]) {
        var r := Merged(above, xs[1..], ys);
        MergedPermutation(above, xs[1..], ys);
        MultisetHead(xs);
        assert multiset([xs[0]] + r) == multiset{xs[0]} + multiset(r);
      } else {
        var r := Merged(above, xs, ys[1..]);
        MergedPermutation(above, xs, ys[1..]);
        MultisetHead(ys);
        assert multiset([ys[0]] + r) == multiset{ys[0]} + multiset(r);
      }
    }
  }

  lemma MultisetHead<T>(s: seq<T>)
    requires |s| > 0
    ensures multiset(s) == multiset{s[0]} + multiset(s[1..])
  {
    assert s == [s[0]] + s[1..];
  }

  /** A sequence is sorted when its head is placed no later than everything in its
      tail and the tail is sorted. */
  lemma SortedCons<T>(above: Comparer<T>, h: T, r: seq<T>)
    requires forall x :: x in r ==> LeBy(above, h, x)
    requires IsSorted(above, r)
    ensures IsSorted(above, [h] + r)
  {
  }

  /** The head of a sorted sequence is placed no later than anything in it. */
  lemma SortedHead<T>(above: Comparer<T>, s: seq<T>, x: T)
    requires IsSorted(above, s) && |s| > 0 && x in s
    ensures LeBy(above, s[0], x)
  {
  }

  /** The tail of a sorted sequence is sorted. */
  lemma SortedTail<T>(above: Comparer<T>, s: seq<T>)
    requires IsSorted(above, s) && |s| > 0
    ensures IsSorted(above, s[1..])
  {
  }

  /** Merging two sorted halves gives a sorted sequence. */
  lemma {:induction false} MergedSorted<T(!new)>(above: Comparer<T>, xs: seq<T>, ys: seq<T>)
    requires PlacementOrder(above)
    requires IsSorted(above, xs) && IsSorted(above, ys)
    ensures IsSorted(above, Merged(above, xs, ys))
    decreases |xs| + |ys|
  {
    if |xs| > 0 && |ys| > 0 {
      var x, y := xs[0], ys[0];
      if above(x, y) {
        var rest := Merged(above, xs[1..], ys);
        SortedTail(above, xs);
        MergedSorted(above, xs[1..], ys);
        MergedPermutation(above, xs[1..], ys);
        forall z | z in rest
          ensures LeBy(above, x, z)
        {
          assert z in multiset(rest);
          if z in xs[1..] {
            SortedHead(above, xs, z);
          } else {
            SortedHead(above, ys, z);
          }
        }
        SortedCons(above, x, rest);
      } else {
        var rest := Merged(above, xs, ys[1..]);
        SortedTail(above, ys);
        MergedSorted(above, xs, ys[1..]);
        MergedPermutation(above, xs, ys[1..]);
        forall z | z in rest
          ensures LeBy(above, y, z)
        {
          assert z in multiset(rest);
          if z in ys[1..] {
            SortedHead(above, ys, z);
          } else {
            SortedHead(above, xs, z);
          }
        }
        SortedCons(above, y, rest);
      }
    }
  }

  /** Merge sort moves elements and never adds or drops one. */
  lemma {:induction false} MergeSortedPermutation<T>(above: Comparer<T>, s: seq<T>)
    ensures multiset(MergeSorted(above, s)) == multiset(s)
    decreases |s|
  {
    if |s| > 1 {
      var m := (|s| - 1) / 2 + 1;
      var left, right := MergeSorted(above, s[..m]), MergeSorted(above, s[m..]);
      MergeSortedSplit(above, s, m);
      MergeSortedPermutation(above, s[..m]);
      MergeSortedPermutation(above, s[m..]);
      MergedPermutation(above, left, right);
      MultisetSplit(s, m);
    }
  }

  lemma MultisetSplit<T>(s: seq<T>, m: int)
    requires 0 <= m <= |s|
    ensures multiset(s) == multiset(s[..m]) + multiset(s[m..])
  {
    assert s == s[..m] + s[m..];
  }

  /** Merge sort returns a sorted sequence. */
  lemma {:induction false} MergeSortedIsSorted<T(!new)>(above: Comparer<T>, s: seq<T>)
    requires PlacementOrder(above)
    ensures IsSorted(above, MergeSorted(above, s))
    decreases |s|
  {
    if |s| > 1 {
      var m := (|s| - 1) / 2 + 1;
      MergeSortedSplit(above, s, m);
      MergeSortedIsSorted(above, s[..m]);
      MergeSortedIsSorted(above, s[m..]);
      MergedSorted(above, MergeSorted(above, s[..m]), MergeSorted(above, s[m..]));
    }
  }

  /** Two sorted sequences holding the same strings are the same sequence: since ties
      occur only between identical strings, the sorted order is unique. */
  lemma {:induction false} SortedPermutationUnique<T(!new)>(above: Comparer<T>, xs: seq<T>, ys: seq<T>)
    requires Antisymmetric(above)
    requires IsSorted(above, xs) && IsSorted(above, ys)
    requires multiset(xs) == multiset(ys)
    ensures xs == ys
    decreases |xs|
  {
    if |xs| > 0 {
      SortedUniqueStep(above, xs, ys);
      SortedPermutationUnique(above, xs[1..], ys[1..]);
      SameHeadAndTail(xs, ys);
    }
  }

  /** Peeling off the common head of two sorted sequences holding the same strings
      leaves two sorted sequences holding the same strings. */
  lemma SortedUniqueStep<T(!new)>(above: Comparer<T>, xs: seq<T>, ys: seq<T>)
    requires Antisymmetric(above)
    requires IsSorted(above, xs) && IsSorted(above, ys)
    requires multiset(xs) == multiset(ys) && |xs| > 0
    ensures |ys| > 0 && xs[0] == ys[0]
    ensures IsSorted(above, xs[1..]) && IsSorted(above, ys[1..])
    ensures multiset(xs[1..]) == multiset(ys[1..])
  {
    SortedSameHead(above, xs, ys);
    MultisetHead(xs);
    MultisetHead(ys);
    assert multiset(xs[1..]) == multiset(xs) - multiset{xs[0]} == multiset(ys[1..]);
    SortedTail(above, xs);
    SortedTail(above, ys);
  }

  lemma SameHeadAndTail<T>(xs: seq<T>, ys: seq<T>)
    requires |xs| > 0 && |ys| > 0 && xs[0] == ys[0] && xs[1..] == ys[1..]
    ensures xs == ys
  {
  }

  /** Two non-empty sorted sequences holding the same strings start with the same one. */
  lemma SortedSameHead<T(!new)>(above: Comparer<T>, xs: seq<T>, ys: seq<T>)
    requires Antisymmetric(above)
    requires IsSorted(above, xs) && IsSorted(above, ys)
    requires multiset(xs) == multiset(ys) && |xs| > 0
    ensures |ys| > 0 && xs[0] == ys[0]
  {
    assert |ys| == |multiset(ys)| == |multiset(xs)| == |xs|;
    var x, y := xs[0], ys[0];
    assert x in multiset(ys) && y in multiset(xs);
    SortedHead(above, ys, x);
    SortedHead(above, xs, y);
  }

  /** What Merge does to the array: when both halves of the range are sorted, the range
      ends up sorted, holding the same elements, and nothing outside it changes. */
  lemma MergedRangeMeaning<T(!new)>(above: Comparer<T>, s: seq<T>, lo: int, mid: int, hi: int)
    requires PlacementOrder(above)
    requires 0 <= lo <= mid + 1 <= hi + 1 <= |s|
    requires IsSorted(above, s[lo..mid + 1]) && IsSorted(above, s[mid + 1..hi + 1])
    ensures var r := MergedRange(above, s, lo, mid, hi);
      && |r| == |s|
      && IsSorted(above, r[lo..hi + 1])
      && multiset(r[lo..hi + 1]) == multiset(s[lo..hi + 1])
      && forall p :: 0 <= p < |s| && !(lo <= p <= hi) ==> r[p] == s[p]
  {
    var xs, ys := s[lo..mid + 1], s[mid + 1..hi + 1];
    MergedLength(above, xs, ys);
    MergedSorted(above, xs, ys);
    MergedPermutation(above, xs, ys);
    SplicedParts(s, lo, hi, Merged(above, xs, ys));
    assert s[lo..hi + 1] == xs + ys;
  }

  /** What MergeSort does to the array: a range of at least one element ends up sorted,
      holding the same elements, and nothing outside it changes. */
  lemma SortedRangeMeaning<T(!new)>(above: Comparer<T>, s: seq<T>, lo: int, hi: int)
    requires PlacementOrder(above)
    requires 0 <= lo <= hi < |s|
    ensures var r := SortedRange(above, s, lo, hi);
      && |r| == |s|
      && IsSorted(above, r[lo..hi + 1])
      && multiset(r[lo..hi + 1]) == multiset(s[lo..hi + 1])
      && forall p :: 0 <= p < |s| && !(lo <= p <= hi) ==> r[p] == s[p]
  {
    var x := MergeSorted(above, s[lo..hi + 1]);
    SortedRangeIsSpliced(above, s, lo, hi);
    MergeSortedLength(above, s[lo..hi + 1]);
    MergeSortedPermutation(above, s[lo..hi + 1]);
    MergeSortedIsSorted(above, s[lo..hi + 1]);
    SplicedParts(s, lo, hi, x);
  }

  /** Sorting an already sorted list returns it unchanged. */
  lemma MergeSortedIdempotent<T(!new)>(above: Comparer<T>, s: seq<T>)
    requires PlacementOrder(above)
    requires IsSorted(above, s)
    ensures MergeSorted(above, s) == s
  {
    MergeSortedPermutation(above, s);
    MergeSortedIsSorted(above, s);
    SortedPermutationUnique(above, MergeSorted(above, s), s);
  }

  /** The sorted result depends only on which strings are sorted, not on the order they
      arrive in. */
  lemma MergeSortedOrderIndependent<T(!new)>(above: Comparer<T>, s: seq<T>, s': seq<T>)
    requires PlacementOrder(above)
    requires multiset(s) == multiset(s')
    ensures MergeSorted(above, s) == MergeSorted(above, s')
  {
    MergeSortedPermutation(above, s);
    MergeSortedPermutation(above, s');
    MergeSortedIsSorted(above, s);
    MergeSortedIsSorted(above, s');
    SortedPermutationUnique(above, MergeSorted(above, s), MergeSorted(above, s'));
  }
}
