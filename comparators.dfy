/** The three string orderings a sort run can use (AlphAscStrComp, AlphDescStrComp and
    LastLetterAscStrComp in main.cpp), closed under one tag instead of a virtual class.
    `Above(t, a, b)` is the source's IsFirstAboveSecond: true when `a` must be placed
    before `b`. Characters compare by code point. */
module Comparators {

  datatype SortType = AlphAsc | AlphDesc | LastLetterAsc

  // ---------------------------------------------------------------------------------
  // The comparators, one step of each source loop per recursive call
  // ---------------------------------------------------------------------------------

  /** Ascending lexicographic: smaller character at the first difference wins, and when
      one string runs out first, the shorter one wins. */
  function AlphAscAbove(a: string, b: string): bool
  {
    if |a| == 0 || |b| == 0 then |a| < |b|
    else if a[0] < b[0] then true
    else if a[0] > b[0] then false
    else AlphAscAbove(a[1..], b[1..])
  }

  /** Descending lexicographic: larger character at the first difference wins, and when
      one string runs out first, the longer one wins. */
  function AlphDescAbove(a: string, b: string): bool
  {
    if |a| == 0 || |b| == 0 then |b| < |a|
    else if a[0] > b[0] then true
    else if a[0] < b[0] then false
    else AlphDescAbove(a[1..], b[1..])
  }

  /** Last letter first: walk both strings from their ends; the first one exhausted wins
      (the check on `a` comes first, so two equal strings give true), otherwise the
      smaller character at the first difference wins. */
  function LastLetterAscAbove(a: string, b: string): bool
  {
    if |a| == 0 then true
    else if |b| == 0 then false
    else if a[|a| - 1] != b[|b| - 1] then a[|a| - 1] < b[|b| - 1]
    else LastLetterAscAbove(a[..|a| - 1], b[..|b| - 1])
  }

  /** IsFirstAboveSecond of the comparator MergeSortWrapper selects for `t`. */
  function Above(t: SortType, a: string, b: string): bool
  {
    match t
    case AlphAsc => AlphAscAbove(a, b)
    case AlphDesc => AlphDescAbove(a, b)
    case LastLetterAsc => LastLetterAscAbove(a, b)
  }

  /** The non-strict order a sorted run respects: equal, or placed first. */
  predicate Le(t: SortType, a: string, b: string)
  {
    a == b || Above(t, a, b)
  }

  // ---------------------------------------------------------------------------------
  // Independent reference definitions
  // ---------------------------------------------------------------------------------

  /** Strict lexicographic order: `a` is a proper prefix of `b`, or at the first index
      where they differ `a` has the smaller character. */
  ghost predicate LexLess(a: string, b: string)
  {
    (|a| < |b| && a == b[..|a|])
    || exists k :: 0 <= k < |a| && k < |b| && a[..k] == b[..k] && a[k] < b[k]
  }

  /** `s` read from its end. */
  function Reverse(s: string): (r: string)
    ensures |r| == |s|
  {
    seq(|s|, k requires 0 <= k < |s| => s[|s| - 1 - k])
  }

  // ---------------------------------------------------------------------------------
  // The source loops, as written
  // ---------------------------------------------------------------------------------

  /** AlphAscStrComp::IsFirstAboveSecond with its index loop. */
  method AlphAscCompare(first: string, second: string) returns (above: bool)
    ensures above == AlphAscAbove(first, second)
    ensures above <==> LexLess(first, second)
  {
    AlphAscIsLexLess(first, second);
    var i := 0;
    while i < |first| && i < |second|
      invariant 0 <= i <= |first| && i <= |second|
      invariant AlphAscAbove(first, second) == AlphAscAbove(first[i..], second[i..])
    {
      if first[i] < second[i] {
        return true;
      } else if first[i] > second[i] {
        return false;
      }
      assert first[i..][1..] == first[i + 1..] && second[i..][1..] == second[i + 1..];
      i := i + 1;
    }
    above := |first| < |second|;
  }

  /** AlphDescStrComp::IsFirstAboveSecond with its index loop. */
  method AlphDescCompare(first: string, second: string) returns (above: bool)
    ensures above == AlphDescAbove(first, second)
    ensures above <==> LexLess(second, first)
  {
    AlphDescIsFlippedAsc(first, second);
    AlphAscIsLexLess(second, first);
    var i := 0;
    while i < |first| && i < |second|
      invariant 0 <= i <= |first| && i <= |second|
      invariant AlphDescAbove(first, second) == AlphDescAbove(first[i..], second[i..])
    {
      if first[i] > second[i] {
        return true;
      } else if first[i] < second[i] {
        return false;
      }
      assert first[i..][1..] == first[i + 1..] && second[i..][1..] == second[i + 1..];
      i := i + 1;
    }
    above := |second| < |first|;
  }

  /** LastLetterAscStrComp::IsFirstAboveSecond with its two reverse iterators, written as
      the count `n` of characters already passed at the end of each string. */
  method LastLetterAscCompare(first: string, second: string) returns (above: bool)
    ensures above == LastLetterAscAbove(first, second)
    ensures above <==> first == second || LexLess(Reverse(first), Reverse(second))
  {
    LastLetterAscIsReversedAsc(first, second);
    AlphAscIsLexLess(Reverse(first), Reverse(second));
    var n := 0;
    assert first[..|first|] == first && second[..|second|] == second;
    while true
      invariant 0 <= n <= |first| && n <= |second|
      invariant LastLetterAscAbove(first, second)
             == LastLetterAscAbove(first[..|first| - n], second[..|second| - n])
      decreases |first| - n
    {
      if n == |first| {
        return true;
      }
      if n == |second| {
        return false;
      }
      if first[|first| - 1 - n] != second[|second| - 1 - n] {
        return first[|first| - 1 - n] < second[|second| - 1 - n];
      }
      assert first[..|first| - n][..|first| - n - 1] == first[..|first| - (n + 1)];
      assert second[..|second| - n][..|second| - n - 1] == second[..|second| - (n + 1)];
      n := n + 1;
    }
  }

  // ---------------------------------------------------------------------------------
  // What each comparator means
  // ---------------------------------------------------------------------------------

  /** Dropping an equal first character does not change the lexicographic order. */
  lemma LexLessTail(a: string, b: string)
    requires |a| > 0 && |b| > 0 && a[0] == b[0]
    ensures LexLess(a, b) <==> LexLess(a[1..], b[1..])
  {
    var a', b' := a[1..], b[1..];
    if |a| < |b| && a == b[..|a|] {
      assert a' == b'[..|a'|];
    }
    if |a'| < |b'| && a' == b'[..|a'|] {
      assert a == [a[0]] + a' && b[..|a|] == [b[0]] + b'[..|a'|];
    }
    if k :| 0 <= k < |a| && k < |b| && a[..k] == b[..k] && a[k] < b[k] {
      assert k != 0;
      assert a'[..k - 1] == a[..k][1..] && b'[..k - 1] == b[..k][1..];
      assert 0 <= k - 1 < |a'| && k - 1 < |b'| && a'[..k - 1] == b'[..k - 1] && a'[k - 1] < b'[k - 1];
    }
    if k :| 0 <= k < |a'| && k < |b'| && a'[..k] == b'[..k] && a'[k] < b'[k] {
      assert a[..k + 1] == [a[0]] + a'[..k] && b[..k + 1] == [b[0]] + b'[..k];
      assert 0 <= k + 1 < |a| && k + 1 < |b| && a[..k + 1] == b[..k + 1] && a[k + 1] < b[k + 1];
    }
  }

  /** The ascending comparator is exactly strict lexicographic order. */
  lemma {:induction false} AlphAscIsLexLess(a: string, b: string)
    ensures AlphAscAbove(a, b) <==> LexLess(a, b)
  {
    if |a| == 0 || |b| == 0 {
      if |a| == 0 {
        assert a == b[..|a|];
      }
    } else if a[0] < b[0] {
      assert a[..0] == b[..0];
    } else if a[0] > b[0] {
    } else {
      AlphAscIsLexLess(a[1..], b[1..]);
      LexLessTail(a, b);
    }
  }

  /** The descending comparator is the ascending one with its arguments swapped. */
  lemma {:induction false} AlphDescIsFlippedAsc(a: string, b: string)
    ensures AlphDescAbove(a, b) == AlphAscAbove(b, a)
  {
    if |a| > 0 && |b| > 0 && a[0] == b[0] {
      AlphDescIsFlippedAsc(a[1..], b[1..]);
    }
  }

  /** Reversing a non-empty string puts its last character first, followed by the
      reversal of the rest. */
  lemma ReverseInit(s: string)
    requires |s| > 0
    ensures Reverse(s)[0] == s[|s| - 1]
    ensures Reverse(s)[1..] == Reverse(s[..|s| - 1])
  {
  }

  /** Strings with equal reversals are equal. */
  lemma ReverseInjective(a: string, b: string)
    requires Reverse(a) == Reverse(b)
    ensures a == b
  {
    forall k | 0 <= k < |a|
      ensures a[k] == b[k]
    {
      assert Reverse(a)[|a| - 1 - k] == Reverse(b)[|a| - 1 - k];
    }
  }

  /** The last-letter comparator is ascending lexicographic order on the reversed
      strings, except that it also holds of two equal strings. In particular, of two
      strings where one ends the other, the shorter is placed first. */
  lemma {:induction false} LastLetterAscIsReversedAsc(a: string, b: string)
    ensures LastLetterAscAbove(a, b) == (a == b || AlphAscAbove(Reverse(a), Reverse(b)))
  {
    if |a| == 0 {
    } else if |b| == 0 {
    } else {
      ReverseInit(a);
      ReverseInit(b);
      var a', b' := a[..|a| - 1], b[..|b| - 1];
      if a[|a| - 1] == b[|b| - 1] {
        LastLetterAscIsReversedAsc(a', b');
        assert a == a' + [a[|a| - 1]] && b == b' + [b[|b| - 1]];
        if a == b {
          assert a' == b';
        }
      }
    }
  }

  // ---------------------------------------------------------------------------------
  // Order properties of the ascending comparator
  // ---------------------------------------------------------------------------------

  lemma {:induction false} AlphAscAsymmetric(a: string, b: string)
    ensures !(AlphAscAbove(a, b) && AlphAscAbove(b, a))
  {
    if |a| > 0 && |b| > 0 && a[0] == b[0] {
      AlphAscAsymmetric(a[1..], b[1..]);
    }
  }

  lemma {:induction false} AlphAscConnected(a: string, b: string)
    requires a != b
    ensures AlphAscAbove(a, b) || AlphAscAbove(b, a)
  {
    if |a| > 0 && |b| > 0 && a[0] == b[0] {
      assert a == [a[0]] + a[1..] && b == [b[0]] + b[1..];
      AlphAscConnected(a[1..], b[1..]);
    }
  }

  lemma {:induction false} AlphAscTransitive(a: string, b: string, c: string)
    requires AlphAscAbove(a, b) && AlphAscAbove(b, c)
    ensures AlphAscAbove(a, c)
  {
    if |a| > 0 && |b| > 0 && |c| > 0 && a[0] == b[0] == c[0] {
      AlphAscTransitive(a[1..], b[1..], c[1..]);
    }
  }

  // ---------------------------------------------------------------------------------
  // The non-strict order Le is a total order for every sort type
  // ---------------------------------------------------------------------------------

  /** No comparator places two different strings each before the other: ties under
      `Above` happen only between identical strings. */
  lemma AboveTiesOnlyEqual(t: SortType, a: string, b: string)
    requires Above(t, a, b) && Above(t, b, a)
    ensures a == b
    ensures t == LastLetterAsc
  {
    match t
    case AlphAsc =>
      AlphAscAsymmetric(a, b);
    case AlphDesc =>
      AlphDescIsFlippedAsc(a, b);
      AlphDescIsFlippedAsc(b, a);
      AlphAscAsymmetric(a, b);
    case LastLetterAsc =>
      LastLetterAscIsReversedAsc(a, b);
      LastLetterAscIsReversedAsc(b, a);
      AlphAscAsymmetric(Reverse(a), Reverse(b));
  }

  /** Two strings the comparator does not place in order are placed in the other order:
      this is what lets merge take the second half's element on a false answer. */
  lemma NotAboveGivesLe(t: SortType, a: string, b: string)
    requires !Above(t, a, b)
    ensures Le(t, b, a)
  {
    match t
    case AlphAsc =>
      if a != b { AlphAscConnected(a, b); }
    case AlphDesc =>
      AlphDescIsFlippedAsc(a, b);
      AlphDescIsFlippedAsc(b, a);
      if a != b { AlphAscConnected(a, b); }
    case LastLetterAsc =>
      LastLetterAscIsReversedAsc(a, b);
      LastLetterAscIsReversedAsc(b, a);
      if Reverse(a) == Reverse(b) {
        ReverseInjective(a, b);
      } else {
        AlphAscConnected(Reverse(a), Reverse(b));
      }
  }

  lemma LeTotal(t: SortType, a: string, b: string)
    ensures Le(t, a, b) || Le(t, b, a)
  {
    if !Above(t, a, b) {
      NotAboveGivesLe(t, a, b);
    }
  }

  lemma LeAntisymmetric(t: SortType, a: string, b: string)
    requires Le(t, a, b) && Le(t, b, a)
    ensures a == b
  {
    if a != b {
      AboveTiesOnlyEqual(t, a, b);
    }
  }

  lemma LeTransitive(t: SortType, a: string, b: string, c: string)
    requires Le(t, a, b) && Le(t, b, c)
    ensures Le(t, a, c)
  {
    if a != b && b != c && a != c {
      match t
      case AlphAsc =>
        AlphAscTransitive(a, b, c);
      case AlphDesc =>
        AlphDescIsFlippedAsc(a, b);
        AlphDescIsFlippedAsc(b, c);
        AlphDescIsFlippedAsc(a, c);
        AlphAscTransitive(c, b, a);
      case LastLetterAsc =>
        LastLetterAscIsReversedAsc(a, b);
        LastLetterAscIsReversedAsc(b, c);
        LastLetterAscIsReversedAsc(a, c);
        AlphAscTransitive(Reverse(a), Reverse(b), Reverse(c));
    }
  }

  /** Equal strings: the two lexicographic comparators answer false, the last-letter
      comparator answers true. */
  lemma EqualStrings(t: SortType, a: string)
    ensures Above(t, a, a) <==> t == LastLetterAsc
  {
    if t != LastLetterAsc {
      if Above(t, a, a) {
        AboveTiesOnlyEqual(t, a, a);
      }
    } else {
      LastLetterAscIsReversedAsc(a, a);
    }
  }

  /** Of two strings where one ends the other, the last-letter comparator places the
      shorter first, and not the other way round. */
  lemma SuffixFirst(a: string, b: string)
    requires |a| < |b| && a == b[|b| - |a|..]
    ensures Above(LastLetterAsc, a, b) && !Above(LastLetterAsc, b, a)
  {
    assert Reverse(a) == Reverse(b)[..|a|];
    LastLetterAscIsReversedAsc(a, b);
    LastLetterAscIsReversedAsc(b, a);
    AlphAscIsLexLess(Reverse(a), Reverse(b));
    AlphAscAsymmetric(Reverse(a), Reverse(b));
  }

  /** Of two strings where one begins the other, the descending comparator places the
      longer first, and not the other way round. */
  lemma PrefixLast(a: string, b: string)
    requires |a| < |b| && a == b[..|a|]
    ensures Above(AlphDesc, b, a) && !Above(AlphDesc, a, b)
  {
    AlphDescIsFlippedAsc(b, a);
    AlphDescIsFlippedAsc(a, b);
    AlphAscIsLexLess(a, b);
    AlphAscAsymmetric(a, b);
  }
}
