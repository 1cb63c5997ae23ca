/** singleThreading and multiThreading (main.cpp): collect the accepted lines of every
    input file, then sort them under one sort type. Timing and writing the result are
    left to the caller; what is modelled is the list handed to WriteAndPrint. */
module Orchestrator {
  import opened LineValidator
  import opened LineSource
  import opened Comparators
  import opened SortEngine
  import opened Ingestion

  /** What the program writes for one sort type: exactly the acceptable lines of the
      readable files, each as often as it occurs, in the sort type's order. */
  ghost predicate IsSortedOutput(files: seq<SourceFile>, t: SortType, out: seq<string>)
  {
    && (forall x :: multiset(out)[x] == if IsAcceptable(x) then multiset(AllRawLines(files))[x] else 0)
    && (forall i :: 0 <= i < |out| - 1 ==> Le(t, out[i], out[i + 1]))
  }

  method SingleThreading(files: seq<SourceFile>, t: SortType) returns (finalList: seq<string>)
    ensures finalList == MergeSorted(ComparerFor(t), Ingested(files))
    ensures IsSortedOutput(files, t, finalList)
  {
    finalList := SingleThreadIngest(files);
    finalList := MergeSortWrapper(finalList, t);
    SortedIngestedIsOutput(files, t);
  }

  method MultiThreading(files: seq<SourceFile>, completion: seq<nat>, t: SortType) returns (finalList: seq<string>)
    requires IsCompletionOrder(completion, |files|)
    ensures finalList == MergeSorted(ComparerFor(t), Ingested(files))
    ensures IsSortedOutput(files, t, finalList)
  {
    finalList := MultiThreadIngest(files, completion);
    finalList := MergeSortWrapper(finalList, t);
    SortedIngestedIsOutput(files, t);
  }

  /** Sorting the collected lines gives the output the program promises. */
  lemma SortedIngestedIsOutput(files: seq<SourceFile>, t: SortType)
    ensures IsSortedOutput(files, t, MergeSorted(ComparerFor(t), Ingested(files)))
  {
    var list := Ingested(files);
    var sorted := MergeSorted(ComparerFor(t), list);
    SortTypeResult(t, list);
    forall x
      ensures multiset(sorted)[x] == if IsAcceptable(x) then multiset(AllRawLines(files))[x] else 0
    {
      IngestedCount(files, x);
    }
  }

  /** The output for a sort type is determined by the files alone: any list with the
      promised contents and order is the one the program writes, so both threading
      modes, and every task completion order, write the same file. */
  lemma OutputUnique(files: seq<SourceFile>, t: SortType, out1: seq<string>, out2: seq<string>)
    requires IsSortedOutput(files, t, out1) && IsSortedOutput(files, t, out2)
    ensures out1 == out2
  {
    var above := ComparerFor(t);
    ComparerIsPlacementOrder(t);
    assert multiset(out1) == multiset(out2) by {
      forall x
        ensures multiset(out1)[x] == multiset(out2)[x]
      {
      }
    }
    AdjacentLeSorted(t, out1);
    AdjacentLeSorted(t, out2);
    SortedPermutationUnique(above, out1, out2);
  }

  /** A list whose neighbours are in order is sorted throughout. */
  lemma {:induction false} AdjacentLeSorted(t: SortType, s: seq<string>)
    requires forall i :: 0 <= i < |s| - 1 ==> Le(t, s[i], s[i + 1])
    ensures IsSorted(ComparerFor(t), s)
    decreases |s|
  {
    if |s| > 1 {
      AdjacentLeSorted(t, s[1..]);
      forall j | 1 <= j < |s|
        ensures Le(t, s[0], s[j])
      {
        if j > 1 {
          assert s[1..][j - 1] == s[j];
          assert Le(t, s[1], s[j]) by {
            assert LeBy(ComparerFor(t), s[1..][0], s[1..][j - 1]);
          }
          LeTransitive(t, s[0], s[1], s[j]);
        }
      }
      forall x | x in s[1..]
        ensures LeBy(ComparerFor(t), s[0], x)
      {
      }
      assert s == [s[0]] + s[1..];
      SortedCons(ComparerFor(t), s[0], s[1..]);
    }
  }

  /** The sort result is the one arrangement of the input whose neighbours are in order. */
  lemma SortResultCharacterised(t: SortType, list: seq<string>, out: seq<string>)
    requires multiset(out) == multiset(list)
    requires forall i :: 0 <= i < |out| - 1 ==> Le(t, out[i], out[i + 1])
    ensures MergeSorted(ComparerFor(t), list) == out
  {
    var above := ComparerFor(t);
    ComparerIsPlacementOrder(t);
    MergeSortedPermutation(above, list);
    MergeSortedIsSorted(above, list);
    AdjacentLeSorted(t, out);
    SortedPermutationUnique(above, MergeSorted(above, list), out);
  }

  /** Two files of letters only: every line is kept, in file order. */
  lemma IngestedExample()
    ensures Ingested([Opened(["banana", "Apple", "cherry"]), Opened(["apple", "Banana"])])
         == ["banana", "Apple", "cherry", "apple", "Banana"]
  {
    ExampleLinesAcceptable();
    TwoAcceptableFiles("banana", "Apple", "cherry", "apple", "Banana");
  }

  /** A file of three acceptable lines followed by a file of two. */
  lemma TwoAcceptableFiles(a: string, b: string, c: string, d: string, e: string)
    requires IsAcceptable(a) && IsAcceptable(b) && IsAcceptable(c)
    requires IsAcceptable(d) && IsAcceptable(e)
    ensures Ingested([Opened([a, b, c]), Opened([d, e])]) == [a, b, c, d, e]
  {
    var files := [Opened([a, b, c]), Opened([d, e])];
    KeptLinesAllAcceptable([a, b, c]);
    KeptLinesAllAcceptable([d, e]);
    assert files[..1] == [Opened([a, b, c])] && files[..1][..0] == [];
    assert Ingested(files[..1]) == [a, b, c];
    assert Ingested(files) == [a, b, c] + [d, e];
  }

  lemma ExampleLinesAcceptable()
    ensures IsAcceptable("banana") && IsAcceptable("Apple") && IsAcceptable("cherry")
    ensures IsAcceptable("apple") && IsAcceptable("Banana")
  {
  }

  /** Ascending order is by code point, so capitals come first. */
  lemma AscendingExample()
    ensures var files := [Opened(["banana", "Apple", "cherry"]), Opened(["apple", "Banana"])];
      MergeSorted(ComparerFor(AlphAsc), Ingested(files))
        == ["Apple", "Banana", "apple", "banana", "cherry"]
  {
    var list := ["banana", "Apple", "cherry", "apple", "Banana"];
    var out := ["Apple", "Banana", "apple", "banana", "cherry"];
    IngestedExample();
    AscendingPairs();
    NeighboursInOrder(AlphAsc, "Apple", "Banana", "apple", "banana", "cherry");
    assert multiset(out) == multiset(list);
    SortResultCharacterised(AlphAsc, list, out);
  }

  /** Capitals before small letters; otherwise the first letters decide. */
  lemma AscendingPairs()
    ensures Above(AlphAsc, "Apple", "Banana") && Above(AlphAsc, "Banana", "apple")
    ensures Above(AlphAsc, "apple", "banana") && Above(AlphAsc, "banana", "cherry")
  {
  }

  /** Last letter first: "dog" ends in 'g' and leads; "bat" and "cat" share the last two
      letters and are told apart by their first, 'b' before 'c'. */
  lemma LastLetterExample()
    ensures MergeSorted(ComparerFor(LastLetterAsc), ["cat", "bat", "dog"]) == ["dog", "bat", "cat"]
  {
    var list, out := ["cat", "bat", "dog"], ["dog", "bat", "cat"];
    assert multiset(out) == multiset(list);
    assert Above(LastLetterAsc, "dog", "bat");
    assert Above(LastLetterAsc, "bat", "cat") by {
      assert "bat"[..2] == "ba" && "cat"[..2] == "ca";
      assert "ba"[..1] == "b" && "ca"[..1] == "c";
    }
    SortResultCharacterised(LastLetterAsc, list, out);
  }

  /** Adjacent order of a five-element list, one neighbour pair at a time. */
  lemma NeighboursInOrder(t: SortType, a: string, b: string, c: string, d: string, e: string)
    requires Le(t, a, b) && Le(t, b, c) && Le(t, c, d) && Le(t, d, e)
    ensures var s := [a, b, c, d, e]; forall i :: 0 <= i < |s| - 1 ==> Le(t, s[i], s[i + 1])
  {
  }
}
