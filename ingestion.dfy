/** Collecting the lines of every input file into one list before sorting: the
    single-threaded loop of singleThreading and the task-per-file scheme of
    multiThreading (main.cpp). Both produce the files' accepted lines concatenated in
    file-list order. */
module Ingestion {
  import opened LineValidator
  import opened LineSource

  /** The accepted lines of `files`, file after file, each file's lines in file order. */
  function Ingested(files: seq<SourceFile>): seq<string>
  {
    if |files| == 0 then []
    else Ingested(files[..|files| - 1]) + FileLines(files[|files| - 1])
  }

  /** Every raw line of every file that could be opened, in the same order. */
  function AllRawLines(files: seq<SourceFile>): seq<string>
  {
    if |files| == 0 then []
    else
      var last := files[|files| - 1];
      AllRawLines(files[..|files| - 1]) + (if last.Opened? then last.lines else [])
  }

  /** Reading the files one by one and concatenating is the same as filtering the
      concatenation of all their lines: the filter looks at each line on its own. */
  lemma {:induction false} IngestedIsKeptLines(files: seq<SourceFile>)
    ensures Ingested(files) == KeptLines(AllRawLines(files))
  {
    if |files| > 0 {
      var init, last := files[..|files| - 1], files[|files| - 1];
      IngestedIsKeptLines(init);
      KeptLinesAppend(AllRawLines(init), if last.Opened? then last.lines else []);
    }
  }

  /** The collected list holds each acceptable line exactly as often as it occurs in
      the readable files, and nothing else. */
  lemma IngestedCount(files: seq<SourceFile>, x: string)
    ensures multiset(Ingested(files))[x]
         == if IsAcceptable(x) then multiset(AllRawLines(files))[x] else 0
  {
    IngestedIsKeptLines(files);
    KeptLinesCount(AllRawLines(files), x);
  }

  /** The loop of singleThreading: read each file in list order and append its lines. */
  method SingleThreadIngest(files: seq<SourceFile>) returns (finalList: seq<string>)
    ensures finalList == Ingested(files)
  {
    finalList := [];
    for n := 0 to |files|
      invariant finalList == Ingested(files[..n])
    {
      var fileStringList, _ := ReadFile(files[n]);
      assert files[..n + 1][..n] == files[..n];
      finalList := finalList + fileStringList;
    }
    assert files[..|files|] == files;
  }

  /** An order in which the reading tasks finish: every file index exactly once. */
  predicate IsCompletionOrder(completion: seq<nat>, count: nat)
  {
    && (forall i :: 0 <= i < count ==> i in completion)
    && (forall n :: 0 <= n < |completion| ==> completion[n] < count)
    && (forall n, m :: 0 <= n < m < |completion| ==> completion[n] != completion[m])
  }

  /** multiThreading's ingestion. One task per file reads it and sets its done flag; the
      tasks finish in the order `completion`, which the scheduler decides. The caller
      spins until every flag is set, then takes the futures' results in file-list order,
      so the result does not depend on the completion order. */
  method MultiThreadIngest(files: seq<SourceFile>, completion: seq<nat>) returns (finalList: seq<string>)
    requires IsCompletionOrder(completion, |files|)
    ensures finalList == Ingested(files)
  {
    var futures := new seq<string>[|files|];
    var done := new bool[|files|](_ => false);
    for n := 0 to |completion|
      invariant forall i :: 0 <= i < |files| ==> (done[i] <==> i in completion[..n])
      invariant forall i :: 0 <= i < |files| && done[i] ==> futures[i] == FileLines(files[i])
    {
      var i := completion[n];
      assert completion[..n + 1] == completion[..n] + [i];
      var result, _ := ReadFile(files[i]);
      futures[i] := result;
      done[i] := true;
    }
    assert completion[..|completion|] == completion;
    var allDone := false;
    while !allDone
      invariant forall i :: 0 <= i < |files| ==> done[i]
      decreases if allDone then 0 else 1
    {
      allDone := true;
      for i := 0 to done.Length
        invariant allDone == forall p :: 0 <= p < i ==> done[p]
      {
        allDone := allDone && done[i];
      }
    }
    finalList := [];
    for i := 0 to |files|
      invariant finalList == Ingested(files[..i])
    {
      assert files[..i + 1][..i] == files[..i];
      finalList := finalList + futures[i];
    }
    assert files[..|files|] == files;
  }
}
