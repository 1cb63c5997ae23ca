/** The line source (ReadFile in main.cpp): the lines of one file, in file order, with
    empty lines skipped and lines holding a special character reported and dropped.
    The file is given as what opening it produced; reading the stream is left to the
    caller. */
module LineSource {
  import opened LineValidator

  /** One input file: it could not be opened, or it was opened and holds these raw
      lines (as `getline` splits them). */
  datatype SourceFile = Unopenable | Opened(lines: seq<string>)

  /** The lines the per-line filter keeps, in their order. */
  function KeptLines(lines: seq<string>): seq<string>
  {
    if |lines| == 0 then []
    else
      var init, line := lines[..|lines| - 1], lines[|lines| - 1];
      if line == "" then KeptLines(init)
      else if ContainsSpecial(line) then KeptLines(init)
      else KeptLines(init) + [line]
  }

  /** The lines the per-line filter reports as holding special characters or numbers,
      in their order (the source writes each to the diagnostic stream). */
  function RejectedLines(lines: seq<string>): seq<string>
  {
    if |lines| == 0 then []
    else
      var init, line := lines[..|lines| - 1], lines[|lines| - 1];
      if line == "" then RejectedLines(init)
      else if ContainsSpecial(line) then RejectedLines(init) + [line]
      else RejectedLines(init)
  }

  /** What one file contributes: nothing when it could not be opened. */
  function FileLines(file: SourceFile): seq<string>
  {
    match file
    case Unopenable => []
    case Opened(lines) => KeptLines(lines)
  }

  /** ReadFile: the `getline` loop growing `listOut`, plus the lines it reports. */
  method ReadFile(file: SourceFile) returns (listOut: seq<string>, reported: seq<string>)
    ensures listOut == FileLines(file)
    ensures reported == if file.Opened? then RejectedLines(file.lines) else []
  {
    listOut, reported := [], [];
    if file.Unopenable? {
      return;
    }
    var lines := file.lines;
    for n := 0 to |lines|
      invariant listOut == KeptLines(lines[..n])
      invariant reported == RejectedLines(lines[..n])
    {
      var line := lines[n];
      assert lines[..n + 1][..n] == lines[..n];
      if line != "" {
        var special := ContainsSpecialScan(line);
        if special {
          reported := reported + [line];
          continue;
        }
        listOut := listOut + [line];
      }
    }
    assert lines[..|lines|] == lines;
  }

  // ---------------------------------------------------------------------------------
  // What the filter keeps
  // ---------------------------------------------------------------------------------

  /** Every line is counted as often as it occurs in the file when it is acceptable,
      and not at all otherwise: nothing is added or duplicated, and exactly the
      acceptable lines survive. */
  lemma {:induction false} KeptLinesCount(lines: seq<string>, x: string)
    ensures multiset(KeptLines(lines))[x] == if IsAcceptable(x) then multiset(lines)[x] else 0
  {
    if |lines| > 0 {
      var init, line := lines[..|lines| - 1], lines[|lines| - 1];
      assert lines == init + [line];
      KeptLinesCount(init, x);
    }
  }

  /** Reported lines are exactly the non-empty lines holding a special character, each
      as often as it occurs. */
  lemma {:induction false} RejectedLinesCount(lines: seq<string>, x: string)
    ensures multiset(RejectedLines(lines))[x]
         == if x != "" && ContainsSpecial(x) then multiset(lines)[x] else 0
  {
    if |lines| > 0 {
      var init, line := lines[..|lines| - 1], lines[|lines| - 1];
      assert lines == init + [line];
      RejectedLinesCount(init, x);
    }
  }

  /** The filter works line by line: filtering two stretches of a file one after the
      other gives the filtered whole, which is why relative order is kept. */
  lemma {:induction false} KeptLinesAppend(a: seq<string>, b: seq<string>)
    ensures KeptLines(a + b) == KeptLines(a) + KeptLines(b)
  {
    if |b| == 0 {
      assert a + b == a;
    } else {
      var init := b[..|b| - 1];
      assert (a + b)[..|a + b| - 1] == a + init;
      KeptLinesAppend(a, init);
    }
  }

  /** Reports for two stretches of lines are the reports of each, in order. */
  lemma {:induction false} RejectedLinesAppend(a: seq<string>, b: seq<string>)
    ensures RejectedLines(a + b) == RejectedLines(a) + RejectedLines(b)
  {
    if |b| == 0 {
      assert a + b == a;
    } else {
      var init := b[..|b| - 1];
      assert (a + b)[..|a + b| - 1] == a + init;
      RejectedLinesAppend(a, init);
    }
  }

  /** A file whose every line is acceptable passes through the filter unchanged. */
  lemma {:induction false} KeptLinesAllAcceptable(lines: seq<string>)
    requires forall n :: 0 <= n < |lines| ==> IsAcceptable(lines[n])
    ensures KeptLines(lines) == lines
  {
    if |lines| > 0 {
      var init := lines[..|lines| - 1];
      KeptLinesAllAcceptable(init);
      assert lines == init + [lines[|lines| - 1]];
    }
  }

  /** On a single line the filter keeps it exactly when it is acceptable. */
  lemma KeptLinesSingle(line: string)
    ensures KeptLines([line]) == if IsAcceptable(line) then [line] else []
  {
  }

  /** A line containing a digit is reported and dropped; a line of letters is kept. */
  lemma ReadFileExample()
    ensures KeptLines(["abc123", "validline"]) == ["validline"]
    ensures RejectedLines(["abc123", "validline"]) == ["abc123"]
  {
    var lines := ["abc123", "validline"];
    assert lines[..1] == ["abc123"] && ["abc123"][..0] == [];
    assert !IsLetter("abc123"[3]);
  }
}
