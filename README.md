# TextFileSorter, modelled in Dafny

TextFileSorter reads every text file in an input directory and keeps the lines made
only of letters. It drops empty lines and reports lines holding digits, blanks or
punctuation. It then merge-sorts the kept lines under one of three orders:

- ascending lexicographic (`AlphAsc`);
- descending lexicographic (`AlphDesc`);
- last letter first (`LastLetterAsc`), which compares the strings read from their ends.

Sorting runs twice per order. The first run reads the files one after another. The
second reads each file in its own task and gathers the results in file-list order.

This project models the line filter, the three comparators, the in-place merge sort
and both ways of collecting the lines, and proves what each promises. All of it is
`main.cpp`.

Modules:

- `LineValidator` (`line_validator.dfy`): `ContainsSpecial` and the per-character
  classification it uses. These are the C-locale `isdigit` and `isalnum`.
- `LineSource` (`line_source.dfy`): `ReadFile` as a loop over the lines of one file.
  Its result is specified by the filter functions `KeptLines` and `RejectedLines`.
- `Comparators` (`comparators.dfy`):
  - The three `IsFirstAboveSecond` loops, as methods.
  - The value-level comparators they compute, `Above(t, a, b)`.
  - Independent reference definitions: strict lexicographic order `LexLess` and string
    reversal `Reverse`.
  - The proof that "equal, or placed first" (`Le`) is a total order for each sort type.
- `SortEngine` (`sort_engine.dfy`):
  - `merge` and `MergeSort` as methods over an `array`, with the source's inclusive
    bounds and its midpoint `lo + (hi - lo) / 2`.
  - `MergeSortWrapper` over a list.
  - The specification functions `Merged` and `MergeSorted`, proved to be a sorted
    permutation and the only one.
- `Ingestion` (`ingestion.dfy`): the file loop of `singleThreading` and the
  task-per-file gathering of `multiThreading`. Both are proved to produce `Ingested`,
  the accepted lines of all files in file-list order.
- `Orchestrator` (`orchestrator.dfy`): `singleThreading` and `multiThreading` up to the
  list handed to `WriteAndPrint`.

The comparators behave as follows:

- `AlphAsc` is strict lexicographic order by code point, so capitals come before small
  letters.
- `AlphDesc` is `AlphAsc` with its arguments swapped.
- `LastLetterAsc(a, b)` holds exactly when `a == b` or `AlphAsc(reverse a, reverse b)`.
  It answers true on two equal strings. This does not disturb the sort, because of two
  equal strings it does not matter which is placed first.

`LastLetterAsc` orders `["cat","bat","dog"]` as `["dog","bat","cat"]`. Read from their
ends, "bat" and "cat" first differ at 'b' against 'c' (main.cpp:245).
`Orchestrator.LastLetterExample` proves this order.

## Model

| member | source | states |
|---|---|---|
| LineValidator.ContainsSpecial | main.cpp:159-167 | a line holds a special character exactly when some character is not a letter (both directions), so the empty line holds none |
| LineValidator.ContainsSpecialScan | main.cpp:159-167 | the early-return scan answers true exactly when some character is not an ASCII letter |
| LineValidator.IsAcceptable | main.cpp:188-190 | the test the getline loop applies to keep a line: non-empty and no special character; characterised by ContainsSpecial and ValidatorExamples |
| LineValidator.ValidatorExamples | main.cpp:159-167 | "abcDEF" is acceptable; "abc123", "hello world" and the empty line are not |
| LineSource.FileLines | main.cpp:169-203 | what one file contributes: nothing for either unopenable return, otherwise the kept lines; computed by ReadFile |
| LineSource.ReadFile | main.cpp:169-203 | an unopenable file gives an empty list and no rejected-line reports (the `cout` message of main.cpp:175/181 is not modelled); otherwise the list is the file's non-empty letter-only lines in file order, and the reports are its non-empty lines with a special character, in order |
| LineSource.KeptLines | main.cpp:186-198 | the filter the getline loop applies; characterised by KeptLinesCount, KeptLinesAppend, KeptLinesSingle and KeptLinesAllAcceptable, and computed by ReadFile |
| LineSource.RejectedLines | main.cpp:188-194 | the lines the getline loop reports; characterised by RejectedLinesCount, and computed by ReadFile |
| LineSource.KeptLinesCount | main.cpp:186-198 | every acceptable line is kept exactly as often as it occurs; no other line is kept |
| LineSource.RejectedLinesCount | main.cpp:188-194 | a line is reported exactly as often as it occurs when it is non-empty and holds a special character, otherwise never |
| LineSource.KeptLinesAppend | main.cpp:186-198 | filtering two stretches of lines one after the other gives the filtered whole, so relative order is kept |
| LineSource.RejectedLinesAppend | main.cpp:186-198 | reports for two stretches of lines are the reports of each, one after the other, so reports come in file order |
| LineSource.KeptLinesSingle | main.cpp:188-197 | a single line is kept exactly when it is non-empty and letters only |
| LineSource.KeptLinesAllAcceptable | main.cpp:186-198 | a file of acceptable lines passes the filter unchanged |
| LineSource.ReadFileExample | main.cpp:186-198 | of "abc123" and "validline" only "validline" is kept, and "abc123" is reported |
| Comparators.AlphAscAbove | main.cpp:208-218 | value-level IsFirstAboveSecond of AlphAscStrComp; characterised by AlphAscIsLexLess, AlphAscAsymmetric, AlphAscConnected and AlphAscTransitive, and computed by AlphAscCompare |
| Comparators.AlphDescAbove | main.cpp:221-231 | value-level IsFirstAboveSecond of AlphDescStrComp; characterised by AlphDescIsFlippedAsc, and computed by AlphDescCompare |
| Comparators.LastLetterAscAbove | main.cpp:234-247 | value-level IsFirstAboveSecond of LastLetterAscStrComp; characterised by LastLetterAscIsReversedAsc and EqualStrings, and computed by LastLetterAscCompare |
| Comparators.Above | main.cpp:208-247 | the comparator chosen by the sort type; characterised by AlphAscIsLexLess, AlphDescIsFlippedAsc and LastLetterAscIsReversedAsc, and its order by AboveTiesOnlyEqual, NotAboveGivesLe, LeTotal, LeAntisymmetric and LeTransitive |
| Comparators.AlphAscCompare | main.cpp:208-218 | the index loop answers true exactly when the first string is strictly lexicographically smaller (a proper prefix, or smaller at the first difference) |
| Comparators.AlphDescCompare | main.cpp:221-231 | the index loop answers true exactly when the second string is strictly lexicographically smaller |
| Comparators.LastLetterAscCompare | main.cpp:234-247 | the reverse-iterator loop answers true exactly when the strings are equal or the reversed first is strictly lexicographically smaller than the reversed second |
| Comparators.AlphAscIsLexLess | main.cpp:208-218 | ascending comparison is strict lexicographic order |
| Comparators.AlphDescIsFlippedAsc | main.cpp:221-231 | descending comparison is ascending comparison with the arguments swapped |
| Comparators.LastLetterAscIsReversedAsc | main.cpp:234-247 | last-letter comparison is equality or ascending comparison of the reversed strings |
| Comparators.AlphAscAsymmetric | main.cpp:208-218 | ascending comparison never places two strings each before the other |
| Comparators.AlphAscConnected | main.cpp:208-218 | of two different strings ascending comparison places one before the other |
| Comparators.AlphAscTransitive | main.cpp:208-218 | ascending comparison is transitive |
| Comparators.SuffixFirst | main.cpp:234-247 | of two strings where one ends the other, the last-letter comparator places the shorter first and not the longer |
| Comparators.PrefixLast | main.cpp:221-231 | of two strings where one begins the other, the descending comparator places the longer first and not the shorter |
| Comparators.AboveTiesOnlyEqual | main.cpp:208-247 | when a comparator places each of two strings before the other, the strings are equal and the comparator is the last-letter one |
| Comparators.NotAboveGivesLe | main.cpp:275-285 | a false answer means the second string is equal or placed first, which is what merge relies on when it takes the second half's element |
| Comparators.LeTotal | main.cpp:208-247 | any two strings are in order one way or the other |
| Comparators.LeAntisymmetric | main.cpp:208-247 | strings in order both ways are equal |
| Comparators.LeTransitive | main.cpp:208-247 | order is transitive under every sort type |
| Comparators.EqualStrings | main.cpp:234-247 | a string is placed before itself only by the last-letter comparator |
| SortEngine.ComparerFor | main.cpp:317-334 | the sort-type switch of MergeSortWrapper: the comparator for each type is `Above` of that type; characterised by ComparerIsPlacementOrder and SortTypeResult |
| SortEngine.ComparerIsPlacementOrder | main.cpp:317-334 | each comparator MergeSortWrapper can select is total, antisymmetric and transitive |
| SortEngine.Merge | main.cpp:251-299 | the array afterwards is the old array with a[lo..hi] replaced by the merge of its two halves |
| SortEngine.MergeBack | main.cpp:272-298 | the three interleaving loops write the merge of the two temporaries into a[lo..hi] and touch nothing else |
| SortEngine.Merged | main.cpp:272-298 | the interleave the three merge loops perform; characterised by MergedLength, MergedPermutation, MergedSorted and MergedAtCursor, and computed by MergeBack |
| SortEngine.MergedFromCursor | main.cpp:275-298 | at every cursor pair the loops reach, what remains to be written is the merge of what remains of both halves |
| SortEngine.MergedAtCursor | main.cpp:275-288 | the element written at cursor (i, j) comes from the first half exactly when that half is not exhausted and either the second half is exhausted or the comparator places the first half's element above |
| SortEngine.MergedRangeMeaning | main.cpp:251-299 | with both halves sorted, merge leaves the range sorted, holding the same elements, and every element outside it in place |
| SortEngine.MergeSort | main.cpp:301-315 | the array afterwards is the old array with a[lo..hi] replaced by its merge sort; a range with lo >= hi, the empty list's 0..-1 included, is left as it is |
| SortEngine.MergeSorted | main.cpp:301-315 | the value merge sort computes with the same midpoint; characterised by MergeSortedLength, MergeSortedPermutation, MergeSortedIsSorted, SortedPermutationUnique and MergeSortedIdempotent, and computed in place by MergeSort |
| SortEngine.MergeSortStep | main.cpp:304-314 | sorting both halves and then merging them sorts the whole range |
| SortEngine.SortedRangeMeaning | main.cpp:301-315 | MergeSort leaves a non-empty range sorted, holding the same elements, and every element outside it in place |
| SortEngine.MergeSortWrapper | main.cpp:317-342 | the result is a permutation of the list, each element is in order with the next under the selected sort type, and an already sorted list is returned unchanged |
| SortEngine.SortedRangeWhole | main.cpp:337 | sorting the range 0..size()-1 sorts the whole list, the empty one included |
| SortEngine.SortTypeResult | main.cpp:317-342 | for every sort type the sorted list is a permutation, ordered neighbour by neighbour, and a sorted input comes back unchanged |
| SortEngine.MergedLength | main.cpp:256-298 | merging writes as many elements as the two halves hold |
| SortEngine.MergedPermutation | main.cpp:256-298 | the merged run holds exactly the elements of the two halves |
| SortEngine.MergedSorted | main.cpp:275-298 | merging two sorted halves gives a sorted run |
| SortEngine.MergeSortedLength | main.cpp:301-315 | merge sort keeps the length |
| SortEngine.MergeSortedPermutation | main.cpp:301-315 | merge sort neither adds nor drops an element |
| SortEngine.MergeSortedIsSorted | main.cpp:301-315 | merge sort returns a sorted list |
| SortEngine.SortedPermutationUnique | main.cpp:301-342 | two sorted lists holding the same strings are identical, because ties occur only between equal strings |
| SortEngine.MergeSortedIdempotent | main.cpp:301-342 | sorting a sorted list returns it unchanged |
| SortEngine.MergeSortedOrderIndependent | main.cpp:317-342 | the sorted list depends only on which strings are sorted, not on their input order |
| Ingestion.Ingested | main.cpp:92-95 | the accepted lines of all files, file after file; characterised by IngestedIsKeptLines and IngestedCount, and computed by SingleThreadIngest and MultiThreadIngest |
| Ingestion.IngestedIsKeptLines | main.cpp:92-95 | reading the files one by one and concatenating equals filtering the concatenation of all readable files' lines |
| Ingestion.IngestedCount | main.cpp:92-95 | the collected list holds each acceptable line exactly as often as it occurs in the readable files, and nothing else |
| Ingestion.SingleThreadIngest | main.cpp:92-95 | the file loop produces the accepted lines of all files in file-list order |
| Ingestion.MultiThreadIngest | main.cpp:114-145 | whatever order the reading tasks finish in, gathering the futures in index order produces the same list as the single-threaded loop |
| Orchestrator.SingleThreading | main.cpp:86-103 | the list written is the merge sort of the collected lines; it holds exactly the acceptable lines, each as often as it occurs, in the sort type's order |
| Orchestrator.MultiThreading | main.cpp:107-153 | the list written is the same as the single-threaded one, for every completion order of the tasks |
| Orchestrator.SortedIngestedIsOutput | main.cpp:86-103 | sorting the collected lines gives exactly the acceptable lines, in order |
| Orchestrator.OutputUnique | main.cpp:86-153 | only one list has the promised contents and order, so both threading modes write the same output |
| Orchestrator.AdjacentLeSorted | main.cpp:301-315 | a list whose neighbours are in order is sorted throughout |
| Orchestrator.SortResultCharacterised | main.cpp:317-342 | the sort result is the one arrangement of the input whose neighbours are in order |
| Orchestrator.IngestedExample | main.cpp:92-95 | two files of letter-only lines contribute all their lines in file order |
| Orchestrator.AscendingExample | main.cpp:208-218 | "banana", "Apple", "cherry", "apple" and "Banana" sort ascending to Apple, Banana, apple, banana, cherry |
| Orchestrator.LastLetterExample | main.cpp:234-247 | "cat", "bat" and "dog" sort last-letter-first to dog, bat, cat |

## Left out

- Directory enumeration in `main` (main.cpp:59-66), opening files and `getline` are
  not modelled. A file is given as `Unopenable` or as the list of lines `getline`
  would return. The two "unable to open" branches (main.cpp:174-183) are one case.
- Console and error-stream output is not modelled. `ReadFile` returns the lines it
  reports instead of writing them.
- `clock()`, `WriteAndPrint` (output paths, truncating writes) and the final `getchar`
  are not modelled. `SingleThreading` and `MultiThreading` return the list that would
  be written.
- The `MULTITHREADED_ENABLED` compile switch is not modelled. Both threading modes are
  modelled unconditionally.
- Ingestion.MultiThreadIngest: the completion order is a parameter. Every task finishes
  before the polling loop runs, so the polling loop exits after one pass. Interleaving
  of polling with completion, `yield`, atomics and shared pointers are not modelled,
  because the result depends only on the futures' contents and the index-order gather.
- MergeSortWrapper's heap allocation of the comparator object, its `delete` and the
  unreachable `default` branch of the sort-type switch are not modelled. A comparator
  is a function value chosen by `ComparerFor`.
- SortEngine.MergeBack receives the contents of merge's two temporaries as values. The
  copy loops into the temporaries are verified in `SortEngine.Merge` over arrays.
- Indices are unbounded integers. The `unsigned int` index of the lexicographic
  comparators could wrap only on strings of 2^32 characters or more, and that is not
  modelled. `size() - 1` on an empty vector is modelled as the int -1 it converts to.
- Characters are compared by code point, as `char` comparison does for ASCII.
  Classification follows the C locale. `isdigit` or `isalnum` on a negative `char`
  (bytes above 127 where `char` is signed) is undefined behaviour in C++. The model
  treats such characters as neither letter nor digit.
- Strings are passed by value to the comparators in the source. The copies are not
  modelled.
