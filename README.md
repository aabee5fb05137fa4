# MTG-Link gap-filling core, modelled in Dafny

MTG-Link fills the gaps of a genome assembly graph (GFA 2) with linked-read data.
For every gap line of the input graph, `gapfilling`:

- takes the barcodes of the reads that map to a chunk at the end of each flanking scaffold,
  with the chunk clamped to the scaffold's length;
- keeps the barcodes seen at least `freq` times over both chunks, and writes a summary row
  for the gap;
- writes the breakpoint fragments around the gap for each k-mer size k, including the
  reverse complements;
- runs the MindTheGap assembler for each abundance threshold a;
- rewrites the ids of the candidate sequences, grades each candidate against the
  alignment statistics (grades A to D, reduced with `min`), and accepts or rejects it
  with a regular expression on the grade string;
- stops the (k, a) sweep on a solved pair unless `--force` is given;
- falls back to the original gap line, but only when the last pair of a round is at the
  smallest k and the smallest a and `output_for_gfa` is then empty. A sweep that ends
  otherwise with nothing found returns an empty `output_for_gfa`, and the aggregation
  then raises on it (mtglink.py:587).

The top level:

- selects the gaps to process: all of them, or those from the `-line` argument on;
- runs the gap tasks with an order-preserving pool map;
- appends each task's summary row to the union summary;
- adds the task's solutions or its gap line to the output graph;
- reports how many gaps were filled.

The model follows `mtglink.py` as written, including its Python semantics:

- slices that clamp, with negative indices that count from the end;
- `in` on strings, meaning substring;
- `split(c)[0]` and `split(c)[-1]`;
- `min` on grade letters;
- true division for the read count.

Names that are still unbound when they are read, and an `IndexError`, are modelled as a
raised task (`None`, or a `crashed` flag). The top-level handler then exits with status 1.

A reading of the program that disagrees with the code was resolved in favour of the code
in these places:

- The test `"True_1" and "True_2" in solutions` is Python for `"True_2" in solutions`.
  The sweep therefore stops on an accepted reverse-strand candidate alone
  (`SweepProperties.LiteralStopIsWeaker`).
- A graph without gaps is first copied line by line. Then, because the next test is an
  `if` and not an `elif`, without `-line` the output is rewritten with the header and the
  segments only. It is not an identical copy of the input (`Scheduler.NoGapsRewritesHeader`).
- `solutions` and `output_for_gfa` are rebuilt for every (k, a) that has candidates and
  statistics, and `output_for_gfa` is emptied for every (k, a) without candidates. So with
  `--force`, a later run can replace or empty an earlier solution: the sweep returns the
  value written last (`SweepProperties.SweepOutputMeaning`).
- The inner `break` ignores `--force`. The fallback test reads the leftover loop variable
  `a`, so it fires only when the last a tried in a round at the smallest k is the smallest a
  (`SweepProperties.SweepOutputMeaning`, `SweepProperties.FallbackFires`).
- With a reference directory, `ref_file` is bound only by a file whose name contains the
  gap label. When there is none, the first run with candidates raises (`Sweep.MissingReference`).
  A run that left no insertion file raises when its size is read.

The external tools are fields of `Sweep.Tools`:

- the barcode extractor (barcodes of one chunk);
- the read extractor (the number of lines of the union reads file);
- the assembler together with the alignment statistics;
- the builder of a solution entry (`get_output_for_gfa`);
- whether the name of some file of the reference directory contains a gap label.

Their code is not part of this model. The files they read and write are modelled as
their contents.

Modules:

- `PyText`: Python slices, substring test, split fields, `min`.
- `Grades`: grades and the composite string.
- `Acceptance`: the regular expressions and the decision table.
- `Dna`: reverse complement and breakpoints.
- `Regions`: chunk clamp and max-length cap.
- `Barcodes`: occurrence dictionary and union filter.
- `Records`: id rewrite and strand digit.
- `Scoring`: the statistics rows and the composite grade.
- `Sweep`: the candidate loop and the k × a state machine, with the methods that run them.
- `SweepProperties`: order, stop test and final output of the sweep.
- `Scheduler`: one gap task, the gaps to process, aggregation, and the filled count.

## Model

| member | source | states |
|---|---|---|
| PyText.ClampIndex | mtglink.py:258-266 | A Python slice bound normalised to `[0, n]`: kept when in range, `n` when beyond, counted from the end when negative, `0` when it is still negative after that |
| PyText.Slice | mtglink.py:258-266 | `s[i:j]` is the ordinary subsequence when `0 <= i <= j <= len(s)` and never longer than `s` |
| PyText.SliceFrom | mtglink.py:566 | `s[i:]`: the suffix from `i`; for `-len(s) <= i < 0` the suffix of the last `-i` elements; all of `s` below that; empty past the end |
| PyText.ContainsAt | mtglink.py:397 | A string occurring at some position makes the Python `in` test true |
| PyText.ContainsInConcat | mtglink.py:397 | Python `in` stays true when text is added before or after |
| PyText.FirstField | mtglink.py:388 | `split(c)[0]` is a prefix of `s` without `c`, followed in `s` by `c` when shorter than `s` |
| PyText.LastField | mtglink.py:302 | `split(c)[-1]` is a suffix of `s` without `c`, preceded in `s` by `c` when shorter than `s` |
| PyText.Min | mtglink.py:513 | `min` of a non-empty list is an element of it and is at most every element |
| Grades.Best | mtglink.py:416 | `min` over a non-empty list of grades is one of them and ranks no worse than any of them |
| Grades.AxisGradeMeaning | mtglink.py:400-416 | An axis grade is D when no row matched (the appended `'D'`), else the best of the matching grades |
| Grades.Letters | mtglink.py:416 | The composite string has one letter per axis, in axis order |
| Grades.Description | mtglink.py:418 | The description is `"Quality "` followed by the composite's letters |
| Acceptance.LetterInClass | mtglink.py:422 | A grade letter is in `[AB]` iff the grade is A or B |
| Acceptance.DescriptionMatches | mtglink.py:422 | `^.*Quality <classes>$` matches a description built from grades iff each letter is in its class (no newline can occur in it) |
| Acceptance.DescriptionEndsWithoutNewline | mtglink.py:418 | The description never ends with a newline, so `$` can only match at its end |
| Acceptance.RegexIsDecisionTable | mtglink.py:422-467 | The regular expression of each mode on a composite decides exactly as the decision table: both grades in {A,B}; or first A with the other two in {A,B}, or B then A then {A,B} |
| Acceptance.ReferenceClasses | mtglink.py:422 | Two grades match the single-reference pattern letter by letter exactly when both grades are A or B |
| Acceptance.FlankFirstClasses | mtglink.py:467 | Three grades match the first flank alternative exactly when the first is A and the other two are A or B |
| Acceptance.FlankSecondClasses | mtglink.py:467 | Three grades match the second flank alternative exactly when they are B, then A, then A or B |
| Acceptance.AcceptedIffVerdict | mtglink.py:422-467 | A candidate is accepted iff its length exceeds `2*ext` and its composite passes the table |
| Acceptance.ReferenceTruthTable | mtglink.py:422 | Single-reference mode accepts AA, AB, BA and BB, and rejects AC and CD |
| Acceptance.FlankTruthTableAccepts | mtglink.py:467 | Flank mode accepts AAA, ABA, BAA and BAB |
| Acceptance.FlankTruthTableRejects | mtglink.py:467 | Flank mode rejects BBA and ACA |
| Acceptance.ShortCandidateRejected | mtglink.py:422-467 | A candidate not longer than `2*ext` is rejected whatever its description |
| Dna.ComplementInvolutive | mtglink.py:260 | Complementing a base twice gives it back |
| Dna.Rc | mtglink.py:260-266 | The reverse complement has the length of its input |
| Dna.RcInvolutive | mtglink.py:260-266 | The reverse complement of the reverse complement is the sequence itself |
| Dna.RcWindow | mtglink.py:260-266 | A window of the reverse complement is the reverse complement of the mirrored window |
| Dna.BreakpointsShape | mtglink.py:253-268 | With flanks of at least `ext+k` bases, every fragment has length k. The bkpt2 fragments are the reverse complements of the bkpt1 fragments of the same flank. The forward fragments lie `ext` bases from the gap |
| Dna.ShortFlankFragment | mtglink.py:258 | For a left flank shorter than `ext+k`, the negative start counts from the end: ACGTA with ext 1 and k 6 gives T |
| Regions.ChunkSize | mtglink.py:176-186 | The chunk used on a scaffold is at most the requested chunk and at most the scaffold length, and is one of the two |
| Regions.ChunkSizeIsMin | mtglink.py:176-186 | The chunk is the smaller of the two, and the warning is issued exactly when the request was lowered |
| Regions.MaxLengthCap | mtglink.py:282-284 | The maximum length passed to the assembler is never below the argument. It differs from the argument iff the argument is the default 10000 and the gap is at least 10000 long, and it is then the gap length plus 1000 |
| Barcodes.ExtractBarcodes | mtglink.py:195-204 | Each extractor call adds, for every barcode, the number of reads of the region seen with it to its count. The key order only grows, and the keys stay distinct |
| Barcodes.Tally | mtglink.py:195-204 | Counting one read adds one to the count of its barcode and changes no other count; a new barcode is appended to the key order, and the keys stay distinct |
| Barcodes.KeepFrequentMeaning | mtglink.py:209-211 | The filter keeps each dictionary key at most once, and keeps exactly those whose count reaches `freq` |
| Barcodes.FilterUnion | mtglink.py:207-211 | The filter loop writes the frequent keys in dictionary order |
| Barcodes.DistinctCard | mtglink.py:229 | A list without repeats has as many elements as its set, so the barcode line count is the number of distinct union barcodes |
| Barcodes.FilterCountsMeaning | mtglink.py:195-211 | After both chunks are counted, a barcode is in the union iff it occurs at least `freq` times over both chunks, and the union has one line per such barcode |
| Barcodes.BarcodeUnion | mtglink.py:195-211 | The union built from an empty dictionary has no repeats, contains exactly the barcodes with combined count reaching `freq`, and has as many lines as there are such barcodes |
| Barcodes.ReadCount | mtglink.py:230 | The read count is a quarter of the line count (Python 3 true division, so a real number) and is never negative |
| Records.SolutionTag | mtglink.py:301-304 | When the description mentions "solution", the tag is its last space-separated word: a suffix without spaces, preceded by a space |
| Records.RewriteId | mtglink.py:301-304 | The new id starts with the old id followed by `_sol_`; the tag that follows is `SolutionTag` |
| Records.Strand | mtglink.py:388 | The strand digit exists iff the id is non-empty and does not start with `_`; otherwise mtglink.py raises IndexError |
| Records.FirstFieldAfterSeparator | mtglink.py:388 | `split(c)[0]` ignores everything from the first `c` on |
| Records.LastFieldAfterSeparator | mtglink.py:408 | `split(c)[-1]` of a string ending in `c` plus a `c`-free tail is that tail |
| Records.RewriteKeepsStrand | mtglink.py:388 | The id rewrite of lines 300-305 never changes the strand digit |
| Records.RewriteLastField | mtglink.py:408 | After the id rewrite of lines 300-305, the last `_`-field of a rewritten id is the solution tag, when the tag has no `_` |
| Records.DefaultTag | mtglink.py:303-304 | A description without "solution" yields the id `<id>_sol_1/1` |
| Records.AssemblerStrands | mtglink.py:388 | Candidates named `bkpt1_…` and `bkpt2_…` have strand digits 1 and 2 |
| Scoring.RefGradesMembers | mtglink.py:395-443 | The grades collected for an axis are exactly the qualities of the rows it selects, at most one per row |
| Scoring.RevGradesMembers | mtglink.py:406-455 | The self-alignment grades are exactly the qualities of the rows where either solution column contains the id's last `_`-field and the matching strand word |
| Scoring.CollectReference | mtglink.py:395-398 | The single-reference reading loop collects the grades of the matching rows in row order |
| Scoring.CollectFlanks | mtglink.py:436-443 | The flank reading loop fills the left list by the `if` and the right list by the `elif`, in row order |
| Scoring.CollectRevcomp | mtglink.py:406-410 | The self-alignment reading loop collects the grades of the matching rows in row order |
| Scoring.Composite | mtglink.py:416-461 | The composite has 2 grades in single-reference mode and 3 in flank mode |
| Scoring.ScoreCandidate | mtglink.py:393-461 | The scoring loops, `'D'` padding and `min` give exactly the specified composite grade |
| Scoring.SelectWholeIgnoresNames | mtglink.py:395-398 | The single-reference axis does not depend on the flank names |
| Scoring.ReferenceAxisMeaning | mtglink.py:395-447 | Each reference axis grade is D when no row is selected, and otherwise the best selected grade, which is one of them |
| Scoring.LeftRowsNeverRight | mtglink.py:438-441 | Rows naming the left flank never reach the right list: removing them leaves the right list unchanged |
| Scoring.RowsNotNamed | mtglink.py:438-441 | The filtered rows are exactly the rows whose reference is not the given name |
| Scoring.SameFlankNamesReject | mtglink.py:438-467 | If both flanks have the same name, the right-flank grade is always D, so flank mode rejects every candidate |
| Sweep.Mark | mtglink.py:423-429 | The `solutions` entry of a candidate is `"True_2"` iff the candidate is accepted and its strand digit is 2 |
| Sweep.EvaluateRecords | mtglink.py:385-429 | The candidate loop, with scoring and acceptance, yields the specified `solutions` and `output_for_gfa`, or raises on a missing strand digit |
| Sweep.NoStrandCrashes | mtglink.py:388 | One candidate without a strand digit makes the whole candidate loop raise |
| Sweep.RunInner | mtglink.py:274-504 | The inner loop over the abundances, with its `break` on the stop test, updates the loop variables exactly as specified by `InnerLoop` |
| Sweep.CheckAfterInner | mtglink.py:507-517 | The tests after the inner loop (outer `break`, fallback gap line) act exactly as specified by `AfterInner` |
| Sweep.RunRound | mtglink.py:245-517 | One k iteration (breakpoints, inner loop, tests) gives the specified loop variables |
| Sweep.RunSweep | mtglink.py:245-517 | The nested loops try exactly the specified (k, a) pairs and return the specified `output_for_gfa` |
| SweepProperties.CandidateLoopRaises | mtglink.py:385-388 | The candidate loop raises iff some candidate lacks a strand digit |
| SweepProperties.CandidateLoopSolutions | mtglink.py:421-475 | `solutions` has one entry per candidate, in order: True or False by its verdict, then its strand digit |
| SweepProperties.CandidateLoopOutput | mtglink.py:421-475 | `output_for_gfa` holds exactly the entries of the accepted candidates; a rejected candidate adds nothing |
| SweepProperties.StopTestMeaning | mtglink.py:488 | The stop test holds iff some accepted candidate has strand digit 2 |
| SweepProperties.SolvedMeansAcceptedReverse | mtglink.py:290-490 | A (k, a) run is solved iff it left an insertion file with candidates, the reference file was found when a reference directory is given, the statistics exist, all candidates have strand digits, and an accepted one has strand 2 |
| SweepProperties.LiteralStopIsWeaker | mtglink.py:488 | The code's test stops on `["True_2"]`, which the "both strands" reading would not. The "both strands" reading implies it |
| SweepProperties.AppendOrdered | mtglink.py:245-507 | Extending an ordered trace by an allowed next pair keeps it ordered |
| SweepProperties.InnerOrdered | mtglink.py:274-504 | The inner loop keeps the trace ordered; it raises only at a raising pair; otherwise it ends ready for the next k with `solution` about its last pair |
| SweepProperties.AfterInnerFacts | mtglink.py:507-517 | The tests after the inner loop leave the trace and `solution` alone, and let the sweep go on only when `solution` is bound and is false or `--force` is set |
| SweepProperties.AfterInnerContinues | mtglink.py:507-517 | On an ordered trace whose last pair leads to the next k, the tests after the inner loop either let the sweep go on at the first a of the next k, or stop it at an exception or at a solved pair without `--force` |
| SweepProperties.RoundOrdered | mtglink.py:274-517 | One outer iteration keeps the trace ordered, and either leaves it ready for the next k or stops at an exception or at a solved pair without `--force` |
| SweepProperties.OuterOrdered | mtglink.py:245-517 | The outer loop keeps the trace ordered. It ends only by an exception, at a solved pair without `--force`, or after the last k |
| SweepProperties.SweepOrder | mtglink.py:245-517 | The sweep starts at the first k and the first a. Each pair is followed by the next a, or, after a solved pair or the last a, by the first a of the next k. Without `--force` nothing follows a solved pair . With both lists non-empty the assembler is called at least once |
| SweepProperties.InnerGrows | mtglink.py:274-504 | An inner loop with an abundance left calls the assembler at least once |
| SweepProperties.OuterNoShrink | mtglink.py:245-517 | The outer loop only ever extends the trace of calls |
| SweepProperties.OuterTries | mtglink.py:245-517 | With at least one k and one a the sweep calls the assembler at least once, whatever the runs return |
| SweepProperties.OrderedIncreasing | mtglink.py:245-274 | The pairs of the trace strictly increase in list order |
| SweepProperties.NoPairTwice | mtglink.py:245-274 | With repeat-free k and a lists, no (k, a) value pair is tried twice |
| SweepProperties.LastWrittenAppend | mtglink.py:274-504 | The last value written by a trace extended by one pair is that pair's write, or the earlier last value when the pair writes nothing |
| SweepProperties.FallbackAppend | mtglink.py:274-504 | A pair of the current round keeps a fallback of an earlier round in force iff it writes nothing |
| SweepProperties.FallbackAppendBack | mtglink.py:274-504 | A fallback in force after one more pair was in force before it, and the pair wrote nothing |
| SweepProperties.FallbackAppendForward | mtglink.py:274-504 | A pair that writes nothing keeps a fallback in force |
| SweepProperties.FallbackClose | mtglink.py:507-517 | Closing a round adds exactly one way for the fallback to be in force: the round's last pair at the smallest k and the smallest a, with an empty last value |
| SweepProperties.FallbackRaise | mtglink.py:245-517 | Counting rounds no pair reached adds no fallback |
| SweepProperties.StepExact | mtglink.py:274-504 | One (k, a) iteration keeps `output_for_gfa` equal to the gap line iff the fallback is in force, and otherwise to the last value written |
| SweepProperties.InnerKeeps | mtglink.py:274-504 | A property of the loop variables that every inner iteration keeps holds after the whole inner loop |
| SweepProperties.InnerLastAt | mtglink.py:274-504 | When the inner loop runs at all, its last pair is at the current k |
| SweepProperties.InnerExact | mtglink.py:274-504 | The inner loop keeps the characterization of `output_for_gfa`, and when it runs at all its last pair is at the current k |
| SweepProperties.AfterInnerExact | mtglink.py:507-517 | The tests after the inner loop carry the characterization to the next round: the gap line is added exactly when the round's last pair is at the smallest k and the smallest a and `output_for_gfa` is empty |
| SweepProperties.ExactRaise | mtglink.py:245-517 | The characterization for a round no pair reached holds for every later round |
| SweepProperties.RoundExact | mtglink.py:245-517 | One outer iteration carries the characterization to the next round, and the sweep goes on only when nothing raised |
| SweepProperties.OuterExact | mtglink.py:245-517 | The outer loop keeps the characterization up to the end of the sweep |
| SweepProperties.OutcomesSolvedWrite | mtglink.py:421-490 | Every solved run of a task writes a non-empty `output_for_gfa` |
| SweepProperties.SweepOutputMeaning | mtglink.py:245-517 | Unless it raised, the sweep returns the original gap line iff the fallback fired and is still in force (an empty last value, after a pair at the smallest k and the smallest a that closed its round, with no later write), and otherwise the last value written to `output_for_gfa`, which may be empty |
| SweepProperties.FallbackFires | mtglink.py:511-517 | A sweep that did not raise, whose last pair is at the smallest k and the smallest a and whose last value written is empty, returns the gap line |
| SweepProperties.EmptyWithoutFallback | mtglink.py:245-517 | Without the fallback, an empty last value is returned as it is |
| SweepProperties.StopMeansOutput | mtglink.py:421-488 | When the stop test holds, `output_for_gfa` is not empty |
| SweepProperties.SolvedWritesEntries | mtglink.py:488-490 | A solved run writes a non-empty `output_for_gfa` |
| SweepProperties.LastSolvedRunDecides | mtglink.py:487-517 | When the last pair tried was solved, the sweep returns that run's entries and the fallback cannot replace them |
| Scheduler.Gapfilling | mtglink.py:154-527 | One gap task returns the specified summary row and the sweep's `output_for_gfa`. The row holds the gap identity, its two sides, its length, the chunk argument, the union barcode count and the read count |
| Scheduler.InitialGraph | mtglink.py:543-560 | Without `-line` the output graph is the header followed by one line per segment, in order. With `-line` it is a copy of the input when there are no gaps, and the earlier output otherwise |
| Scheduler.GapsToProcess | mtglink.py:565-573 | The gaps processed are all the gaps without `-line`, and a suffix of them with it |
| Scheduler.ResumeAtGapLine | mtglink.py:565-566 | `-line` equal to the line number of the m-th gap resumes at that gap |
| Scheduler.ResumeBeforeGapsCountsFromEnd | mtglink.py:565-566 | A `-line` before the first gap line is a negative index and selects gaps from the end; one past the end selects none |
| Scheduler.NoGapsRewritesHeader | mtglink.py:543-560 | Without gaps and without `-line`, the output is the header and the segments, not a copy of every line |
| Scheduler.Contribution | mtglink.py:587-595 | A gap contributes every entry when its first entry has more than one field, and exactly its first field otherwise. Out-of-range `[0]` raises |
| Scheduler.AggregateResults | mtglink.py:581-595 | The aggregation loop writes the specified rows and graph items, or stops at the first IndexError |
| Scheduler.AggregateStopsAtFailure | mtglink.py:581-595 | After an exception nothing more is written |
| Scheduler.AggregateAppend | mtglink.py:581-595 | Aggregating two lists in sequence gives the rows and items of the first, followed by those of the second |
| Scheduler.AggregateRows | mtglink.py:581-583 | Each result writes its summary row in input order, up to and including the first one that raises. Without an exception that is one row per gap |
| Scheduler.GapLines | mtglink.py:639-644 | The gap-line count of a graph is at most its size |
| Scheduler.GapLinesAppend | mtglink.py:639-644 | Gap lines of two concatenated graphs add up |
| Scheduler.AggregateGapLines | mtglink.py:587-644 | The gap lines added by the aggregation are exactly one per gap left unfilled |
| Scheduler.FilledAddsNoGapLine | mtglink.py:587-590 | A filled gap's entries add no gap line |
| Scheduler.MapGapfilling | mtglink.py:581 | The map over the gaps, run in order, yields the specified gap results |
| Scheduler.AnyRaised | mtglink.py:581 | Detects exactly whether some gap task raised |
| Scheduler.Run | mtglink.py:533-612 | The top level yields exactly the specified graph, summary rows and verdict (`RunReport`): nothing is aggregated when a task raised, otherwise the aggregation of the initial graph and the results |
| Scheduler.FilledCountMeaning | mtglink.py:626-644 | Without `-line`, when nothing raised and no segment looks like a gap line, the count reported as filled is the number of gaps minus those left with their gap line alone, and there is one summary row per gap in input order |
| Scheduler.HeaderAndSegmentsHaveNoGapLine | mtglink.py:557-559 | The header and the segment lines contain no gap line |

## Left out

- Argument parsing, path and suffix checks, and directory setup: process-wide I/O.
- File I/O is modelled as file contents:
  - writing the `.bxu` union file and the breakpoint FASTA file;
  - the rm/mv calls;
  - reading and writing insertion FASTA files.
- The headers of both statistics tables are left out. mtglink.py reads them as data rows, because the readers are given explicit field names. Rows carry a grade datatype, not free `Quality` strings.
- `helpers` and `gfapy` are not part of this model:
  - `extract_barcodes`, `get_reads`, `mtg_fill` and `stats_align`;
  - `get_output_for_gfa` and `update_gfa_with_solution`;
  - the `Gap` and `Scaffold` classes and GFA parsing.

  They are oracles (`Sweep.Tools`), or are given as data (`Scheduler.Gfa`, `Sweep.Gap`).
  A scaffold's `slen` is taken as the length of its sequence.
- `Dna.Complement`: handles A, C, G and T only and leaves every other character unchanged. gfapy's own `rc` (lower case, IUPAC codes) is not part of this model.
- `Scheduler.Run`: the graph update of a filled gap is modelled as appending its entry as an item. What `update_gfa_with_solution` does to the file is not modelled, and its entries are assumed not to be gap lines.
- Reference-file discovery in `refDir`: the directory listing is the oracle `Sweep.Tools.hasReference`. A missing match raises, as `Sweep.MissingReference` models. Which of several matching files is used, and the reference name that is then given to the aligner, are not modelled. A match that is not a regular file only prints a warning; the statistics prefix is then unbound on the first run, or left from the previous run, and that case is not modelled (the statistics are an oracle of the run).
- The flank-reference FASTA writing: output formatting only. The mode (one reference, or the flanks) is a configuration value.
- The candidate's sequence: `Records.Record` holds its id, description and length, which are all the scoring and the acceptance read. `get_output_for_gfa` also receives the sequence, but the entry oracle `Sweep.Tools.place` sees only the record's id, description and length. So the model cannot express two entries that differ by sequence alone.
- Scaffold orientation: the barcode oracle `Sweep.Tools.barcodesIn` is keyed by the scaffold name and the chunk size, not by the orientation that picks the chunk's end. When both flanks are the same scaffold in opposite orientations, the model therefore gives both chunks the same barcodes.
- The pool's parallelism: the map is modelled as a sequential, order-preserving loop.
- The `.union.sum` legend line and the union rows that were already written when the aggregation raises: the model reports the rows but not the file text.
- Output-graph text written before a task raised: the model returns the initial graph together with a failed verdict.
- The console summary after the run: printing only.
- The names of the gapfilled sequences in the summary.
- The `success` and `gapfill_file` variables, which can be unbound when the summary reaches them.
- Scheduler.FilledCountMeaning: proved only without `-line`. When resuming, the reported count also counts the gaps skipped before the resume line and the gap lines of the earlier output, so it can be wrong. The model computes it as written in `Scheduler.FilledCount`.
- Barcodes.BarcodeUnion: the order of the barcodes in the union file is the dictionary order (`Barcodes.FilterUnion`), but the summary row and the read extractor only use the set of barcodes.
- Scheduler.Gapfilling: the read extractor is an oracle on the set of union barcodes. The `--rbxu` file is taken as its line count. The reads themselves are not modelled.
- Transient file names (`.bxu`, `.rbxu.fastq`, `.bkpt.fasta`, assembler prefixes): formatting only.
- The finding of the gap line in the re-parsed graph at the start of `gapfilling`: it always succeeds for a line taken from the same graph. The task receives the gap directly.
