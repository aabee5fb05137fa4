/** The per-gap parameter sweep: for each k (outer loop) the breakpoints are built,
    and for each abundance threshold a (inner loop) the assembler is run, its
    candidates are scored, and the loop variables `solution` and
    `output_for_gfa` are updated, with mtglink.py's breaks and its fallback
    to the original gap line.

    The model follows the code as written:
    - the stop test `"True_1" and "True_2" in solutions` is Python for
      `"True_2" in solutions`;
    - `solutions` and `output_for_gfa` are rebuilt at every (k, a) that produced candidates with statistics,
      and `output_for_gfa` is emptied at every (k, a) without candidates;
    - the inner `break` does not look at `--force`;
    - the fallback test after the inner loop reads the leftover loop variable `a`.
    Python names that are still unbound when read, and the IndexError of an
    empty strand field, end the gap with a crash (the run then exits with 1). */
module Sweep {
  import opened Wrappers
  import opened PyText
  import opened Grades
  import opened Acceptance
  import opened Dna
  import opened Regions
  import opened Records
  import opened Scoring

  /** An element of `output_for_gfa`: the fields returned for an accepted candidate,
      or the one-element list holding the original gap line. */
  type Entry = seq<string>

  /** What one assembler run yields: whether it left an insertion file at all (reading the
      size of a missing file raises), its candidate records (none when the insertion file
      is empty), and the two statistics tables, absent when either file is missing. */
  datatype FillRun = FillRun(insertionFile: bool, records: seq<Record>, stats: Option<Stats>)

  datatype Scaffold = Scaffold(name: string, sequence: string)

  /** A gap line of the graph and its two flanking scaffolds. */
  datatype Gap = Gap(identity: string, gapLabel: string, line: string, length: int,
                     leftId: string, rightId: string, left: Scaffold, right: Scaffold)

  /** The command-line parameters the gap-filling reads. */
  datatype Config = Config(chunk: int, freq: int, kmers: seq<int>, abundances: seq<int>, force: bool,
                           ext: int, maxLength: int, mode: RefMode, rbxuLines: Option<nat>)

  /** The external tools, as functions of their inputs:
      the barcode of every read in a flank chunk (gap label, scaffold name, chunk size),
      the number of lines of the union reads file extracted for a set of barcodes,
      the assembler together with the alignment statistics (gap label, breakpoints, k, a, max length),
      the solution entry built for an accepted candidate (record, k, gap),
      and whether the name of some file of the reference directory contains a gap label. */
  datatype Tools = Tools(
    barcodesIn: (string, string, int) -> seq<string>,
    readLines: (string, set<string>) -> nat,
    assemble: (string, Breakpoints, int, int, int) -> FillRun,
    place: (Record, int, Gap) -> Entry,
    hasReference: string -> bool)

  /** Everything one gap task sees. */
  datatype Task = Task(cfg: Config, gap: Gap, tools: Tools)

  /** The result of the candidate loop of one (k, a): the `solutions` and `output_for_gfa` lists. */
  datatype Evaluation = Evaluation(solutions: seq<string>, output: seq<Entry>)

  // ------------------------------------------------------------------
  // Candidate evaluation
  // ------------------------------------------------------------------

  /** A candidate after the id rewrite and the quality description. */
  function Scored(t: Task, stats: Stats, r: Record): Record
  {
    var id := RewriteId(r);
    Record(id, Description(Composite(t.cfg.mode, stats, id, t.gap.left.name, t.gap.right.name)), r.length)
  }

  predicate IsAccepted(t: Task, stats: Stats, r: Record)
  {
    Accepted(t.cfg.mode, r.length, t.cfg.ext, Scored(t, stats, r).description)
  }

  /** The candidate loop over records in order, for a given acceptance test, strand digit
      and solution entry: each record appends `"True_"` or `"False_"` plus its strand digit to `solutions`,
      and accepted ones append their entry; `None` when a strand digit cannot be read. */
  function CandidateLoop(accept: Record -> bool, strand: Record -> Option<char>, entry: Record -> Entry, recs: seq<Record>): Option<Evaluation>
  {
    if recs == [] then Some(Evaluation([], []))
    else
      match CandidateLoop(accept, strand, entry, recs[..|recs| - 1])
      case None => None
      case Some(ev) =>
        var r := recs[|recs| - 1];
        match strand(r)
        case None => None
        case Some(s) =>
          Some(Evaluation(ev.solutions + [Mark(accept(r), s)], if accept(r) then ev.output + [entry(r)] else ev.output))
  }

  /** The `solutions` element of a candidate: its verdict and its strand digit. */
  function Mark(accepted: bool, strand: char): (m: string)
    ensures m == "True_2" <==> accepted && strand == '2'
  {
    if accepted then
      assert ("True_" + [strand])[5] == strand;
      "True_" + [strand]
    else
      assert ("False_" + [strand])[0] == 'F';
      "False_" + [strand]
  }

  /** The strand digit of a candidate, read from its rewritten id. */
  function StrandOf(r: Record): Option<char>
  {
    Strand(RewriteId(r))
  }

  /** The candidate loop of one assembler run: acceptance by the regex on the scored record,
      and the entry built from the scored record. */
  function Evaluate(t: Task, stats: Stats, k: int, recs: seq<Record>): Option<Evaluation>
  {
    CandidateLoop(r => IsAccepted(t, stats, r), StrandOf, r => t.tools.place(Scored(t, stats, r), k, t.gap), recs)
  }

  /** The candidate loop as mtglink.py runs it. */
  method EvaluateRecords(t: Task, stats: Stats, k: int, recs: seq<Record>) returns (ev: Option<Evaluation>)
    ensures ev == Evaluate(t, stats, k, recs)
  {
    ghost var accept := r => IsAccepted(t, stats, r);
    ghost var entry := r => t.tools.place(Scored(t, stats, r), k, t.gap);
    var solutions: seq<string> := [];
    var output: seq<Entry> := [];
    var i := 0;
    while i < |recs|
      invariant 0 <= i <= |recs|
      invariant CandidateLoop(accept, StrandOf, entry, recs[..i]) == Some(Evaluation(solutions, output))
    {
      var r := recs[i];
      var id := RewriteId(r);
      var strand := Strand(id);
      if strand.None? {
        NoStrandCrashes(accept, StrandOf, entry, recs, i);
        return None;
      }
      var composite := ScoreCandidate(t.cfg.mode, stats, id, t.gap.left.name, t.gap.right.name);
      var scored := Record(id, Description(composite), r.length);
      assert scored == Scored(t, stats, r);
      var accepted := Accepted(t.cfg.mode, r.length, t.cfg.ext, scored.description);
      assert accepted == accept(r);
      CandidateLoopStep(accept, StrandOf, entry, recs, i, strand.value);
      if accepted {
        solutions := solutions + [Mark(true, strand.value)];
        output := output + [t.tools.place(scored, k, t.gap)];
      } else {
        solutions := solutions + [Mark(false, strand.value)];
      }
      i := i + 1;
    }
    assert recs[..i] == recs;
    ev := Some(Evaluation(solutions, output));
  }

  /** One more candidate with a strand digit extends the loop's lists by its mark and, when accepted, its entry. */
  lemma CandidateLoopStep(accept: Record -> bool, strand: Record -> Option<char>, entry: Record -> Entry,
                          recs: seq<Record>, i: nat, s: char)
    requires i < |recs| && strand(recs[i]) == Some(s)
    ensures CandidateLoop(accept, strand, entry, recs[..i + 1]) ==
      match CandidateLoop(accept, strand, entry, recs[..i])
      case None => None
      case Some(ev) =>
        Some(Evaluation(ev.solutions + [Mark(accept(recs[i]), s)],
                        if accept(recs[i]) then ev.output + [entry(recs[i])] else ev.output))
  {
    assert recs[..i + 1][..i] == recs[..i];
  }

  /** A record without a strand digit makes the whole loop raise, whatever follows it. */
  lemma {:induction false} NoStrandCrashes(accept: Record -> bool, strand: Record -> Option<char>, entry: Record -> Entry,
                                          recs: seq<Record>, i: nat)
    requires i < |recs| && strand(recs[i]).None?
    ensures CandidateLoop(accept, strand, entry, recs) == None
    decreases |recs|
  {
    if i < |recs| - 1 {
      NoStrandCrashes(accept, strand, entry, recs[..|recs| - 1], i);
    }
  }

  // ------------------------------------------------------------------
  // One (k, a) iteration
  // ------------------------------------------------------------------

  /** The breakpoint fragments written for k. */
  function BreakpointsFor(t: Task, k: int): Breakpoints
  {
    MakeBreakpoints(t.gap.left.sequence, t.gap.right.sequence, t.cfg.ext, k)
  }

  /** The assembler run for (k, a), with the effective maximum length. */
  function RunAt(t: Task, k: int, a: int): FillRun
  {
    t.tools.assemble(t.gap.gapLabel, BreakpointsFor(t, k), k, a, MaxLengthCap(t.cfg.maxLength, t.gap.length))
  }

  /** What the run for (k, a) does to the loop: whether its candidate loop raises, whether
      it is solved (some accepted candidate of strand 2, the stop test), and the new value of
      `output_for_gfa` (`None`: left as it was, when the statistics are missing). */
  datatype Outcome = Outcome(raises: bool, solved: bool, output: Option<seq<Entry>>)

  /** With a reference directory, `ref_file` is bound only by a file whose name contains the
      gap label; when there is none, reading it raises. */
  predicate MissingReference(t: Task)
  {
    t.cfg.mode == SingleReference && !t.tools.hasReference(t.gap.gapLabel)
  }

  function OutcomeAt(t: Task, k: int, a: int): Outcome
  {
    var run := RunAt(t, k, a);
    if !run.insertionFile then Outcome(true, false, None)
    else if |run.records| == 0 then Outcome(false, false, Some([]))
    else if MissingReference(t) then Outcome(true, false, None)
    else if run.stats.None? then Outcome(false, false, None)
    else match Evaluate(t, run.stats.value, k, run.records)
      case None => Outcome(true, false, None)
      case Some(ev) => Outcome(false, "True_2" in ev.solutions, Some(ev.output))
  }

  /** The outcomes of the task's runs, by (k position, a position). */
  function Outcomes(t: Task): (nat, nat) -> Outcome
  {
    (i: nat, j: nat) =>
      if i < |t.cfg.kmers| && j < |t.cfg.abundances| then OutcomeAt(t, t.cfg.kmers[i], t.cfg.abundances[j])
      else Outcome(false, false, None)
  }

  /** The local variables of `gapfilling` the sweep reads and writes (`None` = unbound),
      the index pairs (k position, a position) the assembler was called with, and
      whether an exception ended the task. */
  datatype Locals = Locals(solution: Option<bool>, output: Option<seq<Entry>>, lastA: Option<int>,
                           visited: seq<(nat, nat)>, crashed: bool)

  const Start: Locals := Locals(None, None, None, [], false)

  /** One inner-loop iteration at position (i, j), given the outcomes of the runs; the boolean
      is the inner `break` (or the exception of the candidate loop). */
  function Step(t: Task, res: (nat, nat) -> Outcome, L: Locals, i: nat, j: nat): (Locals, bool)
    requires i < |t.cfg.kmers| && j < |t.cfg.abundances|
  {
    var o := res(i, j);
    var L1 := L.(visited := L.visited + [(i, j)], lastA := Some(t.cfg.abundances[j]));
    if o.raises then (L1.(crashed := true), true)
    else (L1.(output := if o.output.Some? then o.output else L.output, solution := Some(o.solved)), o.solved)
  }

  /** The inner loop from position j on. */
  function InnerLoop(t: Task, res: (nat, nat) -> Outcome, L: Locals, i: nat, j: nat): Locals
    requires i < |t.cfg.kmers| && j <= |t.cfg.abundances|
    decreases |t.cfg.abundances| - j
  {
    if j == |t.cfg.abundances| then L
    else
      var step := Step(t, res, L, i, j);
      if step.1 then step.0 else InnerLoop(t, res, step.0, i, j + 1)
  }

  /** The tests after the inner loop for k position i; the boolean is the outer `break`
      (or the exception). */
  function AfterInner(t: Task, L: Locals, i: nat): (Locals, bool)
    requires i < |t.cfg.kmers|
  {
    if L.crashed then (L, true)
    else if L.solution.None? then (L.(crashed := true), true)
    else if L.solution.value && !t.cfg.force then (L, true)
    else if t.cfg.kmers[i] != Min(t.cfg.kmers) then (L, false)
    else if L.lastA.None? || |t.cfg.abundances| == 0 then (L.(crashed := true), true)
    else if L.lastA.value != Min(t.cfg.abundances) then (L, false)
    else if L.output.None? then (L.(crashed := true), true)
    else if |L.output.value| == 0 then (L.(output := Some([[t.gap.line]])), false)
    else (L, false)
  }

  /** The outer loop from k position i on. */
  function OuterLoop(t: Task, res: (nat, nat) -> Outcome, L: Locals, i: nat): Locals
    requires i <= |t.cfg.kmers|
    decreases |t.cfg.kmers| - i
  {
    if i == |t.cfg.kmers| then L
    else
      var after := AfterInner(t, InnerLoop(t, res, L, i, 0), i);
      if after.1 then after.0 else OuterLoop(t, res, after.0, i + 1)
  }

  function SweepLocals(t: Task): Locals
  {
    OuterLoop(t, Outcomes(t), Start, 0)
  }

  /** The `output_for_gfa` returned by the sweep; `None` when the task raised
      (including an unbound `output_for_gfa` at the `return`). */
  function SweepOutput(t: Task): Option<seq<Entry>>
  {
    var L := SweepLocals(t);
    if L.crashed || L.output.None? then None else L.output
  }

  // ------------------------------------------------------------------
  // The sweep as mtglink.py runs it
  // ------------------------------------------------------------------

  /** The inner loop over the abundance thresholds for k position i, as mtglink.py runs it,
      starting from the loop variables left by the previous k. */
  method RunInner(t: Task, i: nat, bkpt: Breakpoints, L0: Locals) returns (L: Locals)
    requires i < |t.cfg.kmers| && !L0.crashed
    requires bkpt == BreakpointsFor(t, t.cfg.kmers[i])
    ensures L == InnerLoop(t, Outcomes(t), L0, i, 0)
  {
    ghost var res := Outcomes(t);
    var k := t.cfg.kmers[i];
    var solution, outputForGfa, lastA, visited := L0.solution, L0.output, L0.lastA, L0.visited;
    var j := 0;
    while j < |t.cfg.abundances|
      invariant 0 <= j <= |t.cfg.abundances|
      invariant InnerLoop(t, res, L0, i, 0) == InnerLoop(t, res, Locals(solution, outputForGfa, lastA, visited, false), i, j)
    {
      ghost var before := Locals(solution, outputForGfa, lastA, visited, false);
      InnerLoopStep(t, res, before, i, j);
      var a := t.cfg.abundances[j];
      ghost var o := OutcomeAt(t, k, a);
      assert res(i, j) == o;
      var maxLength := MaxLengthCap(t.cfg.maxLength, t.gap.length);
      var run := t.tools.assemble(t.gap.gapLabel, bkpt, k, a, maxLength);
      assert run == RunAt(t, k, a);
      visited := visited + [(i, j)];
      lastA := Some(a);
      if !run.insertionFile {
        assert o.raises;
        L := Locals(solution, outputForGfa, lastA, visited, true);
        return;
      }
      if |run.records| > 0 {
        if MissingReference(t) {
          assert o.raises;
          L := Locals(solution, outputForGfa, lastA, visited, true);
          return;
        }
        if run.stats.Some? {
          var ev := EvaluateRecords(t, run.stats.value, k, run.records);
          if ev.None? {
            assert o.raises;
            L := Locals(solution, outputForGfa, lastA, visited, true);
            return;
          }
          assert o == Outcome(false, "True_2" in ev.value.solutions, Some(ev.value.output));
          outputForGfa := Some(ev.value.output);
          if "True_2" in ev.value.solutions {
            solution := Some(true);
            L := Locals(solution, outputForGfa, lastA, visited, false);
            return;
          }
          solution := Some(false);
        } else {
          assert o == Outcome(false, false, None);
          solution := Some(false);
        }
      } else {
        assert o == Outcome(false, false, Some([]));
        outputForGfa := Some([]);
        solution := Some(false);
      }
      j := j + 1;
    }
    InnerLoopEnd(t, res, Locals(solution, outputForGfa, lastA, visited, false), i, j);
    L := Locals(solution, outputForGfa, lastA, visited, false);
  }

  /** One unfolding of the inner loop. */
  lemma InnerLoopStep(t: Task, res: (nat, nat) -> Outcome, L: Locals, i: nat, j: nat)
    requires i < |t.cfg.kmers| && j < |t.cfg.abundances|
    ensures var step := Step(t, res, L, i, j);
      InnerLoop(t, res, L, i, j) == if step.1 then step.0 else InnerLoop(t, res, step.0, i, j + 1)
  {
  }

  /** The inner loop after the last a. */
  lemma InnerLoopEnd(t: Task, res: (nat, nat) -> Outcome, L: Locals, i: nat, j: nat)
    requires i < |t.cfg.kmers| && j == |t.cfg.abundances|
    ensures InnerLoop(t, res, L, i, j) == L
  {
  }

  /** The tests after the inner loop: the outer `break` when solved without `--force`, and the
      fallback gap line once the smallest k and the smallest a were the last ones tried. */
  method CheckAfterInner(t: Task, i: nat, L: Locals) returns (L': Locals, stop: bool)
    requires i < |t.cfg.kmers|
    ensures (L', stop) == AfterInner(t, L, i)
  {
    L', stop := L, false;
    if L.crashed {
      stop := true;
    } else if L.solution.None? {
      L', stop := L.(crashed := true), true;
    } else if L.solution.value && !t.cfg.force {
      stop := true;
    } else if t.cfg.kmers[i] == Min(t.cfg.kmers) {
      if L.lastA.None? || |t.cfg.abundances| == 0 {
        L', stop := L.(crashed := true), true;
      } else if L.lastA.value == Min(t.cfg.abundances) {
        if L.output.None? {
          L', stop := L.(crashed := true), true;
        } else if |L.output.value| == 0 {
          L' := L.(output := Some([[t.gap.line]]));
        }
      }
    }
  }

  /** One iteration of the outer loop: the breakpoints for k, the inner loop, and the tests after it. */
  method RunRound(t: Task, i: nat, L: Locals) returns (L': Locals, stop: bool)
    requires i < |t.cfg.kmers| && !L.crashed
    ensures (L', stop) == AfterInner(t, InnerLoop(t, Outcomes(t), L, i, 0), i)
  {
    var bkpt := BreakpointsFor(t, t.cfg.kmers[i]);
    var inner := RunInner(t, i, bkpt, L);
    L', stop := CheckAfterInner(t, i, inner);
  }

  /** The nested k x a loops of `gapfilling`. `visited` lists the (k position, a position)
      pairs the assembler was called with; `output` is `output_for_gfa`, or `None` when the task raised. */
  method RunSweep(t: Task) returns (visited: seq<(nat, nat)>, output: Option<seq<Entry>>)
    ensures visited == SweepLocals(t).visited
    ensures output == SweepOutput(t)
  {
    ghost var res := Outcomes(t);
    var L := Start;
    ghost var target := OuterLoop(t, res, L, 0);
    assert target == SweepLocals(t);
    var i := 0;
    while i < |t.cfg.kmers|
      invariant 0 <= i <= |t.cfg.kmers|
      invariant !L.crashed
      invariant target == OuterLoop(t, res, L, i)
    {
      OuterLoopStep(t, res, L, i);
      var L', stop := RunRound(t, i, L);
      if stop {
        L := L';
        assert target == L;
        break;
      }
      L := L';
      i := i + 1;
    }
    if i == |t.cfg.kmers| {
      OuterLoopEnd(t, res, L, i);
    }
    assert target == L;
    visited := L.visited;
    output := if L.crashed || L.output.None? then None else L.output;
  }

  /** One unfolding of the outer loop. */
  lemma OuterLoopStep(t: Task, res: (nat, nat) -> Outcome, L: Locals, i: nat)
    requires i < |t.cfg.kmers|
    ensures var after := AfterInner(t, InnerLoop(t, res, L, i, 0), i);
      OuterLoop(t, res, L, i) == if after.1 then after.0 else OuterLoop(t, res, after.0, i + 1)
  {
  }

  /** The outer loop after the last k. */
  lemma OuterLoopEnd(t: Task, res: (nat, nat) -> Outcome, L: Locals, i: nat)
    requires i == |t.cfg.kmers|
    ensures OuterLoop(t, res, L, i) == L
  {
  }
}
