/** The per-gap task and the top level: which gaps are processed (all of them, or those
    from the `-line` argument on), the gap-filling of each gap (barcode union, summary row
    and parameter sweep), the aggregation of the results, in input order, into the union
    summary and the output graph, and the count of gaps reported as filled. */
module Scheduler {
  import opened Wrappers
  import opened PyText
  import opened Regions
  import opened Barcodes
  import opened Sweep

  // ------------------------------------------------------------------
  // One gap
  // ------------------------------------------------------------------

  /** The barcodes of the left and the right chunk (left first), each chunk clamped to its scaffold. */
  function ChunkBarcodes(t: Task): (seq<string>, seq<string>)
  {
    (t.tools.barcodesIn(t.gap.gapLabel, t.gap.left.name, ChunkSize(t.cfg.chunk, |t.gap.left.sequence|)),
     t.tools.barcodesIn(t.gap.gapLabel, t.gap.right.name, ChunkSize(t.cfg.chunk, |t.gap.right.sequence|)))
  }

  /** The barcodes written to the union file: those seen at least `freq` times over both chunks. */
  ghost function UnionBarcodes(t: Task): set<string>
  {
    var (l, r) := ChunkBarcodes(t);
    Frequent(l + r, t.cfg.freq)
  }

  /** The summary row of a gap: its identity, the two sides, its length, the chunk argument as
      given (not the clamped size), the number of union barcodes, and a quarter of the lines of
      the union reads file (the one given by `--rbxu`, or the one extracted for the union). */
  ghost function GapSummary(t: Task): UnionSummary
  {
    var lines := if t.cfg.rbxuLines.Some? then t.cfg.rbxuLines.value else t.tools.readLines(t.gap.gapLabel, UnionBarcodes(t));
    UnionSummary(t.gap.identity, t.gap.leftId, t.gap.rightId, t.gap.length, t.cfg.chunk,
                 |UnionBarcodes(t)|, ReadCount(lines))
  }

  /** What `gapfilling` returns for one gap: the summary row and `output_for_gfa`
      (`None`: the task raised). */
  datatype GapResult = GapResult(summary: UnionSummary, output: Option<seq<Entry>>)

  /** The specified result of the task of one gap. */
  ghost function TaskResult(t: Task): GapResult
  {
    GapResult(GapSummary(t), SweepOutput(t))
  }

  /** The gap-filling of one gap, as mtglink.py runs it. */
  method Gapfilling(t: Task) returns (result: GapResult)
    ensures result == TaskResult(t)
  {
    var chunkL := ChunkSize(t.cfg.chunk, |t.gap.left.sequence|);
    var chunkR := ChunkSize(t.cfg.chunk, |t.gap.right.sequence|);
    var leftObserved := t.tools.barcodesIn(t.gap.gapLabel, t.gap.left.name, chunkL);
    var rightObserved := t.tools.barcodesIn(t.gap.gapLabel, t.gap.right.name, chunkR);
    var union := BarcodeUnion(leftObserved, rightObserved, t.cfg.freq);
    var unionSet := set b | b in union;
    assert unionSet == UnionBarcodes(t);
    DistinctCard(union);
    var lines;
    if t.cfg.rbxuLines.Some? {
      lines := t.cfg.rbxuLines.value;
    } else {
      lines := t.tools.readLines(t.gap.gapLabel, unionSet);
    }
    var summary := UnionSummary(t.gap.identity, t.gap.leftId, t.gap.rightId, t.gap.length, t.cfg.chunk,
                                |union|, ReadCount(lines));
    var _, output := RunSweep(t);
    result := GapResult(summary, output);
  }

  // ------------------------------------------------------------------
  // The input graph and the gaps to process
  // ------------------------------------------------------------------

  /** The input graph: all its lines in order, its segment lines, and its gaps. */
  datatype Gfa = Gfa(lines: seq<string>, segments: seq<string>, gaps: seq<Gap>)

  /** A line of the output graph: a text line, or the solution entry handed to the
      graph update of a filled gap. */
  datatype GraphItem = Line(text: string) | Filled(entry: Entry)

  const Header: string := "H\tVN:Z:2.0"

  function Lines(s: seq<string>): (r: seq<GraphItem>)
    ensures |r| == |s| && forall n :: 0 <= n < |s| ==> r[n] == Line(s[n])
  {
    seq(|s|, n requires 0 <= n < |s| => Line(s[n]))
  }

  /** The output graph before any gap result is added. A graph without gaps is copied line by
      line; then, without `-line`, the file is rewritten with the header and the segments (this
      second test is not an `elif`, so it also applies to a graph without gaps); with `-line`
      and gaps, the output file of an earlier run (`prior`) is extended. */
  function InitialGraph(gfa: Gfa, line: Option<int>, prior: seq<GraphItem>): (g: seq<GraphItem>)
    ensures line.None? ==> |g| == |gfa.segments| + 1 && g[0] == Line(Header)
    ensures line.None? ==> forall n :: 0 <= n < |gfa.segments| ==> g[n + 1] == Line(gfa.segments[n])
    ensures line.Some? && |gfa.gaps| == 0 ==> g == Lines(gfa.lines)
    ensures line.Some? && |gfa.gaps| > 0 ==> g == prior
  {
    var copied := if |gfa.gaps| == 0 then Lines(gfa.lines) else prior;
    if line.None? then [Line(Header)] + Lines(gfa.segments) else copied
  }

  /** The gaps to process: all of them, or, with `-line`, the Python slice from position
      `line - (number of segments + 2)` on. */
  function GapsToProcess(gfa: Gfa, line: Option<int>): (gs: seq<Gap>)
    ensures line.None? ==> gs == gfa.gaps
    ensures |gs| <= |gfa.gaps| && (line.Some? ==> gs == gfa.gaps[|gfa.gaps| - |gs|..])
  {
    if line.None? then gfa.gaps else SliceFrom(gfa.gaps, line.value - (|gfa.segments| + 2))
  }

  /** With the header on line 1 and the segments after it, `-line` given as the line number of
      the m-th gap (from 0) resumes at that gap. */
  lemma ResumeAtGapLine(gfa: Gfa, m: nat)
    requires m <= |gfa.gaps|
    ensures GapsToProcess(gfa, Some(|gfa.segments| + 2 + m)) == gfa.gaps[m..]
  {
  }

  /** A `-line` before the first gap line is a negative Python index: it counts from the end, and
      e.g. the line just before the first gap line selects the last gap only. A `-line` past the
      end selects nothing. */
  lemma ResumeBeforeGapsCountsFromEnd(gfa: Gfa, back: nat)
    requires 0 < back <= |gfa.gaps|
    ensures GapsToProcess(gfa, Some(|gfa.segments| + 2 - back)) == gfa.gaps[|gfa.gaps| - back..]
    ensures GapsToProcess(gfa, Some(|gfa.segments| + 2 - 1)) == [gfa.gaps[|gfa.gaps| - 1]]
    ensures GapsToProcess(gfa, Some(|gfa.segments| + 3 + |gfa.gaps|)) == []
  {
  }

  /** Without gaps and without `-line`, the output is the header and the segments, not a copy of
      all the lines. */
  lemma NoGapsRewritesHeader(gfa: Gfa, prior: seq<GraphItem>)
    requires |gfa.gaps| == 0
    ensures InitialGraph(gfa, None, prior) == [Line(Header)] + Lines(gfa.segments)
    ensures GapsToProcess(gfa, None) == []
  {
  }

  // ------------------------------------------------------------------
  // Aggregation
  // ------------------------------------------------------------------

  /** What the aggregation has written: the union summary rows, the items added to the output
      graph, and whether it got to the end without an exception. */
  datatype Report = Report(rows: seq<UnionSummary>, items: seq<GraphItem>, ok: bool)

  /** The items one gap adds to the output graph: every solution entry when its first entry has
      more than one field, otherwise the first field of the first entry (the gap line);
      `None` when `output_for_gfa[0]` or `output_for_gfa[0][0]` is out of range. */
  function Contribution(o: seq<Entry>): (c: Option<seq<GraphItem>>)
    ensures c.None? <==> |o| == 0 || |o[0]| == 0
    ensures c.Some? && |o[0]| > 1 ==> |c.value| == |o| && forall n :: 0 <= n < |o| ==> c.value[n] == Filled(o[n])
    ensures c.Some? && |o[0]| == 1 ==> c.value == [Line(o[0][0])]
  {
    if |o| == 0 then None
    else if |o[0]| > 1 then Some(seq(|o|, n requires 0 <= n < |o| => Filled(o[n])))
    else if |o[0]| == 0 then None
    else Some([Line(o[0][0])])
  }

  /** The aggregation loop over the gap results (summary row and `output_for_gfa`), in order:
      each writes its row, then its contribution; an out-of-range index stops everything. */
  function Aggregate(results: seq<(UnionSummary, seq<Entry>)>): Report
  {
    if results == [] then Report([], [], true)
    else
      var R := Aggregate(results[..|results| - 1]);
      if !R.ok then R
      else
        var (summary, o) := results[|results| - 1];
        match Contribution(o)
        case None => Report(R.rows + [summary], R.items, false)
        case Some(c) => Report(R.rows + [summary], R.items + c, true)
  }

  /** The aggregation as mtglink.py runs it. */
  method AggregateResults(results: seq<(UnionSummary, seq<Entry>)>) returns (rows: seq<UnionSummary>, items: seq<GraphItem>, ok: bool)
    ensures Report(rows, items, ok) == Aggregate(results)
  {
    rows, items, ok := [], [], true;
    var n := 0;
    while n < |results|
      invariant 0 <= n <= |results|
      invariant Aggregate(results[..n]) == Report(rows, items, true)
    {
      assert results[..n + 1][..n] == results[..n];
      var (summary, o) := results[n];
      rows := rows + [summary];
      if |o| == 0 {
        ok := false;
        AggregateStopsAtFailure(results, n + 1);
        return;
      }
      if |o[0]| > 1 {
        var c := Contribution(o).value;
        var m := 0;
        while m < |o|
          invariant 0 <= m <= |o|
          invariant Aggregate(results[..n + 1]).items == items + c[m..]
        {
          assert c[m..] == [Filled(o[m])] + c[m + 1..];
          items := items + [Filled(o[m])];
          m := m + 1;
        }
      } else if |o[0]| == 0 {
        ok := false;
        AggregateStopsAtFailure(results, n + 1);
        return;
      } else {
        items := items + [Line(o[0][0])];
      }
      n := n + 1;
    }
    assert results[..n] == results;
  }

  /** Once a result raised, the aggregation result no longer changes. */
  lemma {:induction false} AggregateStopsAtFailure(results: seq<(UnionSummary, seq<Entry>)>, n: nat)
    requires n <= |results| && !Aggregate(results[..n]).ok
    ensures Aggregate(results) == Aggregate(results[..n])
    decreases |results| - n
  {
    if n < |results| {
      assert results[..n + 1][..n] == results[..n];
      AggregateStopsAtFailure(results, n + 1);
      assert results[..|results|] == results;
    } else {
      assert results[..n] == results;
    }
  }

  /** The aggregation of two lists of results, one after the other: the rows and the items of
      the first, followed by those of the second. */
  lemma {:induction false} AggregateAppend(a: seq<(UnionSummary, seq<Entry>)>, b: seq<(UnionSummary, seq<Entry>)>)
    requires Aggregate(a).ok
    ensures Aggregate(a + b).rows == Aggregate(a).rows + Aggregate(b).rows
    ensures Aggregate(a + b).items == Aggregate(a).items + Aggregate(b).items
    ensures Aggregate(a + b).ok == Aggregate(b).ok
  {
    if b == [] {
      assert a + b == a;
    } else {
      var b0 := b[..|b| - 1];
      assert (a + b)[..|a + b| - 1] == a + b0;
      assert (a + b)[|a + b| - 1] == b[|b| - 1];
      AggregateAppend(a, b0);
      if Aggregate(b0).ok {
        assert Aggregate(a + b0).ok;
        if Contribution(b[|b| - 1].1).None? {
          assert Aggregate(a + b).rows == Aggregate(a + b0).rows + [b[|b| - 1].0];
        } else {
          assert Aggregate(a + b).items == Aggregate(a + b0).items + Contribution(b[|b| - 1].1).value;
        }
      }
    }
  }

  /** Every result writes its summary row, in input order, up to and including the first one
      that raises; all of them when none raises. */
  lemma {:induction false} AggregateRows(results: seq<(UnionSummary, seq<Entry>)>)
    ensures var R := Aggregate(results);
      && |R.rows| <= |results|
      && (forall n :: 0 <= n < |R.rows| ==> R.rows[n] == results[n].0)
      && (R.ok <==> forall n :: 0 <= n < |results| ==> Contribution(results[n].1).Some?)
      && (R.ok ==> |R.rows| == |results|)
  {
    if results != [] {
      var init := results[..|results| - 1];
      AggregateRows(init);
      var R0 := Aggregate(init);
      var R := Aggregate(results);
      forall n | 0 <= n < |R.rows| ensures R.rows[n] == results[n].0 {
        if n < |R0.rows| {
          assert R.rows[n] == R0.rows[n] && results[n] == init[n];
        }
      }
      if R.ok {
        forall n | 0 <= n < |results| ensures Contribution(results[n].1).Some? {
          if n < |init| { assert results[n] == init[n]; }
        }
      }
      if !R0.ok {
        var n :| 0 <= n < |init| && Contribution(init[n].1).None?;
        assert results[n] == init[n];
      }
    }
  }

  /** A gap's entry is the gap line alone (its first entry has one field that is a G line). */
  predicate Unfilled(o: seq<Entry>)
  {
    |o| > 0 && |o[0]| == 1 && IsGapLine(o[0][0])
  }

  /** A GFA 2 gap line. */
  predicate IsGapLine(s: string)
  {
    |s| >= 2 && s[..2] == "G\t"
  }

  /** The number of gap lines in a graph (solution entries are not lines of the input graph). */
  function GapLines(g: seq<GraphItem>): (n: nat)
    ensures n <= |g|
  {
    if g == [] then 0 else GapLines(g[..|g| - 1]) + (if g[|g| - 1].Line? && IsGapLine(g[|g| - 1].text) then 1 else 0)
  }

  lemma {:induction false} GapLinesAppend(a: seq<GraphItem>, b: seq<GraphItem>)
    ensures GapLines(a + b) == GapLines(a) + GapLines(b)
  {
    if b == [] {
      assert a + b == a;
    } else {
      assert (a + b)[..|a + b| - 1] == a + b[..|b| - 1];
      GapLinesAppend(a, b[..|b| - 1]);
    }
  }

  function CountUnfilled(results: seq<(UnionSummary, seq<Entry>)>): nat
  {
    if results == [] then 0 else CountUnfilled(results[..|results| - 1]) + (if Unfilled(results[|results| - 1].1) then 1 else 0)
  }

  /** The gap lines added by the aggregation are those of the gaps left unfilled. */
  lemma {:induction false} AggregateGapLines(results: seq<(UnionSummary, seq<Entry>)>)
    requires Aggregate(results).ok
    ensures GapLines(Aggregate(results).items) == CountUnfilled(results)
  {
    if results != [] {
      var init := results[..|results| - 1];
      var o := results[|results| - 1].1;
      AggregateGapLines(init);
      var c := Contribution(o).value;
      GapLinesAppend(Aggregate(init).items, c);
      if |o[0]| > 1 {
        FilledAddsNoGapLine(o, c);
      } else {
        assert c[..0] == [];
      }
    }
  }

  lemma {:induction false} FilledAddsNoGapLine(o: seq<Entry>, c: seq<GraphItem>)
    requires |c| == |o| && forall n :: 0 <= n < |o| ==> c[n] == Filled(o[n])
    ensures GapLines(c) == 0
    decreases |c|
  {
    if c != [] {
      FilledAddsNoGapLine(o[..|o| - 1], c[..|c| - 1]);
    }
  }

  // ------------------------------------------------------------------
  // The whole run
  // ------------------------------------------------------------------

  /** The results of the gap tasks, in the order of the gaps (the pool's map keeps it). */
  ghost function GapResults(cfg: Config, tools: Tools, gaps: seq<Gap>): (rs: seq<GapResult>)
    ensures |rs| == |gaps|
  {
    if gaps == [] then []
    else GapResults(cfg, tools, gaps[..|gaps| - 1]) + [TaskResult(Task(cfg, gaps[|gaps| - 1], tools))]
  }

  /** The results given to the aggregation when no task raised. */
  function Completed(rs: seq<GapResult>): (done: seq<(UnionSummary, seq<Entry>)>)
    requires forall n :: 0 <= n < |rs| ==> rs[n].output.Some?
    ensures |done| == |rs| && forall n :: 0 <= n < |rs| ==> done[n] == (rs[n].summary, rs[n].output.value)
  {
    seq(|rs|, n requires 0 <= n < |rs| => (rs[n].summary, rs[n].output.value))
  }

  /** The output graph, the union summary rows and the verdict of a run: nothing is aggregated
      when a gap task raised (the pool's map raises before the loop); otherwise the initial
      graph followed by the aggregated items. */
  ghost function RunReport(cfg: Config, tools: Tools, gfa: Gfa, line: Option<int>, prior: seq<GraphItem>): Report
  {
    var rs := GapResults(cfg, tools, GapsToProcess(gfa, line));
    var g0 := InitialGraph(gfa, line, prior);
    if exists n :: 0 <= n < |rs| && rs[n].output.None? then Report([], g0, false)
    else
      var R := Aggregate(Completed(rs));
      Report(R.rows, g0 + R.items, R.ok)
  }

  /** The pool's map over the gaps, as a sequential loop. */
  method MapGapfilling(cfg: Config, tools: Tools, gaps: seq<Gap>) returns (rs: seq<GapResult>)
    ensures rs == GapResults(cfg, tools, gaps)
  {
    rs := [];
    var n := 0;
    while n < |gaps|
      invariant 0 <= n <= |gaps|
      invariant rs == GapResults(cfg, tools, gaps[..n])
    {
      var r := Gapfilling(Task(cfg, gaps[n], tools));
      assert gaps[..n + 1][..n] == gaps[..n];
      rs := rs + [r];
      n := n + 1;
    }
    assert gaps[..n] == gaps;
  }

  /** Whether some gap task raised (the map then raises too). */
  method AnyRaised(rs: seq<GapResult>) returns (raised: bool)
    ensures raised <==> exists n :: 0 <= n < |rs| && rs[n].output.None?
  {
    raised := false;
    var m := 0;
    while m < |rs|
      invariant 0 <= m <= |rs|
      invariant raised <==> exists i :: 0 <= i < m && rs[i].output.None?
    {
      if rs[m].output.None? {
        raised := true;
      }
      m := m + 1;
    }
  }

  /** The top level as mtglink.py runs it. */
  method Run(cfg: Config, tools: Tools, gfa: Gfa, line: Option<int>, prior: seq<GraphItem>) returns (report: Report)
    ensures report == RunReport(cfg, tools, gfa, line, prior)
  {
    var graph := InitialGraph(gfa, line, prior);
    var gaps := GapsToProcess(gfa, line);
    var rs := MapGapfilling(cfg, tools, gaps);
    var raised := AnyRaised(rs);
    if raised {
      report := Report([], graph, false);
      return;
    }
    var rows, items, ok := AggregateResults(Completed(rs));
    report := Report(rows, graph + items, ok);
  }

  /** The number of gaps reported as filled: all the gaps of the input graph minus the gap lines
      of the output graph. */
  function FilledCount(gfa: Gfa, output: seq<GraphItem>): int
  {
    |gfa.gaps| - GapLines(output)
  }

  /** Without `-line`, when nothing raised and no segment line is a gap line, the count reported
      is the number of gaps whose result is not their gap line alone; every gap writes one
      summary row, in input order. */
  lemma FilledCountMeaning(cfg: Config, tools: Tools, gfa: Gfa, prior: seq<GraphItem>)
    requires forall s :: s in gfa.segments ==> !IsGapLine(s)
    requires RunReport(cfg, tools, gfa, None, prior).ok
    ensures var rs := GapResults(cfg, tools, gfa.gaps);
      && (forall n :: 0 <= n < |rs| ==> rs[n].output.Some?)
      && FilledCount(gfa, RunReport(cfg, tools, gfa, None, prior).items) == |gfa.gaps| - CountUnfilled(Completed(rs))
      && |RunReport(cfg, tools, gfa, None, prior).rows| == |gfa.gaps|
      && forall n :: 0 <= n < |gfa.gaps| ==> RunReport(cfg, tools, gfa, None, prior).rows[n] == rs[n].summary
  {
    var rs := GapResults(cfg, tools, gfa.gaps);
    var done := Completed(rs);
    var g0 := InitialGraph(gfa, None, prior);
    AggregateGapLines(done);
    AggregateRows(done);
    GapLinesAppend(g0, Aggregate(done).items);
    HeaderAndSegmentsHaveNoGapLine(gfa.segments);
  }

  lemma {:induction false} HeaderAndSegmentsHaveNoGapLine(segments: seq<string>)
    requires forall s :: s in segments ==> !IsGapLine(s)
    ensures GapLines([Line(Header)] + Lines(segments)) == 0
    decreases |segments|
  {
    var g := [Line(Header)] + Lines(segments);
    if segments != [] {
      var init := segments[..|segments| - 1];
      assert g[..|g| - 1] == [Line(Header)] + Lines(init);
      assert segments[|segments| - 1] in segments;
      HeaderAndSegmentsHaveNoGapLine(init);
    } else {
      assert g[..0] == [];
      assert Header[..2][0] == 'H';
    }
  }
}
