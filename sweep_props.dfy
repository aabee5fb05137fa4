/** Properties of the sweep: what the candidate loop records, the order in which
    (k, a) pairs are tried, when the sweep stops, what `output_for_gfa` ends as,
    and mtglink.py's quirks. */
module SweepProperties {
  import opened Wrappers
  import opened PyText
  import opened Records
  import opened Sweep

  // ------------------------------------------------------------------
  // The candidate loop
  // ------------------------------------------------------------------

  /** The candidate loop raises exactly when some candidate has no strand digit. */
  lemma {:induction false} CandidateLoopRaises(accept: Record -> bool, strand: Record -> Option<char>, entry: Record -> Entry, recs: seq<Record>)
    ensures CandidateLoop(accept, strand, entry, recs).Some? <==> forall r :: r in recs ==> strand(r).Some?
  {
    if recs != [] {
      var init := recs[..|recs| - 1];
      assert forall x :: x in recs <==> x in init || x == recs[|recs| - 1];
      CandidateLoopRaises(accept, strand, entry, init);
    }
  }

  /** `solutions` has one entry per candidate, in order: its verdict and its strand digit. */
  lemma {:induction false} CandidateLoopSolutions(accept: Record -> bool, strand: Record -> Option<char>, entry: Record -> Entry, recs: seq<Record>)
    requires CandidateLoop(accept, strand, entry, recs).Some?
    ensures var sols := CandidateLoop(accept, strand, entry, recs).value.solutions;
      && |sols| == |recs|
      && forall n :: 0 <= n < |recs| ==>
           strand(recs[n]).Some? && sols[n] == Mark(accept(recs[n]), strand(recs[n]).value)
  {
    if recs != [] {
      var init := recs[..|recs| - 1];
      var last := recs[|recs| - 1];
      CandidateLoopSolutions(accept, strand, entry, init);
      var sols0 := CandidateLoop(accept, strand, entry, init).value.solutions;
      var m := Mark(accept(last), strand(last).value);
      assert CandidateLoop(accept, strand, entry, recs).value.solutions == sols0 + [m];
      forall n | 0 <= n < |init|
        ensures (sols0 + [m])[n] == sols0[n] && recs[n] == init[n]
      {
      }
    }
  }

  /** `output_for_gfa` holds exactly the entries of the accepted candidates: a rejected
      candidate adds nothing to it. */
  lemma {:induction false} CandidateLoopOutput(accept: Record -> bool, strand: Record -> Option<char>, entry: Record -> Entry, recs: seq<Record>)
    requires CandidateLoop(accept, strand, entry, recs).Some?
    ensures forall e :: e in CandidateLoop(accept, strand, entry, recs).value.output <==>
      exists r :: r in recs && accept(r) && e == entry(r)
  {
    if recs != [] {
      var init := recs[..|recs| - 1];
      var last := recs[|recs| - 1];
      assert forall x :: x in recs <==> x in init || x == last;
      CandidateLoopOutput(accept, strand, entry, init);
    }
  }

  /** The stop test holds exactly when some accepted candidate has strand digit 2. */
  lemma StopTestMeaning(accept: Record -> bool, strand: Record -> Option<char>, entry: Record -> Entry, recs: seq<Record>)
    requires CandidateLoop(accept, strand, entry, recs).Some?
    ensures "True_2" in CandidateLoop(accept, strand, entry, recs).value.solutions <==>
      exists r :: r in recs && accept(r) && strand(r) == Some('2')
  {
    var sols := CandidateLoop(accept, strand, entry, recs).value.solutions;
    CandidateLoopSolutions(accept, strand, entry, recs);
    if "True_2" in sols {
      var n :| 0 <= n < |sols| && sols[n] == "True_2";
      assert recs[n] in recs;
    }
    if exists r :: r in recs && accept(r) && strand(r) == Some('2') {
      var r :| r in recs && accept(r) && strand(r) == Some('2');
      var n :| 0 <= n < |recs| && recs[n] == r;
      assert sols[n] == "True_2";
    }
  }

  /** The run for (k, a) is solved exactly when it left an insertion file with candidates,
      the reference file (when a reference directory is given) was found, the statistics
      exist, every candidate has a strand digit, and an accepted candidate of strand 2 is
      among them. */
  lemma SolvedMeansAcceptedReverse(t: Task, k: int, a: int)
    ensures OutcomeAt(t, k, a).solved <==>
      var run := RunAt(t, k, a);
      && run.insertionFile && |run.records| > 0 && !MissingReference(t) && run.stats.Some?
      && (forall r :: r in run.records ==> StrandOf(r).Some?)
      && exists r :: r in run.records && IsAccepted(t, run.stats.value, r) && StrandOf(r) == Some('2')
  {
    var run := RunAt(t, k, a);
    if run.insertionFile && |run.records| > 0 && !MissingReference(t) && run.stats.Some? {
      var stats := run.stats.value;
      var accept := r => IsAccepted(t, stats, r);
      var entry := r => t.tools.place(Scored(t, stats, r), k, t.gap);
      CandidateLoopRaises(accept, StrandOf, entry, run.records);
      if CandidateLoop(accept, StrandOf, entry, run.records).Some? {
        StopTestMeaning(accept, StrandOf, entry, run.records);
      }
    }
  }

  /** The stop condition `"True_1" and "True_2" in solutions` of mtglink.py is `"True_2" in solutions`. */
  predicate LiteralStop(solutions: seq<string>)
  {
    "True_2" in solutions
  }

  /** What the comment beside that condition describes: a good solution on both strands. */
  predicate BothStrands(solutions: seq<string>)
  {
    "True_1" in solutions && "True_2" in solutions
  }

  /** The two conditions differ: the literal one stops with the reverse strand alone,
      and it is implied by the intended one. */
  lemma LiteralStopIsWeaker()
    ensures LiteralStop(["True_2"]) && !BothStrands(["True_2"])
    ensures LiteralStop(["False_1", "True_2"]) && !BothStrands(["False_1", "True_2"])
    ensures forall s :: BothStrands(s) ==> LiteralStop(s)
  {
    assert ["True_2"][0] == "True_2";
    assert "True_1" != "True_2";
    assert ["False_1", "True_2"][1] == "True_2";
    assert "False_1" != "True_1";
  }

  // ------------------------------------------------------------------
  // The order of the (k, a) pairs
  // ------------------------------------------------------------------

  predicate InRange(t: Task, p: (nat, nat))
  {
    p.0 < |t.cfg.kmers| && p.1 < |t.cfg.abundances|
  }

  /** The pair tried after (i, j) if the sweep goes on: the next abundance for the same k,
      or the first abundance of the next k after the inner break or the last abundance. */
  function Next(t: Task, res: (nat, nat) -> Outcome, i: nat, j: nat): (nat, nat)
  {
    if res(i, j).solved || j + 1 >= |t.cfg.abundances| then (i + 1, 0) else (i, j + 1)
  }

  /** A trace of assembler calls that starts at the first pair, moves by `Next`, and
      (without `--force`) never goes past a solved pair. */
  predicate Ordered(t: Task, res: (nat, nat) -> Outcome, v: seq<(nat, nat)>)
  {
    && (forall n :: 0 <= n < |v| ==> InRange(t, v[n]))
    && (|v| > 0 ==> v[0] == (0, 0))
    && (forall n :: 0 <= n < |v| - 1 ==> v[n + 1] == Next(t, res, v[n].0, v[n].1))
    && (forall n :: 0 <= n < |v| - 1 ==> !res(v[n].0, v[n].1).raises)
    && (!t.cfg.force ==> forall n :: 0 <= n < |v| - 1 ==> !res(v[n].0, v[n].1).solved)
  }

  /** The trace `v` may be continued with the pair `p`. */
  predicate ContinuesAt(t: Task, res: (nat, nat) -> Outcome, v: seq<(nat, nat)>, p: (nat, nat))
  {
    && (|v| == 0 ==> p == (0, 0))
    && (|v| > 0 ==>
          var q := v[|v| - 1];
          && Next(t, res, q.0, q.1) == p
          && !res(q.0, q.1).raises
          && (!t.cfg.force ==> !res(q.0, q.1).solved))
  }

  lemma {:induction false} AppendOrdered(t: Task, res: (nat, nat) -> Outcome, v: seq<(nat, nat)>, p: (nat, nat))
    requires Ordered(t, res, v) && InRange(t, p) && ContinuesAt(t, res, v, p)
    ensures Ordered(t, res, v + [p])
  {
    var w := v + [p];
    forall n | 0 <= n < |w| - 1
      ensures w[n + 1] == Next(t, res, w[n].0, w[n].1) && !res(w[n].0, w[n].1).raises
      ensures !t.cfg.force ==> !res(w[n].0, w[n].1).solved
    {
      assert w[n] == v[n];
      if n < |v| - 1 {
        assert w[n + 1] == v[n + 1];
      }
    }
  }

  /** The loop variables after a trace: `solution` tells whether the last pair was solved,
      and is unbound before the first call. */
  predicate SolutionOfLast(res: (nat, nat) -> Outcome, L: Locals)
  {
    && (|L.visited| == 0 ==> L.solution.None?)
    && (|L.visited| > 0 ==> L.solution == Some(res(L.visited[|L.visited| - 1].0, L.visited[|L.visited| - 1].1).solved))
  }

  /** The inner loop keeps the trace ordered and, unless it raised, leaves it ready to go on at
      the next k. */
  lemma {:induction false} InnerOrdered(t: Task, res: (nat, nat) -> Outcome, L: Locals, i: nat, j: nat)
    requires i < |t.cfg.kmers| && j <= |t.cfg.abundances| && !L.crashed
    requires Ordered(t, res, L.visited) && ContinuesAt(t, res, L.visited, (i, j)) && SolutionOfLast(res, L)
    requires j == |t.cfg.abundances| ==> |t.cfg.abundances| == 0
    ensures var R := InnerLoop(t, res, L, i, j);
      && Ordered(t, res, R.visited)
      && (R.crashed ==> |R.visited| > 0 && res(R.visited[|R.visited| - 1].0, R.visited[|R.visited| - 1].1).raises)
      && (!R.crashed ==>
            && SolutionOfLast(res, R)
            && (|R.visited| > 0 ==> !res(R.visited[|R.visited| - 1].0, R.visited[|R.visited| - 1].1).raises)
            && ((j == |t.cfg.abundances| && R == L) || (|R.visited| > 0 && Next(t, res, R.visited[|R.visited| - 1].0, R.visited[|R.visited| - 1].1) == (i + 1, 0))))
    decreases |t.cfg.abundances| - j
  {
    if j < |t.cfg.abundances| {
      var (L1, stop) := Step(t, res, L, i, j);
      AppendOrdered(t, res, L.visited, (i, j));
      assert L1.visited[|L1.visited| - 1] == (i, j);
      if !stop {
        if j + 1 < |t.cfg.abundances| {
          InnerOrdered(t, res, L1, i, j + 1);
        } else {
          assert InnerLoop(t, res, L1, i, j + 1) == L1;
        }
      }
    }
  }

  /** The tests after the inner loop touch neither the trace nor `solution`; the sweep goes on
      only when nothing raised, `solution` is bound, and it is false or `--force` is given. */
  lemma AfterInnerFacts(t: Task, L: Locals, i: nat)
    requires i < |t.cfg.kmers|
    ensures var (L', stop) := AfterInner(t, L, i);
      && L'.visited == L.visited && L'.solution == L.solution
      && (L.crashed ==> stop)
      && (!stop ==> !L'.crashed && L.solution.Some? && (L.solution.value ==> t.cfg.force))
  {
  }

  /** The tests after the inner loop for k position i, applied to an ordered trace whose last
      pair leads to the next k: the sweep either goes on there or stops at an exception or at
      a solved pair without `--force`. */
  lemma AfterInnerContinues(t: Task, res: (nat, nat) -> Outcome, R1: Locals, i: nat)
    requires i < |t.cfg.kmers| && Ordered(t, res, R1.visited)
    requires !R1.crashed ==> SolutionOfLast(res, R1)
    requires !R1.crashed && |R1.visited| > 0 ==>
      var q := R1.visited[|R1.visited| - 1]; !res(q.0, q.1).raises && Next(t, res, q.0, q.1) == (i + 1, 0)
    ensures var after := AfterInner(t, R1, i); var R2, stop := after.0, after.1;
      && R2.visited == R1.visited
      && (!stop ==> !R2.crashed && ContinuesAt(t, res, R2.visited, (i + 1, 0)) && SolutionOfLast(res, R2))
      && (stop ==>
            || R2.crashed
            || (|R2.visited| > 0 && res(R2.visited[|R2.visited| - 1].0, R2.visited[|R2.visited| - 1].1).solved && !t.cfg.force))
  {
    AfterInnerFacts(t, R1, i);
  }

  /** One iteration of the outer loop on an ordered trace ready for k position i. */
  lemma RoundOrdered(t: Task, res: (nat, nat) -> Outcome, L: Locals, i: nat)
    requires i < |t.cfg.kmers| && !L.crashed
    requires Ordered(t, res, L.visited) && ContinuesAt(t, res, L.visited, (i, 0)) && SolutionOfLast(res, L)
    ensures var after := AfterInner(t, InnerLoop(t, res, L, i, 0), i); var R2, stop := after.0, after.1;
      && Ordered(t, res, R2.visited)
      && (!stop ==> !R2.crashed && ContinuesAt(t, res, R2.visited, (i + 1, 0)) && SolutionOfLast(res, R2))
      && (stop ==>
            || R2.crashed
            || (|R2.visited| > 0 && res(R2.visited[|R2.visited| - 1].0, R2.visited[|R2.visited| - 1].1).solved && !t.cfg.force))
  {
    var R1 := InnerLoop(t, res, L, i, 0);
    InnerOrdered(t, res, L, i, 0);
    AfterInnerContinues(t, res, R1, i);
  }

  /** How the outer loop may leave a trace: by an exception, with no call at all, at a solved
      pair without `--force`, or with the last pair leading past the last k. */
  predicate EndsWell(t: Task, res: (nat, nat) -> Outcome, R: Locals)
  {
    || R.crashed || |R.visited| == 0
    || (res(R.visited[|R.visited| - 1].0, R.visited[|R.visited| - 1].1).solved && !t.cfg.force)
    || Next(t, res, R.visited[|R.visited| - 1].0, R.visited[|R.visited| - 1].1).0 == |t.cfg.kmers|
  }

  /** The outer loop keeps the trace ordered and ends it only by an exception, by a solved pair
      without `--force`, or after the last k. */
  lemma {:induction false} OuterOrdered(t: Task, res: (nat, nat) -> Outcome, L: Locals, i: nat)
    requires i <= |t.cfg.kmers| && !L.crashed
    requires Ordered(t, res, L.visited) && ContinuesAt(t, res, L.visited, (i, 0)) && SolutionOfLast(res, L)
    ensures Ordered(t, res, OuterLoop(t, res, L, i).visited)
    ensures EndsWell(t, res, OuterLoop(t, res, L, i))
    decreases |t.cfg.kmers| - i
  {
    if i < |t.cfg.kmers| {
      RoundOrdered(t, res, L, i);
      OuterLoopStep(t, res, L, i);
      var after := AfterInner(t, InnerLoop(t, res, L, i, 0), i);
      if !after.1 {
        OuterOrdered(t, res, after.0, i + 1);
      }
    } else {
      OuterLoopEnd(t, res, L, i);
    }
  }

  /** The sweep's trace of assembler calls: it starts at the first k and the first a; each
      call is followed by the next a for the same k, or by the first a of the next k when
      the pair was solved (whatever `--force` says) or was the last a; without `--force`
      nothing follows a solved pair; and unless the task raised, the sweep ends only at a
      solved pair without `--force` or after trying the last k. */
  lemma SweepOrder(t: Task)
    ensures Ordered(t, Outcomes(t), SweepLocals(t).visited)
    ensures var L := SweepLocals(t);
      L.crashed || |L.visited| == 0
      || (Outcomes(t)(L.visited[|L.visited| - 1].0, L.visited[|L.visited| - 1].1).solved && !t.cfg.force)
      || Next(t, Outcomes(t), L.visited[|L.visited| - 1].0, L.visited[|L.visited| - 1].1).0 == |t.cfg.kmers|
    ensures |t.cfg.kmers| > 0 && |t.cfg.abundances| > 0 ==> |SweepLocals(t).visited| > 0
  {
    OuterOrdered(t, Outcomes(t), Start, 0);
    OuterTries(t, Outcomes(t));
  }

  /** An inner loop with an abundance left to try calls the assembler at least once. */
  lemma {:induction false} InnerGrows(t: Task, res: (nat, nat) -> Outcome, L: Locals, i: nat, j: nat)
    requires i < |t.cfg.kmers| && j < |t.cfg.abundances|
    ensures |InnerLoop(t, res, L, i, j).visited| > |L.visited|
    decreases |t.cfg.abundances| - j
  {
    InnerLoopStep(t, res, L, i, j);
    var step := Step(t, res, L, i, j);
    if !step.1 {
      if j + 1 < |t.cfg.abundances| {
        InnerGrows(t, res, step.0, i, j + 1);
      } else {
        InnerLoopEnd(t, res, step.0, i, j + 1);
      }
    }
  }

  /** The outer loop never drops a call from the trace. */
  lemma {:induction false} OuterNoShrink(t: Task, res: (nat, nat) -> Outcome, L: Locals, i: nat)
    requires i <= |t.cfg.kmers|
    ensures |OuterLoop(t, res, L, i).visited| >= |L.visited|
    decreases |t.cfg.kmers| - i
  {
    if i < |t.cfg.kmers| {
      OuterLoopStep(t, res, L, i);
      if |t.cfg.abundances| > 0 {
        InnerGrows(t, res, L, i, 0);
      } else {
        InnerLoopEnd(t, res, L, i, 0);
      }
      var R1 := InnerLoop(t, res, L, i, 0);
      AfterInnerFacts(t, R1, i);
      var after := AfterInner(t, R1, i);
      if !after.1 {
        OuterNoShrink(t, res, after.0, i + 1);
      }
    } else {
      OuterLoopEnd(t, res, L, i);
    }
  }

  /** With both lists non-empty, the sweep calls the assembler at least once (at the first k and the first a). */
  lemma OuterTries(t: Task, res: (nat, nat) -> Outcome)
    ensures |t.cfg.kmers| > 0 && |t.cfg.abundances| > 0 ==> |OuterLoop(t, res, Start, 0).visited| > 0
  {
    if |t.cfg.kmers| > 0 && |t.cfg.abundances| > 0 {
      OuterLoopStep(t, res, Start, 0);
      InnerGrows(t, res, Start, 0, 0);
      var R1 := InnerLoop(t, res, Start, 0, 0);
      AfterInnerFacts(t, R1, 0);
      var after := AfterInner(t, R1, 0);
      if !after.1 {
        OuterNoShrink(t, res, after.0, 1);
      }
    }
  }

  /** Pairs are tried in list order: lexicographically increasing positions. */
  lemma {:induction false} OrderedIncreasing(t: Task, res: (nat, nat) -> Outcome, v: seq<(nat, nat)>, m: nat, n: nat)
    requires Ordered(t, res, v) && m < n < |v|
    ensures v[m].0 < v[n].0 || (v[m].0 == v[n].0 && v[m].1 < v[n].1)
    decreases n - m
  {
    if m + 1 < n {
      OrderedIncreasing(t, res, v, m, n - 1);
      OrderedIncreasing(t, res, v, n - 1, n);
    }
  }

  /** Each (k, a) value pair is tried at most once when the lists have no repeated values. */
  lemma NoPairTwice(t: Task, res: (nat, nat) -> Outcome, v: seq<(nat, nat)>, m: nat, n: nat)
    requires Distinct(t.cfg.kmers) && Distinct(t.cfg.abundances)
    requires Ordered(t, res, v) && m < n < |v|
    ensures (t.cfg.kmers[v[m].0], t.cfg.abundances[v[m].1]) != (t.cfg.kmers[v[n].0], t.cfg.abundances[v[n].1])
  {
    OrderedIncreasing(t, res, v, m, n);
  }

  // ------------------------------------------------------------------
  // What `output_for_gfa` ends as
  // ------------------------------------------------------------------

  /** The value of `output_for_gfa` written by the last run of trace `v` that wrote one
      (`None`: no run wrote it, so it is still unbound). */
  function LastWritten(res: (nat, nat) -> Outcome, v: seq<(nat, nat)>): Option<seq<Entry>>
  {
    if v == [] then None
    else
      var p := v[|v| - 1];
      if res(p.0, p.1).output.Some? then res(p.0, p.1).output else LastWritten(res, v[..|v| - 1])
  }

  /** Pair `p` is at the smallest k and the smallest a. */
  predicate AtSmallest(t: Task, p: (nat, nat))
  {
    InRange(t, p) && t.cfg.kmers[p.0] == Min(t.cfg.kmers) && t.cfg.abundances[p.1] == Min(t.cfg.abundances)
  }

  /** The pair at position n of trace `v` is the last one of its k (the pair whose `a` the
      test after the inner loop reads), and no later run writes `output_for_gfa`. */
  predicate ClosesRound(res: (nat, nat) -> Outcome, v: seq<(nat, nat)>, n: nat)
    requires n < |v|
  {
    && (forall m :: n < m < |v| ==> v[m].0 > v[n].0)
    && (forall m :: n < m < |v| ==> res(v[m].0, v[m].1).output.None?)
  }

  /** The fallback fired after some k position below i and is still in force: the last value
      written was empty, and some pair at the smallest k and the smallest a closed its round
      with no write after it. */
  predicate FallbackBefore(t: Task, res: (nat, nat) -> Outcome, v: seq<(nat, nat)>, i: nat)
  {
    && LastWritten(res, v) == Some([])
    && exists n :: 0 <= n < |v| && v[n].0 < i && AtSmallest(t, v[n]) && ClosesRound(res, v, n)
  }

  /** The fallback fired in trace `v` and is still in force. */
  predicate Fallback(t: Task, res: (nat, nat) -> Outcome, v: seq<(nat, nat)>)
  {
    FallbackBefore(t, res, v, |t.cfg.kmers|)
  }

  /** Every solved run writes a non-empty `output_for_gfa`. */
  ghost predicate SolvedWrites(res: (nat, nat) -> Outcome)
  {
    forall i: nat, j: nat :: res(i, j).solved ==> res(i, j).output.Some? && res(i, j).output.value != []
  }

  /** While nothing raised, in the round of k position i: `solution` is about the last pair,
      no pair is past round i, `a` is the abundance of the last pair tried (unbound before the
      first), and `output_for_gfa` is the original gap line exactly when the fallback fired in
      an earlier round and is still in force, and otherwise the last value written. */
  predicate OutputExact(t: Task, res: (nat, nat) -> Outcome, L: Locals, i: nat)
  {
    !L.crashed ==>
      && SolutionOfLast(res, L)
      && (forall m :: 0 <= m < |L.visited| ==> L.visited[m].0 <= i)
      && (|L.visited| == 0 ==> L.lastA.None?)
      && (|L.visited| > 0 ==>
            var q := L.visited[|L.visited| - 1];
            q.1 < |t.cfg.abundances| && L.lastA == Some(t.cfg.abundances[q.1]))
      && L.output == if FallbackBefore(t, res, L.visited, i) then Some([[t.gap.line]]) else LastWritten(res, L.visited)
  }

  lemma LastWrittenAppend(res: (nat, nat) -> Outcome, v: seq<(nat, nat)>, p: (nat, nat))
    ensures LastWritten(res, v + [p]) == if res(p.0, p.1).output.Some? then res(p.0, p.1).output else LastWritten(res, v)
  {
    assert (v + [p])[..|v|] == v;
  }

  /** A pair of round i keeps a fallback of an earlier round in force exactly when it writes nothing. */
  lemma FallbackAppend(t: Task, res: (nat, nat) -> Outcome, v: seq<(nat, nat)>, p: (nat, nat), i: nat)
    requires p.0 == i
    ensures FallbackBefore(t, res, v + [p], i) <==> FallbackBefore(t, res, v, i) && res(p.0, p.1).output.None?
  {
    if FallbackBefore(t, res, v + [p], i) {
      FallbackAppendBack(t, res, v, p, i);
    }
    if FallbackBefore(t, res, v, i) && res(p.0, p.1).output.None? {
      FallbackAppendForward(t, res, v, p, i);
    }
  }

  lemma FallbackAppendBack(t: Task, res: (nat, nat) -> Outcome, v: seq<(nat, nat)>, p: (nat, nat), i: nat)
    requires p.0 == i && FallbackBefore(t, res, v + [p], i)
    ensures FallbackBefore(t, res, v, i) && res(p.0, p.1).output.None?
  {
    var w := v + [p];
    LastWrittenAppend(res, v, p);
    var n :| 0 <= n < |w| && w[n].0 < i && AtSmallest(t, w[n]) && ClosesRound(res, w, n);
    assert n < |v| && w[n] == v[n];
    assert res(w[|v|].0, w[|v|].1).output.None?;
    forall m | n < m < |v| ensures v[m].0 > v[n].0 && res(v[m].0, v[m].1).output.None? {
      assert w[m] == v[m];
    }
    assert ClosesRound(res, v, n);
  }

  lemma FallbackAppendForward(t: Task, res: (nat, nat) -> Outcome, v: seq<(nat, nat)>, p: (nat, nat), i: nat)
    requires p.0 == i && FallbackBefore(t, res, v, i) && res(p.0, p.1).output.None?
    ensures FallbackBefore(t, res, v + [p], i)
  {
    var w := v + [p];
    LastWrittenAppend(res, v, p);
    var n :| 0 <= n < |v| && v[n].0 < i && AtSmallest(t, v[n]) && ClosesRound(res, v, n);
    assert w[n] == v[n];
    forall m | n < m < |w| ensures w[m].0 > w[n].0 && res(w[m].0, w[m].1).output.None? {
      if m < |v| { assert w[m] == v[m]; }
    }
    assert ClosesRound(res, w, n);
  }

  /** Closing round i adds one candidate witness: the last pair, when it is at the smallest k
      and the smallest a in round i and the last value written is empty. */
  lemma FallbackClose(t: Task, res: (nat, nat) -> Outcome, v: seq<(nat, nat)>, i: nat)
    requires forall m :: 0 <= m < |v| ==> v[m].0 <= i
    ensures FallbackBefore(t, res, v, i + 1) <==>
      || FallbackBefore(t, res, v, i)
      || (|v| > 0 && v[|v| - 1].0 == i && AtSmallest(t, v[|v| - 1]) && LastWritten(res, v) == Some([]))
  {
    if FallbackBefore(t, res, v, i + 1) && !FallbackBefore(t, res, v, i) {
      var n :| 0 <= n < |v| && v[n].0 < i + 1 && AtSmallest(t, v[n]) && ClosesRound(res, v, n);
    }
    if |v| > 0 && v[|v| - 1].0 == i && AtSmallest(t, v[|v| - 1]) && LastWritten(res, v) == Some([]) {
      assert ClosesRound(res, v, |v| - 1);
    }
  }

  /** A fallback bound past the last round reached changes nothing. */
  lemma FallbackRaise(t: Task, res: (nat, nat) -> Outcome, v: seq<(nat, nat)>, i: nat, i': nat)
    requires i <= i' && forall m :: 0 <= m < |v| ==> v[m].0 < i
    ensures FallbackBefore(t, res, v, i) <==> FallbackBefore(t, res, v, i')
  {
    if FallbackBefore(t, res, v, i') {
      var n :| 0 <= n < |v| && v[n].0 < i' && AtSmallest(t, v[n]) && ClosesRound(res, v, n);
      assert v[n].0 < i;
    }
  }

  lemma StepExact(t: Task, res: (nat, nat) -> Outcome, L: Locals, i: nat, j: nat)
    requires i < |t.cfg.kmers| && j < |t.cfg.abundances| && !L.crashed && OutputExact(t, res, L, i)
    ensures OutputExact(t, res, Step(t, res, L, i, j).0, i)
  {
    var L1 := Step(t, res, L, i, j).0;
    if !L1.crashed {
      LastWrittenAppend(res, L.visited, (i, j));
      FallbackAppend(t, res, L.visited, (i, j), i);
      assert L1.visited == L.visited + [(i, j)];
    }
  }

  /** Any property of the loop variables that every inner-loop iteration keeps holds after the inner loop. */
  lemma {:induction false} InnerKeeps(t: Task, res: (nat, nat) -> Outcome, P: Locals -> bool, L: Locals, i: nat, j: nat)
    requires i < |t.cfg.kmers| && j <= |t.cfg.abundances| && P(L)
    requires forall L': Locals, j': nat {:trigger Step(t, res, L', i, j')} ::
      j' < |t.cfg.abundances| && P(L') ==> P(Step(t, res, L', i, j').0)
    ensures P(InnerLoop(t, res, L, i, j))
    decreases |t.cfg.abundances| - j
  {
    if j < |t.cfg.abundances| {
      InnerLoopStep(t, res, L, i, j);
      var step := Step(t, res, L, i, j);
      assert P(step.0);
      if !step.1 {
        InnerKeeps(t, res, P, step.0, i, j + 1);
      }
    } else {
      InnerLoopEnd(t, res, L, i, j);
    }
  }

  /** When the inner loop runs at all, its last pair is at k position i. */
  lemma {:induction false} InnerLastAt(t: Task, res: (nat, nat) -> Outcome, L: Locals, i: nat, j: nat)
    requires i < |t.cfg.kmers| && j < |t.cfg.abundances|
    ensures var R := InnerLoop(t, res, L, i, j); |R.visited| > 0 && R.visited[|R.visited| - 1].0 == i
    decreases |t.cfg.abundances| - j
  {
    InnerLoopStep(t, res, L, i, j);
    var step := Step(t, res, L, i, j);
    if !step.1 && j + 1 < |t.cfg.abundances| {
      InnerLastAt(t, res, step.0, i, j + 1);
    } else if !step.1 {
      InnerLoopEnd(t, res, step.0, i, j + 1);
    }
  }

  /** The inner loop keeps `OutputExact`; when it ran at all, its last pair is at k position i. */
  lemma InnerExact(t: Task, res: (nat, nat) -> Outcome, L: Locals, i: nat)
    requires i < |t.cfg.kmers| && OutputExact(t, res, L, i)
    ensures var R := InnerLoop(t, res, L, i, 0);
      && OutputExact(t, res, R, i)
      && (|t.cfg.abundances| > 0 ==> |R.visited| > 0 && R.visited[|R.visited| - 1].0 == i)
  {
    forall L': Locals, j': nat | j' < |t.cfg.abundances| && OutputExact(t, res, L', i)
      ensures OutputExact(t, res, Step(t, res, L', i, j').0, i)
    {
      if !L'.crashed {
        StepExact(t, res, L', i, j');
      }
    }
    InnerKeeps(t, res, L' => OutputExact(t, res, L', i), L, i, 0);
    if |t.cfg.abundances| > 0 {
      InnerLastAt(t, res, L, i, 0);
    }
  }

  /** The tests after the inner loop move `OutputExact` on to the next round: the fallback
      fires exactly when the round's last pair is at the smallest k and the smallest a and
      `output_for_gfa` is empty, and a solved stop leaves it as it was. */
  lemma AfterInnerExact(t: Task, res: (nat, nat) -> Outcome, L: Locals, i: nat)
    requires i < |t.cfg.kmers| && SolvedWrites(res) && OutputExact(t, res, L, i)
    requires !L.crashed && |L.visited| > 0 && |t.cfg.abundances| > 0 ==> L.visited[|L.visited| - 1].0 == i
    ensures OutputExact(t, res, AfterInner(t, L, i).0, i + 1)
  {
    var R := AfterInner(t, L, i).0;
    if !R.crashed {
      var v := L.visited;
      FallbackClose(t, res, v, i);
      assert R.visited == v && R.solution == L.solution && R.lastA == L.lastA;
      if |v| > 0 && res(v[|v| - 1].0, v[|v| - 1].1).solved {
        LastWrittenAppend(res, v[..|v| - 1], v[|v| - 1]);
        assert v[..|v| - 1] + [v[|v| - 1]] == v;
      }
      if R.output != L.output {
        assert [[t.gap.line]] != [];
      }
    }
  }

  /** No pair of trace `v` is at k position i or later. */
  predicate RoundsBelow(v: seq<(nat, nat)>, i: nat)
  {
    forall m :: 0 <= m < |v| ==> v[m].0 < i
  }

  /** `OutputExact` at a round no pair reached holds at every later round. */
  lemma ExactRaise(t: Task, res: (nat, nat) -> Outcome, L: Locals, i: nat, i': nat)
    requires i <= i' && OutputExact(t, res, L, i) && (!L.crashed ==> RoundsBelow(L.visited, i))
    ensures OutputExact(t, res, L, i')
  {
    if !L.crashed {
      FallbackRaise(t, res, L.visited, i, i');
    }
  }

  /** One outer iteration carries `OutputExact` to the next round. */
  lemma RoundExact(t: Task, res: (nat, nat) -> Outcome, L: Locals, i: nat)
    requires i < |t.cfg.kmers| && !L.crashed && SolvedWrites(res) && OutputExact(t, res, L, i)
    ensures var after := AfterInner(t, InnerLoop(t, res, L, i, 0), i);
      && OutputExact(t, res, after.0, i + 1)
      && (!after.0.crashed ==> RoundsBelow(after.0.visited, i + 1))
      && (!after.1 ==> !after.0.crashed)
  {
    var R1 := InnerLoop(t, res, L, i, 0);
    InnerExact(t, res, L, i);
    AfterInnerExact(t, res, R1, i);
    AfterInnerFacts(t, R1, i);
  }

  /** The outer loop keeps `OutputExact`, and the result satisfies it for the whole sweep. */
  lemma {:induction false} OuterExact(t: Task, res: (nat, nat) -> Outcome, L: Locals, i: nat)
    requires i <= |t.cfg.kmers| && !L.crashed && SolvedWrites(res) && OutputExact(t, res, L, i)
    ensures OutputExact(t, res, OuterLoop(t, res, L, i), |t.cfg.kmers|)
    decreases |t.cfg.kmers| - i
  {
    if i < |t.cfg.kmers| {
      OuterLoopStep(t, res, L, i);
      RoundExact(t, res, L, i);
      var after := AfterInner(t, InnerLoop(t, res, L, i, 0), i);
      if !after.1 {
        OuterExact(t, res, after.0, i + 1);
      } else {
        ExactRaise(t, res, after.0, i + 1, |t.cfg.kmers|);
      }
    } else {
      OuterLoopEnd(t, res, L, i);
    }
  }

  /** The runs of a task meet `SolvedWrites`. */
  lemma OutcomesSolvedWrite(t: Task)
    ensures SolvedWrites(Outcomes(t))
  {
    forall i: nat, j: nat | Outcomes(t)(i, j).solved
      ensures Outcomes(t)(i, j).output.Some? && Outcomes(t)(i, j).output.value != []
    {
      SolvedWritesEntries(t, t.cfg.kmers[i], t.cfg.abundances[j]);
    }
  }

  /** What the sweep returns, unless it raised: the original gap line exactly when the
      fallback fired and is still in force (the last value written was empty, and a pair at
      the smallest k and the smallest a closed its round with no write after it), and
      otherwise the `output_for_gfa` of the last run that wrote one (`None`, a raise, when no
      run wrote it). */
  lemma SweepOutputMeaning(t: Task)
    ensures var L := SweepLocals(t);
      !L.crashed ==>
        SweepOutput(t) == if Fallback(t, Outcomes(t), L.visited) then Some([[t.gap.line]]) else LastWritten(Outcomes(t), L.visited)
  {
    OutcomesSolvedWrite(t);
    OuterExact(t, Outcomes(t), Start, 0);
  }

  /** The fallback as line 511 fires it: a sweep that did not raise, whose last pair is at the
      smallest k and the smallest a and whose last value written is empty, returns the
      original gap line. */
  lemma FallbackFires(t: Task)
    requires var L := SweepLocals(t);
      && !L.crashed && |L.visited| > 0 && AtSmallest(t, L.visited[|L.visited| - 1])
      && LastWritten(Outcomes(t), L.visited) == Some([])
    ensures SweepOutput(t) == Some([[t.gap.line]])
  {
    var v := SweepLocals(t).visited;
    SweepOutputMeaning(t);
    assert ClosesRound(Outcomes(t), v, |v| - 1);
    assert Fallback(t, Outcomes(t), v);
  }

  /** Without the fallback, an empty last write is what the sweep returns: the gap then adds
      neither solutions nor its gap line, and the aggregation raises on it. */
  lemma EmptyWithoutFallback(t: Task)
    requires var L := SweepLocals(t);
      && !L.crashed && !Fallback(t, Outcomes(t), L.visited) && LastWritten(Outcomes(t), L.visited) == Some([])
    ensures SweepOutput(t) == Some([])
  {
    SweepOutputMeaning(t);
  }

  /** A stop test that holds comes with an accepted candidate, so `output_for_gfa` is not empty. */
  lemma StopMeansOutput(accept: Record -> bool, strand: Record -> Option<char>, entry: Record -> Entry, recs: seq<Record>)
    requires CandidateLoop(accept, strand, entry, recs).Some?
    requires "True_2" in CandidateLoop(accept, strand, entry, recs).value.solutions
    ensures |CandidateLoop(accept, strand, entry, recs).value.output| > 0
  {
    StopTestMeaning(accept, strand, entry, recs);
    CandidateLoopOutput(accept, strand, entry, recs);
    var r :| r in recs && accept(r) && strand(r) == Some('2');
    assert entry(r) in CandidateLoop(accept, strand, entry, recs).value.output;
  }

  /** A solved run writes a non-empty `output_for_gfa`. */
  lemma SolvedWritesEntries(t: Task, k: int, a: int)
    requires OutcomeAt(t, k, a).solved
    ensures OutcomeAt(t, k, a).output.Some? && |OutcomeAt(t, k, a).output.value| > 0
  {
    var run := RunAt(t, k, a);
    var stats := run.stats.value;
    StopMeansOutput(r => IsAccepted(t, stats, r), StrandOf, r => t.tools.place(Scored(t, stats, r), k, t.gap), run.records);
  }

  /** When the last pair tried was solved (the sweep stopped there, or with `--force` it was at
      the last k), the sweep returns that run's entries: the fallback cannot replace them. */
  lemma LastSolvedRunDecides(t: Task)
    requires var v := SweepLocals(t).visited;
      |v| > 0 && Outcomes(t)(v[|v| - 1].0, v[|v| - 1].1).solved
    ensures var v := SweepLocals(t).visited;
      SweepOutput(t).Some? ==> SweepOutput(t) == Outcomes(t)(v[|v| - 1].0, v[|v| - 1].1).output
  {
    var v := SweepLocals(t).visited;
    var p := v[|v| - 1];
    assert p.0 < |t.cfg.kmers| && p.1 < |t.cfg.abundances|;
    SolvedWritesEntries(t, t.cfg.kmers[p.0], t.cfg.abundances[p.1]);
    SweepOutputMeaning(t);
    LastWrittenAppend(Outcomes(t), v[..|v| - 1], p);
    assert v[..|v| - 1] + [p] == v;
  }
}
