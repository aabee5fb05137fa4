/** Quality scoring of one candidate from the two alignment-statistics tables:
    rows are selected by solution and strand, each axis is reduced to its best
    grade (D when no row is selected), and the axis grades form the composite. */
module Scoring {
  import opened PyText
  import opened Grades
  import opened Acceptance

  /** A row of the reference-vs-query table (only the columns the scoring reads). */
  datatype RefRow = RefRow(solution: string, strand: string, refName: string, quality: Grade)
  /** A row of the query-vs-reverse-complement table (only the columns the scoring reads). */
  datatype RevRow = RevRow(solution1: string, solution2: string, quality: Grade)
  /** Both tables of one (k, a) run. */
  datatype Stats = Stats(refRows: seq<RefRow>, revRows: seq<RevRow>)

  /** The reference-table axes: the whole reference, or the left or right flank. */
  datatype RefAxis = WholeReference | LeftFlank | RightFlank

  /** The row's strand column agrees with the candidate: `bkpt1` goes with `fwd`, `bkpt2` with `rev`. */
  predicate StrandAgrees(id: string, strand: string)
  {
    (Contains(id, "bkpt1") && strand == "fwd") || (Contains(id, "bkpt2") && strand == "rev")
  }

  /** `row["Solution"] in record.id` and the strands agree. */
  predicate RefMatches(row: RefRow, id: string)
  {
    Contains(id, row.solution) && StrandAgrees(id, row.strand)
  }

  /** Whether a reference row feeds an axis. The right flank is the `elif` branch:
      it only sees rows the left-flank test rejected. */
  predicate Selects(axis: RefAxis, row: RefRow, id: string, leftName: string, rightName: string)
  {
    match axis
    case WholeReference => RefMatches(row, id)
    case LeftFlank => RefMatches(row, id) && row.refName == leftName
    case RightFlank => !(RefMatches(row, id) && row.refName == leftName) && RefMatches(row, id) && row.refName == rightName
  }

  /** The grades the reading loop appends for an axis, in row order. */
  function RefGrades(rows: seq<RefRow>, id: string, axis: RefAxis, leftName: string, rightName: string): seq<Grade>
  {
    if rows == [] then []
    else
      var last := rows[|rows| - 1];
      RefGrades(rows[..|rows| - 1], id, axis, leftName, rightName)
        + (if Selects(axis, last, id, leftName, rightName) then [last.quality] else [])
  }

  /** One solution column of the reverse-complement table matches the candidate: it contains
      the id's last `_`-field and the strand word of the candidate's breakpoint. */
  predicate SlotMatches(slot: string, id: string)
  {
    && Contains(slot, LastField(id, '_'))
    && ((Contains(id, "bkpt1") && Contains(slot, "fwd")) || (Contains(id, "bkpt2") && Contains(slot, "rev")))
  }

  predicate RevMatches(row: RevRow, id: string)
  {
    SlotMatches(row.solution1, id) || SlotMatches(row.solution2, id)
  }

  function RevGrades(rows: seq<RevRow>, id: string): seq<Grade>
  {
    if rows == [] then []
    else
      var last := rows[|rows| - 1];
      RevGrades(rows[..|rows| - 1], id) + (if RevMatches(last, id) then [last.quality] else [])
  }

  /** The grades collected for an axis are exactly the qualities of the rows it selects. */
  lemma {:induction false} RefGradesMembers(rows: seq<RefRow>, id: string, axis: RefAxis, leftName: string, rightName: string)
    ensures |RefGrades(rows, id, axis, leftName, rightName)| <= |rows|
    ensures forall g :: g in RefGrades(rows, id, axis, leftName, rightName) <==>
      exists row :: row in rows && Selects(axis, row, id, leftName, rightName) && row.quality == g
  {
    if rows != [] {
      var init := rows[..|rows| - 1];
      assert forall row :: row in rows <==> row in init || row == rows[|rows| - 1];
      RefGradesMembers(init, id, axis, leftName, rightName);
    }
  }

  lemma {:induction false} RevGradesMembers(rows: seq<RevRow>, id: string)
    ensures forall g :: g in RevGrades(rows, id) <==> exists row :: row in rows && RevMatches(row, id) && row.quality == g
  {
    if rows != [] {
      var init := rows[..|rows| - 1];
      assert forall row :: row in rows <==> row in init || row == rows[|rows| - 1];
      RevGradesMembers(init, id);
    }
  }

  /** The reading loop of the single-reference mode. */
  method CollectReference(rows: seq<RefRow>, id: string) returns (q: seq<Grade>)
    ensures q == RefGrades(rows, id, WholeReference, "", "")
  {
    q := [];
    var i := 0;
    while i < |rows|
      invariant 0 <= i <= |rows|
      invariant q == RefGrades(rows[..i], id, WholeReference, "", "")
    {
      assert rows[..i + 1][..i] == rows[..i];
      if RefMatches(rows[i], id) {
        q := q + [rows[i].quality];
      }
      i := i + 1;
    }
    assert rows[..i] == rows;
  }

  /** The reading loop of the flank mode, with its `if` / `elif` on the reference name. */
  method CollectFlanks(rows: seq<RefRow>, id: string, leftName: string, rightName: string) returns (ql: seq<Grade>, qr: seq<Grade>)
    ensures ql == RefGrades(rows, id, LeftFlank, leftName, rightName)
    ensures qr == RefGrades(rows, id, RightFlank, leftName, rightName)
  {
    ql, qr := [], [];
    var i := 0;
    while i < |rows|
      invariant 0 <= i <= |rows|
      invariant ql == RefGrades(rows[..i], id, LeftFlank, leftName, rightName)
      invariant qr == RefGrades(rows[..i], id, RightFlank, leftName, rightName)
    {
      assert rows[..i + 1][..i] == rows[..i];
      var row := rows[i];
      if RefMatches(row, id) && row.refName == leftName {
        ql := ql + [row.quality];
      } else if RefMatches(row, id) && row.refName == rightName {
        qr := qr + [row.quality];
      }
      i := i + 1;
    }
    assert rows[..i] == rows;
  }

  /** The reading loop over the reverse-complement table. */
  method CollectRevcomp(rows: seq<RevRow>, id: string) returns (q: seq<Grade>)
    ensures q == RevGrades(rows, id)
  {
    q := [];
    var i := 0;
    while i < |rows|
      invariant 0 <= i <= |rows|
      invariant q == RevGrades(rows[..i], id)
    {
      assert rows[..i + 1][..i] == rows[..i];
      if RevMatches(rows[i], id) {
        q := q + [rows[i].quality];
      }
      i := i + 1;
    }
    assert rows[..i] == rows;
  }

  /** The composite grade: (reference, self) in single-reference mode,
      (left flank, right flank, self) in flank mode. */
  function Composite(mode: RefMode, stats: Stats, id: string, leftName: string, rightName: string): (c: seq<Grade>)
    ensures |c| == CompositeLength(mode)
  {
    var self := AxisGrade(RevGrades(stats.revRows, id));
    if mode == SingleReference then
      [AxisGrade(RefGrades(stats.refRows, id, WholeReference, leftName, rightName)), self]
    else
      [AxisGrade(RefGrades(stats.refRows, id, LeftFlank, leftName, rightName)),
       AxisGrade(RefGrades(stats.refRows, id, RightFlank, leftName, rightName)),
       self]
  }

  /** The scoring of one candidate, as mtglink.py computes it with its reading loops. */
  method ScoreCandidate(mode: RefMode, stats: Stats, id: string, leftName: string, rightName: string) returns (c: seq<Grade>)
    ensures c == Composite(mode, stats, id, leftName, rightName)
  {
    var qSelf := CollectRevcomp(stats.revRows, id);
    if qSelf == [] {
      qSelf := [D];
    }
    if mode == SingleReference {
      var qRef := CollectReference(stats.refRows, id);
      assert RefGrades(stats.refRows, id, WholeReference, "", "") == RefGrades(stats.refRows, id, WholeReference, leftName, rightName) by {
        SelectWholeIgnoresNames(stats.refRows, id, leftName, rightName);
      }
      if qRef == [] {
        qRef := [D];
      }
      c := [Best(qRef), Best(qSelf)];
    } else {
      var qLeft, qRight := CollectFlanks(stats.refRows, id, leftName, rightName);
      if qLeft == [] {
        qLeft := [D];
      }
      if qRight == [] {
        qRight := [D];
      }
      c := [Best(qLeft), Best(qRight), Best(qSelf)];
    }
  }

  /** The single-reference axis does not look at the flank names. */
  lemma {:induction false} SelectWholeIgnoresNames(rows: seq<RefRow>, id: string, leftName: string, rightName: string)
    ensures RefGrades(rows, id, WholeReference, "", "") == RefGrades(rows, id, WholeReference, leftName, rightName)
  {
    if rows != [] {
      SelectWholeIgnoresNames(rows[..|rows| - 1], id, leftName, rightName);
    }
  }

  /** What each composite letter means: D when no row of the axis matched, otherwise the
      best grade among the matching rows (which is one of them). */
  lemma {:induction false} ReferenceAxisMeaning(rows: seq<RefRow>, id: string, axis: RefAxis, leftName: string, rightName: string)
    ensures var g := AxisGrade(RefGrades(rows, id, axis, leftName, rightName));
      && ((forall row :: row in rows ==> !Selects(axis, row, id, leftName, rightName)) ==> g == D)
      && ((exists row :: row in rows && Selects(axis, row, id, leftName, rightName)) ==>
            (exists row :: row in rows && Selects(axis, row, id, leftName, rightName) && row.quality == g)
            && forall row :: row in rows && Selects(axis, row, id, leftName, rightName) ==> Rank(g) <= Rank(row.quality))
  {
    var gs := RefGrades(rows, id, axis, leftName, rightName);
    RefGradesMembers(rows, id, axis, leftName, rightName);
    if gs != [] {
      var g := AxisGrade(gs);
      assert g in gs;
      forall row | row in rows && Selects(axis, row, id, leftName, rightName) ensures Rank(g) <= Rank(row.quality) {
        assert row.quality in gs;
      }
    } else {
      forall row | row in rows ensures !Selects(axis, row, id, leftName, rightName) {
        assert row.quality !in gs;
      }
    }
  }

  /** A row whose reference is the left flank never reaches the right-flank list (the `elif`). */
  lemma {:induction false} LeftRowsNeverRight(rows: seq<RefRow>, id: string, leftName: string, rightName: string)
    ensures RefGrades(rows, id, RightFlank, leftName, rightName)
         == RefGrades(RowsNotNamed(rows, leftName), id, RightFlank, leftName, rightName)
  {
    if rows != [] {
      var init := rows[..|rows| - 1];
      LeftRowsNeverRight(init, id, leftName, rightName);
      var last := rows[|rows| - 1];
      if last.refName == leftName {
        assert RowsNotNamed(rows, leftName) == RowsNotNamed(init, leftName);
      } else {
        assert RowsNotNamed(rows, leftName) == RowsNotNamed(init, leftName) + [last];
        assert (RowsNotNamed(init, leftName) + [last])[..|RowsNotNamed(init, leftName)|] == RowsNotNamed(init, leftName);
      }
    }
  }

  /** The rows whose reference name is not `name`. */
  function RowsNotNamed(rows: seq<RefRow>, name: string): (r: seq<RefRow>)
    ensures forall row :: row in r <==> row in rows && row.refName != name
  {
    if rows == [] then []
    else
      var last := rows[|rows| - 1];
      assert forall row :: row in rows <==> row in rows[..|rows| - 1] || row == last;
      RowsNotNamed(rows[..|rows| - 1], name) + (if last.refName != name then [last] else [])
  }

  /** If both flanks carry the same name, the right-flank axis is always D, so flank mode rejects every candidate. */
  lemma {:induction false} SameFlankNamesReject(stats: Stats, id: string, name: string, seqLen: nat, ext: int)
    ensures Composite(FlankReferences, stats, id, name, name)[1] == D
    ensures !Accepted(FlankReferences, seqLen, ext, Description(Composite(FlankReferences, stats, id, name, name)))
  {
    var c := Composite(FlankReferences, stats, id, name, name);
    RefGradesMembers(stats.refRows, id, RightFlank, name, name);
    assert RefGrades(stats.refRows, id, RightFlank, name, name) == [];
    AcceptedIffVerdict(FlankReferences, seqLen, ext, c);
  }
}
