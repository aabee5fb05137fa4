/** Quality grades of one alignment axis, best (A) to worst (D), and the
    composite grade string "Quality XY" / "Quality XYZ" written into a
    candidate's description. */
module Grades {

  datatype Grade = A | B | C | D

  /** Position of a grade in the order A < B < C < D (the order of the
      one-letter strings mtglink.py compares with `min`). */
  function Rank(g: Grade): nat
  {
    match g
    case A => 0
    case B => 1
    case C => 2
    case D => 3
  }

  function Letter(g: Grade): char
  {
    match g
    case A => 'A'
    case B => 'B'
    case C => 'C'
    case D => 'D'
  }

  /** `min` over a non-empty list of grades: the best grade present. */
  function Best(gs: seq<Grade>): (r: Grade)
    requires |gs| > 0
    ensures r in gs
    ensures forall g :: g in gs ==> Rank(r) <= Rank(g)
  {
    if |gs| == 1 then gs[0]
    else
      var rest := Best(gs[1..]);
      assert forall g :: g in gs ==> g == gs[0] || g in gs[1..];
      if Rank(gs[0]) <= Rank(rest) then gs[0] else rest
  }

  /** The grade of one axis: `'D'` is appended to an empty list, then the list is reduced by `min`. */
  function AxisGrade(gs: seq<Grade>): (r: Grade)
  {
    Best(if gs == [] then [D] else gs)
  }

  /** Each axis grade is D when nothing matched and otherwise the best matching grade. */
  lemma AxisGradeMeaning(gs: seq<Grade>)
    ensures gs == [] ==> AxisGrade(gs) == D
    ensures gs != [] ==> AxisGrade(gs) in gs && forall g :: g in gs ==> Rank(AxisGrade(gs)) <= Rank(g)
  {
  }

  /** The letters of a composite grade, in axis order (Python string concatenation of the reduced grades). */
  function Letters(gs: seq<Grade>): (s: string)
    ensures |s| == |gs|
    ensures forall i :: 0 <= i < |gs| ==> s[i] == Letter(gs[i])
  {
    if gs == [] then "" else [Letter(gs[0])] + Letters(gs[1..])
  }

  /** The description given to a scored candidate: `"Quality " + composite`. */
  function Description(composite: seq<Grade>): (s: string)
    ensures |s| == 8 + |composite|
    ensures s[..8] == "Quality "
    ensures forall i :: 0 <= i < |composite| ==> s[8 + i] == Letter(composite[i])
  {
    "Quality " + Letters(composite)
  }
}
