/** The acceptance test applied to a scored candidate: its length must exceed
    twice the extension margin and its description must match the regular
    expression of the reference mode. The regular expressions are modelled
    as matchers over the description string, and proved equal to a decision
    table over the grades. */
module Acceptance {
  import opened Grades

  /** Single reference file per gap, or the two flanking contigs used as references. */
  datatype RefMode = SingleReference | FlankReferences

  /** A character class of the patterns: one letter, or `[AB]`. */
  datatype CharClass = Only(letter: char) | AB

  predicate InClass(x: char, cl: CharClass)
  {
    match cl
    case Only(letter) => x == letter
    case AB => x == 'A' || x == 'B'
  }

  /** The anchored part `.*Quality <pat>` ending exactly at the end of `d`:
      `.` does not match a newline, so the prefix before "Quality " has none. */
  predicate MatchesAtEnd(d: string, pat: seq<CharClass>)
  {
    var n := |pat|;
    && |d| >= 8 + n
    && '\n' !in d[..|d| - 8 - n]
    && d[|d| - 8 - n..|d| - n] == "Quality "
    && forall i :: 0 <= i < n ==> InClass(d[|d| - n + i], pat[i])
  }

  /** `re.match('^.*Quality <pat>$', d)`: `$` matches at the end or just before a final newline. */
  predicate Matches(d: string, pat: seq<CharClass>)
  {
    MatchesAtEnd(d, pat) || (|d| > 0 && d[|d| - 1] == '\n' && MatchesAtEnd(d[..|d| - 1], pat))
  }

  /** `'^.*Quality [AB]{2}$'` (single-reference mode). */
  predicate ReferenceRegex(d: string)
  {
    Matches(d, [AB, AB])
  }

  /** `'^.*Quality A[AB]{2}$'` or `'^.*Quality BA[AB]$'` (flank mode). */
  predicate FlankRegex(d: string)
  {
    Matches(d, [Only('A'), AB, AB]) || Matches(d, [Only('B'), Only('A'), AB])
  }

  /** The full acceptance condition on a scored candidate. */
  predicate Accepted(mode: RefMode, seqLen: nat, ext: int, description: string)
  {
    seqLen > 2 * ext && (if mode == SingleReference then ReferenceRegex(description) else FlankRegex(description))
  }

  predicate Good(g: Grade)
  {
    g == A || g == B
  }

  /** The decision table on the grades themselves. */
  predicate Verdict(mode: RefMode, c: seq<Grade>)
    requires |c| == CompositeLength(mode)
  {
    if mode == SingleReference then Good(c[0]) && Good(c[1])
    else (c[0] == A && Good(c[1]) && Good(c[2])) || (c[0] == B && c[1] == A && Good(c[2]))
  }

  /** Number of axes in the composite grade of a mode. */
  function CompositeLength(mode: RefMode): nat
  {
    if mode == SingleReference then 2 else 3
  }

  lemma LetterInClass(g: Grade)
    ensures InClass(Letter(g), AB) <==> Good(g)
    ensures InClass(Letter(g), Only('A')) <==> g == A
    ensures InClass(Letter(g), Only('B')) <==> g == B
  {
  }

  /** A description built from grades matches a pattern exactly when every grade letter is in its class. */
  lemma DescriptionMatches(c: seq<Grade>, pat: seq<CharClass>)
    requires |pat| == |c|
    ensures Matches(Description(c), pat) <==> forall i :: 0 <= i < |c| ==> InClass(Letter(c[i]), pat[i])
  {
    var d := Description(c);
    var n := |c|;
    DescriptionEndsWithoutNewline(c);
    assert |d| - 8 - n == 0;
    assert d[..0] == [];
    assert d[0..8] == d[..8];
    forall i | 0 <= i < n
      ensures d[|d| - n + i] == Letter(c[i])
    {
      assert |d| - n + i == 8 + i;
    }
  }

  lemma DescriptionEndsWithoutNewline(c: seq<Grade>)
    ensures var d := Description(c); |d| > 0 && d[|d| - 1] != '\n'
  {
    var d := Description(c);
    if |c| == 0 { assert d[7] == ' '; } else { assert d[|d| - 1] == Letter(c[|c| - 1]); }
  }

  /** The letters of a two-grade composite against `[AB]{2}`. */
  lemma ReferenceClasses(c: seq<Grade>)
    requires |c| == 2
    ensures (forall i :: 0 <= i < |c| ==> InClass(Letter(c[i]), [AB, AB][i])) <==> Good(c[0]) && Good(c[1])
  {
    LetterInClass(c[0]);
    LetterInClass(c[1]);
    assert (forall i :: 0 <= i < |c| ==> InClass(Letter(c[i]), [AB, AB][i]))
       <==> InClass(Letter(c[0]), AB) && InClass(Letter(c[1]), AB);
  }

  /** The letters of a three-grade composite against `A[AB]{2}`. */
  lemma FlankFirstClasses(c: seq<Grade>)
    requires |c| == 3
    ensures (forall i :: 0 <= i < |c| ==> InClass(Letter(c[i]), [Only('A'), AB, AB][i]))
        <==> c[0] == A && Good(c[1]) && Good(c[2])
  {
    LetterInClass(c[0]);
    LetterInClass(c[1]);
    LetterInClass(c[2]);
    var pat := [Only('A'), AB, AB];
    assert (forall i :: 0 <= i < |c| ==> InClass(Letter(c[i]), pat[i]))
       <==> InClass(Letter(c[0]), pat[0]) && InClass(Letter(c[1]), pat[1]) && InClass(Letter(c[2]), pat[2]);
  }

  /** The letters of a three-grade composite against `BA[AB]`. */
  lemma FlankSecondClasses(c: seq<Grade>)
    requires |c| == 3
    ensures (forall i :: 0 <= i < |c| ==> InClass(Letter(c[i]), [Only('B'), Only('A'), AB][i]))
        <==> c[0] == B && c[1] == A && Good(c[2])
  {
    LetterInClass(c[0]);
    LetterInClass(c[1]);
    LetterInClass(c[2]);
    var pat := [Only('B'), Only('A'), AB];
    assert (forall i :: 0 <= i < |c| ==> InClass(Letter(c[i]), pat[i]))
       <==> InClass(Letter(c[0]), pat[0]) && InClass(Letter(c[1]), pat[1]) && InClass(Letter(c[2]), pat[2]);
  }

  /** The regular expressions applied to "Quality <composite>" decide exactly as the table. */
  lemma {:induction false} RegexIsDecisionTable(mode: RefMode, c: seq<Grade>)
    requires |c| == CompositeLength(mode)
    ensures (if mode == SingleReference then ReferenceRegex(Description(c)) else FlankRegex(Description(c)))
            <==> Verdict(mode, c)
  {
    if mode == SingleReference {
      DescriptionMatches(c, [AB, AB]);
      ReferenceClasses(c);
    } else {
      DescriptionMatches(c, [Only('A'), AB, AB]);
      FlankFirstClasses(c);
      DescriptionMatches(c, [Only('B'), Only('A'), AB]);
      FlankSecondClasses(c);
    }
  }

  /** A candidate is accepted iff it is longer than twice the margin and its grades pass the table. */
  lemma {:induction false} AcceptedIffVerdict(mode: RefMode, seqLen: nat, ext: int, c: seq<Grade>)
    requires |c| == CompositeLength(mode)
    ensures Accepted(mode, seqLen, ext, Description(c)) <==> seqLen > 2 * ext && Verdict(mode, c)
  {
    RegexIsDecisionTable(mode, c);
  }

  /** Single-reference truth table: AA, AB, BA, BB accept; AC and CD reject. */
  lemma {:induction false} ReferenceTruthTable(c: seq<Grade>)
    requires |c| == 2
    ensures c == [A, A] || c == [A, B] || c == [B, A] || c == [B, B] ==> ReferenceRegex(Description(c))
    ensures c == [A, C] || c == [C, D] ==> !ReferenceRegex(Description(c))
  {
    RegexIsDecisionTable(SingleReference, c);
  }

  /** Flank truth table, accepting rows: AAA, ABA, BAA, BAB. */
  lemma {:induction false} FlankTruthTableAccepts(c: seq<Grade>)
    requires c == [A, A, A] || c == [A, B, A] || c == [B, A, A] || c == [B, A, B]
    ensures FlankRegex(Description(c))
  {
    RegexIsDecisionTable(FlankReferences, c);
  }

  /** Flank truth table, rejecting rows: BBA and ACA. */
  lemma {:induction false} FlankTruthTableRejects(c: seq<Grade>)
    requires c == [B, B, A] || c == [A, C, A]
    ensures !FlankRegex(Description(c))
  {
    RegexIsDecisionTable(FlankReferences, c);
  }

  /** The length guard: a candidate not longer than twice the margin is rejected whatever its grades. */
  lemma ShortCandidateRejected(mode: RefMode, seqLen: nat, ext: int, d: string)
    requires seqLen <= 2 * ext
    ensures !Accepted(mode, seqLen, ext, d)
  {
  }
}
