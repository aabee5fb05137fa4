/** Reverse complement and the four k-mer breakpoint fragments written for the assembler:
    forward fragments at distance `ext` from the gap on each flank, and the
    reverse-complemented fragments for the reverse strand. */
module Dna {
  import opened PyText

  /** Watson-Crick complement on A, C, G, T; any other character is left as it is. */
  function Complement(c: char): char
  {
    match c
    case 'A' => 'T'
    case 'T' => 'A'
    case 'C' => 'G'
    case 'G' => 'C'
    case _ => c
  }

  lemma ComplementInvolutive(c: char)
    ensures Complement(Complement(c)) == c
  {
  }

  /** Reverse complement: position i holds the complement of position |s|-1-i. */
  function Rc(s: string): (r: string)
    ensures |r| == |s|
  {
    seq(|s|, i requires 0 <= i < |s| => Complement(s[|s| - 1 - i]))
  }

  /** Taking the reverse complement twice gives the sequence back. */
  lemma RcInvolutive(s: string)
    ensures Rc(Rc(s)) == s
  {
    forall i | 0 <= i < |s| ensures Rc(Rc(s))[i] == s[i] {
      ComplementInvolutive(s[i]);
    }
  }

  /** A window of the reverse complement is the reverse complement of the mirrored window. */
  lemma RcWindow(s: string, i: nat, j: nat)
    requires i <= j <= |s|
    ensures Rc(s)[i..j] == Rc(s[|s| - j..|s| - i])
  {
    var w := s[|s| - j..|s| - i];
    forall p | 0 <= p < j - i ensures Rc(s)[i..j][p] == Rc(w)[p] {
      assert w[|w| - 1 - p] == s[|s| - 1 - (i + p)];
    }
  }

  /** The four fragments of the breakpoint file, in the order the file names them:
      line 2 (bkpt1, left k-mer), line 4 (bkpt1, right k-mer),
      line 6 (bkpt2, left k-mer) and line 8 (bkpt2, right k-mer). */
  datatype Breakpoints = Breakpoints(fwdLeft: string, fwdRight: string, revLeft: string, revRight: string)

  /** The fragments exactly as sliced by mtglink.py, with Python's clamping of out-of-range bounds. */
  function MakeBreakpoints(seqL: string, seqR: string, ext: int, k: int): Breakpoints
  {
    Breakpoints(
      Slice(seqL, |seqL| - ext - k, |seqL| - ext),
      Slice(seqR, ext, ext + k),
      Slice(Rc(seqR), |seqR| - ext - k, |seqR| - ext),
      Slice(Rc(seqL), ext, ext + k))
  }

  /** With flanks long enough, every fragment is a k-mer, each reverse fragment is the reverse
      complement of the forward fragment taken on the same flank, and the forward fragments
      sit `ext` away from the gap. */
  lemma {:induction false} BreakpointsShape(seqL: string, seqR: string, ext: nat, k: nat)
    requires |seqL| >= ext + k && |seqR| >= ext + k
    ensures var b := MakeBreakpoints(seqL, seqR, ext, k);
      && |b.fwdLeft| == k && |b.fwdRight| == k && |b.revLeft| == k && |b.revRight| == k
      && b.revRight == Rc(b.fwdLeft)
      && b.revLeft == Rc(b.fwdRight)
      && b.fwdLeft == seqL[|seqL| - ext - k..|seqL| - ext]
      && b.fwdRight == seqR[ext..ext + k]
  {
    RcWindow(seqL, ext, ext + k);
    RcWindow(seqR, |seqR| - ext - k, |seqR| - ext);
  }

  /** When the left flank is shorter than `ext + k`, Python's negative start index wraps
      around instead of clamping to 0: for the flank ACGTA with ext = 1 and k = 6 the
      left forward fragment is the single base T, not the four bases ACGT before the margin. */
  lemma ShortFlankFragment()
    ensures MakeBreakpoints("ACGTA", "ACGTACGT", 1, 6).fwdLeft == "T"
  {
    assert Slice("ACGTA", -2, 4) == "ACGTA"[3..4];
  }
}
