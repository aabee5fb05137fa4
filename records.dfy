/** Assembler output records: the id rewrite that moves the "solution x/y" part of
    the description into the id, and the strand digit read back from the id. */
module Records {
  import opened Wrappers
  import opened PyText

  /** One FASTA record of the assembler's insertion file. */
  datatype Record = Record(id: string, description: string, length: nat)

  /** The solution tag appended to the id: the last space-separated word of the description
      when it mentions "solution", otherwise "1/1". */
  function SolutionTag(description: string): (t: string)
    ensures Contains(description, "solution") ==>
      && ' ' !in t
      && |t| <= |description| && description[|description| - |t|..] == t
      && (|t| < |description| ==> description[|description| - |t| - 1] == ' ')
  {
    if Contains(description, "solution") then LastField(description, ' ') else "1/1"
  }

  /** `record.id + "_sol_" + tag`. */
  function RewriteId(r: Record): (id: string)
    ensures |id| >= |r.id| + 5
    ensures id[..|r.id|] == r.id && id[|r.id|..|r.id| + 5] == "_sol_"
    ensures id[|r.id| + 5..] == SolutionTag(r.description)
  {
    r.id + "_sol_" + SolutionTag(r.description)
  }

  /** `str(record.id).split('_')[0][-1]`: the last character of the id's first `_`-field;
      `None` when that field is empty (Python raises IndexError). */
  function Strand(id: string): (s: Option<char>)
    ensures s.Some? <==> |id| > 0 && id[0] != '_'
  {
    var first := FirstField(id, '_');
    if first == [] then None else Some(first[|first| - 1])
  }

  /** `split(c)[0]` ignores everything from the first `c` on. */
  lemma {:induction false} FirstFieldAfterSeparator<T>(s: seq<T>, c: T, t: seq<T>)
    ensures FirstField(s + [c] + t, c) == FirstField(s, c)
    decreases |s|
  {
    if s != [] && s[0] != c {
      assert (s + [c] + t)[1..] == s[1..] + [c] + t;
      FirstFieldAfterSeparator(s[1..], c, t);
    }
  }

  /** `split(c)[-1]` of `s + [c] + t` is `t` when `t` has no `c`. */
  lemma {:induction false} LastFieldAfterSeparator<T>(s: seq<T>, c: T, t: seq<T>)
    requires c !in t
    ensures LastField(s + [c] + t, c) == t
    decreases |t|
  {
    if t != [] {
      var init := t[..|t| - 1];
      assert (s + [c] + t)[..|s + [c] + t| - 1] == s + [c] + init;
      LastFieldAfterSeparator(s, c, init);
      assert init + [t[|t| - 1]] == t;
    }
  }

  /** The rewrite does not change the strand digit. */
  lemma {:induction false} RewriteKeepsStrand(r: Record)
    ensures Strand(RewriteId(r)) == Strand(r.id)
  {
    FirstFieldAfterSeparator(r.id, '_', "sol_" + SolutionTag(r.description));
    assert RewriteId(r) == r.id + ['_'] + ("sol_" + SolutionTag(r.description));
  }

  /** The last `_`-field of a rewritten id is the solution tag, when the tag has no `_`. */
  lemma {:induction false} RewriteLastField(r: Record)
    requires '_' !in SolutionTag(r.description)
    ensures LastField(RewriteId(r), '_') == SolutionTag(r.description)
  {
    LastFieldAfterSeparator(r.id + "_sol", '_', SolutionTag(r.description));
    assert RewriteId(r) == r.id + "_sol" + ['_'] + SolutionTag(r.description);
  }

  /** A record without "solution" in its description becomes solution 1/1. */
  lemma DefaultTag(r: Record)
    requires !Contains(r.description, "solution")
    ensures RewriteId(r) == r.id + "_sol_1/1"
  {
  }

  /** The assembler names forward candidates `bkpt1_...` and reverse ones `bkpt2_...`: their strands are 1 and 2. */
  lemma AssemblerStrands(rest: string)
    ensures Strand("bkpt1_" + rest) == Some('1')
    ensures Strand("bkpt2_" + rest) == Some('2')
  {
    FirstFieldAfterSeparator("bkpt1", '_', rest);
    FirstFieldAfterSeparator("bkpt2", '_', rest);
    assert "bkpt1_" + rest == "bkpt1" + ['_'] + rest;
    assert "bkpt2_" + rest == "bkpt2" + ['_'] + rest;
  }
}
