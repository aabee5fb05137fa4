/** The few Python sequence and string primitives the gap-filling code relies on:
    slicing with negative offsets and clamping, the `in` substring test,
    `str.split(c)[0]`, `str.split(c)[-1]` and `min` over a list. */
module PyText {

  /** How Python normalises one bound of `s[i:j]` for a sequence of length `n`:
      a negative offset counts from the end, then the result is clamped into [0, n]. */
  function ClampIndex(i: int, n: nat): (r: nat)
    ensures r <= n
    ensures 0 <= i <= n ==> r == i
    ensures i > n ==> r == n
    ensures i < 0 <= n + i ==> r == n + i
    ensures n + i < 0 ==> r == 0
  {
    if i < 0 then (if n + i < 0 then 0 else n + i)
    else if i > n then n
    else i
  }

  /** Python's `s[i:j]`: never fails, silently clamps. */
  function Slice<T>(s: seq<T>, i: int, j: int): (r: seq<T>)
    ensures 0 <= i <= j <= |s| ==> r == s[i..j]
    ensures |r| <= |s|
  {
    var lo := ClampIndex(i, |s|);
    var hi := ClampIndex(j, |s|);
    if lo < hi then s[lo..hi] else []
  }

  /** Python's `s[i:]`. */
  function SliceFrom<T>(s: seq<T>, i: int): (r: seq<T>)
    ensures 0 <= i <= |s| ==> r == s[i..]
    ensures i < 0 <= |s| + i ==> r == s[|s| + i..]
    ensures |s| + i < 0 ==> r == s
    ensures i > |s| ==> r == []
  {
    s[ClampIndex(i, |s|)..]
  }

  /** No element occurs twice. */
  predicate Distinct<T(==)>(s: seq<T>)
  {
    forall i, j :: 0 <= i < j < |s| ==> s[i] != s[j]
  }

  predicate StartsWith<T(==)>(s: seq<T>, t: seq<T>)
  {
    |t| <= |s| && s[..|t|] == t
  }

  /** Python's `t in s` for strings: `t` occurs as a contiguous piece of `s`. */
  predicate Contains<T(==)>(s: seq<T>, t: seq<T>)
    decreases |s|
  {
    StartsWith(s, t) || (|s| > 0 && Contains(s[1..], t))
  }

  /** `Contains` holds when some window of `s` equals `t`. */
  lemma {:induction false} ContainsAt<T>(s: seq<T>, t: seq<T>, i: nat)
    requires i + |t| <= |s| && s[i..i + |t|] == t
    ensures Contains(s, t)
    decreases i
  {
    if i > 0 {
      assert s[1..][i - 1..i - 1 + |t|] == s[i..i + |t|];
      ContainsAt(s[1..], t, i - 1);
    } else {
      assert s[..|t|] == t;
    }
  }

  /** A piece of `s` is a piece of every extension of `s` on either side. */
  lemma {:induction false} ContainsInConcat<T>(u: seq<T>, s: seq<T>, v: seq<T>, t: seq<T>)
    requires Contains(s, t)
    ensures Contains(u + s + v, t)
    decreases |s|
  {
    if StartsWith(s, t) {
      assert (u + s + v)[|u|..|u| + |t|] == s[..|t|];
      ContainsAt(u + s + v, t, |u|);
    } else {
      ContainsInConcat(u + [s[0]], s[1..], v, t);
      assert u + [s[0]] + s[1..] + v == u + s + v;
    }
  }

  /** Python's `s.split(c)[0]`: the part of `s` before the first `c`. */
  function FirstField<T(==)>(s: seq<T>, c: T): (r: seq<T>)
    ensures |r| <= |s| && r == s[..|r|]
    ensures c !in r
    ensures |r| < |s| ==> s[|r|] == c
  {
    if |s| == 0 || s[0] == c then [] else [s[0]] + FirstField(s[1..], c)
  }

  /** Python's `s.split(c)[-1]`: the part of `s` after the last `c`. */
  function LastField<T(==)>(s: seq<T>, c: T): (r: seq<T>)
    ensures |r| <= |s| && r == s[|s| - |r|..]
    ensures c !in r
    ensures |r| < |s| ==> s[|s| - |r| - 1] == c
  {
    if |s| == 0 || s[|s| - 1] == c then [] else LastField(s[..|s| - 1], c) + [s[|s| - 1]]
  }

  /** Python's `min` over a non-empty list of integers. */
  function Min(s: seq<int>): (m: int)
    requires |s| > 0
    ensures m in s
    ensures forall x :: x in s ==> m <= x
  {
    if |s| == 1 then s[0]
    else
      var rest := Min(s[1..]);
      assert forall x :: x in s ==> x == s[0] || x in s[1..];
      if s[0] <= rest then s[0] else rest
  }
}
