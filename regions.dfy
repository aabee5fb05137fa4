/** Per-gap parameter derivation: the chunk size actually used on each flank,
    and the maximum fill length handed to the assembler. */
module Regions {

  /** Default of the `-max-length` option. */
  const DefaultMaxLength: int := 10000
  /** Margin added to the gap length when the default cap is raised. */
  const LargeGapMargin: int := 1000

  /** The chunk size on one flank: the requested size, lowered to the scaffold length when larger.
      (mtglink.py prints a warning in the lowered case.) */
  function ChunkSize(chunk: int, slen: nat): (r: int)
    ensures r <= chunk && r <= slen
    ensures r == chunk || r == slen
  {
    if chunk > slen then slen else chunk
  }

  /** Whether the warning about an oversized chunk is printed. */
  predicate ChunkWarning(chunk: int, slen: nat)
  {
    chunk > slen
  }

  /** `ChunkSize` is `min(chunk, slen)` and the warning fires exactly when it differs from the request. */
  lemma ChunkSizeIsMin(chunk: int, slen: nat)
    ensures ChunkSize(chunk, slen) == if chunk <= slen then chunk else slen
    ensures ChunkWarning(chunk, slen) <==> ChunkSize(chunk, slen) != chunk
  {
  }

  /** The maximum fill length: the user's value, except that the default value is raised to
      the gap length plus 1000 for gaps of at least 10000 bases. */
  function MaxLengthCap(userMax: int, gapLength: int): (r: int)
    ensures r >= userMax
    ensures r != userMax <==> userMax == DefaultMaxLength && gapLength >= DefaultMaxLength
    ensures r != userMax ==> r == gapLength + LargeGapMargin
  {
    if userMax == DefaultMaxLength && gapLength >= DefaultMaxLength then gapLength + LargeGapMargin else userMax
  }
}
