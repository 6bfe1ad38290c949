/** The copy macro shared by the compressor and the decoders. */
module Lz4Copy {
  import opened Lz4Words

  const COPYLENGTH := 8

  /** The bytes an 8-byte-step copy of `n` bytes touches; it makes at least one step. */
  function WildSpan(n: nat): (w: nat)
    ensures n <= w <= n + 8
  {
    if n == 0 then 8 else (n + 7) / 8 * 8
  }

  /** `LZ4_WILDCOPY` from the input: at least one step of eight bytes, until `n` bytes are copied. */
  method WildCopyIn(src: seq<byte>, start: nat, dest: array<byte>, op: nat, n: nat)
    requires start + WildSpan(n) <= |src| && op + WildSpan(n) <= dest.Length
    modifies dest
    ensures dest[..op + n] == old(dest[..op]) + src[start..start + n]
    ensures dest[op + WildSpan(n)..] == old(dest[op + WildSpan(n)..])
  {
    ghost var span := WildSpan(n);
    var done := 0;
    ghost var steps := 0;
    while done == 0 || done < n
      invariant done <= span && done == 8 * steps
      invariant dest[..op] == old(dest[..op])
      invariant dest[op..op + done] == src[start..start + done]
      invariant dest[op + span..] == old(dest[op + span..])
      decreases span - done
    {
      assert done + 8 <= span;
      ghost var before := dest[..];
      forall i | 0 <= i < 8 {
        dest[op + done + i] := src[start + done + i];
      }
      assert dest[..op + done] == before[..op + done];
      assert dest[op..op + done] == before[op..op + done];
      assert dest[..op] == before[..op];
      assert dest[op + span..] == before[op + span..];
      assert dest[op + done..op + done + 8] == src[start + done..start + done + 8];
      assert dest[op..op + done + 8] == dest[op..op + done] + dest[op + done..op + done + 8];
      assert dest[op..op + done + 8] == dest[op..op + done] + src[start + done..start + done + 8];
      assert src[start..start + done + 8] == src[start..start + done] + src[start + done..start + done + 8];
      done, steps := done + 8, steps + 1;
    }
    assert dest[op..op + n] == dest[op..op + done][..n];
    assert src[start..start + n] == src[start..start + done][..n];
    assert dest[..op + n] == dest[..op] + dest[op..op + n];
  }
}
