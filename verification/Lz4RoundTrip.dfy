/** Compressing and decompressing again. */
module Lz4RoundTrip {
  import opened Lz4Words
  import opened Lz4Format
  import opened Lz4Compress
  import opened Lz4Size
  import Lz4Compressor
  import Lz4Decoder
  import D = Lz4Decode

  /**
   * What LZ4_compress leaves, if it leaves anything, is read back by LZ4_uncompress whatever bytes
   * follow it: it consumes exactly the block and produces exactly the input.
   */
  lemma UncompressInverts(s: seq<byte>, b: Block, behind: seq<byte>)
    requires BlockFor(b, s) && LongEnough(b.sequences)
    ensures D.Uncompress(Encode(b) + behind, |s|, 0, [], true) == D.Finished(|Encode(b)|, s, true)
  {
    hide Executable, EndsEarly, Run, Encode, D.Uncompress;
    assert (Encode(b) + behind)[..|Encode(b)|] == Encode(b);
    D.DecodeFrom(Encode(b) + behind, 0, [], b, |s|);
  }

  /** The other decoder agrees, in any output buffer that is large enough, and uses up its input. */
  lemma UnknownInverts(s: seq<byte>, b: Block, max: nat)
    requires BlockFor(b, s) && LongEnough(b.sequences) && |s| <= max
    ensures D.UncompressUnknown(Encode(b), max, 0, [], true) == D.Finished(|Encode(b)|, s, true)
  {
    hide Executable, EndsEarly, Run, Encode, D.UncompressUnknown;
    assert Encode(b)[..|Encode(b)|] == Encode(b);
    D.DecodeUnknownFrom(Encode(b), 0, [], b, |s|, max);
  }

  /** For every input, through the compressor its length selects. */
  lemma RoundTrip(s: seq<byte>, behind: seq<byte>, max: nat)
    requires |s| <= MAX_INPUT && |s| <= max
    ensures var b := Choose(Lz4Compressor.VariantFor(|s|), s);
            && LongEnough(b.sequences)
            && (Output(b, |s|) != [] ==>
                  && D.Uncompress(Output(b, |s|) + behind, |s|, 0, [], true)
                     == D.Finished(|Output(b, |s|)|, s, true)
                  && D.UncompressUnknown(Output(b, |s|), max, 0, [], true)
                     == D.Finished(|Output(b, |s|)|, s, true))
  {
    hide Choose, Executable, EndsEarly, Run, Encode, D.Uncompress, D.UncompressUnknown, LongEnough, Gains;
    var v := Lz4Compressor.VariantFor(|s|);
    ChooseIsLegal(v, s);
    var b := Choose(v, s);
    ExecutableLongEnough(0, b.sequences);
    UncompressInverts(s, b, behind);
    UnknownInverts(s, b, max);
  }

  /** The same for the code: compress into a buffer, hand over the compressed bytes, decompress them. */
  method CompressAndBack(s: seq<byte>) returns (kept: bool, consumed: int, text: seq<byte>, unknown: seq<byte>)
    requires |s| <= MAX_INPUT
    ensures var b := Choose(Lz4Compressor.VariantFor(|s|), s);
            && LongEnough(b.sequences) && (kept <==> Output(b, |s|) != [])
            && (kept ==> consumed == |Output(b, |s|)| && text == s && unknown == s)
  {
    hide *;
    var buffer := new byte[Lz4Compressor.Room(|s|)](_ => 0);
    var n := Lz4Compressor.Compress(s, buffer);
    kept, consumed, text, unknown := n > 0, 0, [], [];
    if kept {
      var block := buffer[..n];
      RoundTrip(s, [], |s|);
      assert block + [] == block;
      var out := new byte[|s|](_ => 0);
      var r := Lz4Decoder.Uncompress(block, out, |s|);
      FinishedReply(r, out[..], n, s);
      consumed, text := r.code, out[..];
      var out2 := new byte[|s|](_ => 0);
      var code := Lz4Decoder.UncompressUnknownOutputSize(block, out2, |s|);
      FinishedCode(code, out2[..], n, s);
      unknown := out2[..];
    }
  }

  lemma FinishedReply(r: Lz4Decoder.Reply, dest: seq<byte>, n: nat, s: seq<byte>)
    requires Lz4Decoder.RepliesWith(r, dest, D.Finished(n, s, true))
    ensures r == Lz4Decoder.Returns(n) && |s| <= |dest| && dest[..|s|] == s
  {
  }

  lemma FinishedCode(code: int, dest: seq<byte>, n: nat, s: seq<byte>)
    requires Lz4Decoder.CodeFor(code, dest, D.Finished(n, s, true))
    ensures code == |s| && |s| <= |dest| && dest[..|s|] == s
  {
  }
}
