/**
 * What the two decoders compute on an arbitrary input, byte by byte: the sequence in which input
 * bytes are read, every error exit, and every read past the end of the input.
 */
module Lz4Decode {
  import opened Options
  import opened Lz4Words
  import opened Lz4Format
  import opened Lz4Copy

  datatype Length = Length(value: nat, next: nat)

  /**
   * `Finished` holds the input consumed and the text produced; the text is `defined` if no match had
   * offset zero, which copies whatever the output buffer held before. `Malformed` is the input
   * position of an error exit. `Overread` is a read past the end of the input.
   */
  datatype Outcome =
    | Finished(consumed: nat, text: seq<byte>, defined: bool)
    | Malformed(position: nat)
    | Overread

  /** The value of two bytes at `pos`. */
  function OffsetAt(src: seq<byte>, pos: nat): nat
    requires pos + 2 <= |src|
  {
    src[pos] as int + 256 * src[pos + 1] as int
  }

  function CopyMatch(out: seq<byte>, offset: nat, n: nat): (r: seq<byte>)
    requires offset <= |out|
    ensures |r| == |out| + n
  {
    if offset == 0 then out + seq(n, _ => 0) else CopyBack(out, offset, n)
  }

  // ---------------------------------------------------------------- LZ4_uncompress

  function ReadRun(src: seq<byte>, pos: nat): (r: Option<Length>)
    ensures r.Some? ==> pos < r.value.next <= |src|
    decreases |src| - pos
  {
    if pos >= |src| then None
    else if src[pos] < 255 then Some(Length(src[pos], pos + 1))
    else
      match ReadRun(src, pos + 1)
      case None => None
      case Some(l) => Some(Length(l.value + 255, l.next))
  }

  function ReadLength(src: seq<byte>, pos: nat, nibble: nat): (r: Option<Length>)
    ensures r.Some? ==> pos <= r.value.next && (r.value.next <= |src| || r.value.next == pos)
  {
    if nibble < RUN_MASK then Some(Length(nibble, pos))
    else
      match ReadRun(src, pos)
      case None => None
      case Some(l) => Some(Length(l.value + RUN_MASK, l.next))
  }

  function Uncompress(src: seq<byte>, osize: nat, pos: nat, out: seq<byte>, defined: bool): (r: Outcome)
    requires |out| <= osize
    ensures r.Finished? ==> pos < r.consumed <= |src| && |r.text| <= osize
    ensures r.Malformed? ==> pos < r.position <= |src|
    decreases osize - |out|, 1
  {
    if pos >= |src| then Overread
    else
      match ReadLength(src, pos + 1, src[pos] / 16)
      case None => Overread
      case Some(run) =>
        if |out| + run.value + COPYLENGTH > osize then
          if |out| + run.value > osize then Malformed(run.next)
          else if run.next + run.value > |src| then Overread
          else Finished(run.next + run.value, out + src[run.next..run.next + run.value], defined)
        else if run.next + WildSpan(run.value) > |src| then Overread
        else
          UncompressMatch(src, osize, run.next + run.value, src[pos] % 16,
                          out + src[run.next..run.next + run.value], defined)
  }

  function UncompressMatch(src: seq<byte>, osize: nat, pos: nat, nibble: nat, out: seq<byte>, defined: bool)
    : (r: Outcome)
    requires |out| + COPYLENGTH <= osize && pos <= |src|
    ensures r.Finished? ==> pos < r.consumed <= |src| && |r.text| <= osize
    ensures r.Malformed? ==> pos < r.position <= |src|
    decreases osize - |out|, 0
  {
    if pos + 2 > |src| then Overread
    else
      var offset := OffsetAt(src, pos);
      if offset > |out| then Malformed(pos + 2)
      else
        match ReadLength(src, pos + 2, nibble)
        case None => Overread
        case Some(len) =>
          var n := len.value + MINMATCH;
          if |out| + n > osize then Malformed(len.next)
          else
            var text := CopyMatch(out, offset, n);
            if |out| + n == osize then Finished(len.next, text, defined && offset > 0)
            else Uncompress(src, osize, len.next, text, defined && offset > 0)
  }

  // ---------------------------------------------------------------- LZ4_uncompress_unknownOutputSize

  function ReadRunBounded(src: seq<byte>, pos: nat): (r: Length)
    requires pos <= |src|
    ensures pos <= r.next <= |src|
    decreases |src| - pos
  {
    if pos == |src| then Length(0, pos)
    else if src[pos] < 255 then Length(src[pos], pos + 1)
    else
      var l := ReadRunBounded(src, pos + 1);
      Length(l.value + 255, l.next)
  }

  function ReadLengthBounded(src: seq<byte>, pos: nat, nibble: nat): (r: Length)
    requires pos <= |src|
    ensures pos <= r.next <= |src|
  {
    if nibble < RUN_MASK then Length(nibble, pos)
    else
      var l := ReadRunBounded(src, pos);
      Length(l.value + RUN_MASK, l.next)
  }

  function UncompressUnknown(src: seq<byte>, max: nat, pos: nat, out: seq<byte>, defined: bool): (r: Outcome)
    requires pos <= |src| && |out| <= max
    ensures !r.Overread?
    ensures r.Finished? ==> pos <= r.consumed <= |src| && |r.text| <= max
    ensures r.Malformed? ==> pos < r.position <= |src|
    decreases max - |out|, 1
  {
    if pos == |src| then Finished(pos, out, defined)
    else
      var run := ReadLengthBounded(src, pos + 1, src[pos] / 16);
      var end := run.next + run.value;
      if |out| + run.value + COPYLENGTH > max || end + COPYLENGTH > |src| then
        if |out| + run.value > max then Malformed(run.next)
        else if end > |src| then Malformed(run.next)
        else if end < |src| then Malformed(end)
        else Finished(end, out + src[run.next..end], defined)
      else
        UncompressUnknownMatch(src, max, end, src[pos] % 16, out + src[run.next..end], defined)
  }

  function UncompressUnknownMatch(src: seq<byte>, max: nat, pos: nat, nibble: nat, out: seq<byte>, defined: bool)
    : (r: Outcome)
    requires |out| + COPYLENGTH <= max && pos + COPYLENGTH <= |src|
    ensures !r.Overread?
    ensures r.Finished? ==> pos <= r.consumed <= |src| && |r.text| <= max
    ensures r.Malformed? ==> pos < r.position <= |src|
    decreases max - |out|, 0
  {
    var offset := OffsetAt(src, pos);
    if offset > |out| then Malformed(pos + 2)
    else
      var len := ReadLengthBounded(src, pos + 2, nibble);
      var n := len.value + MINMATCH;
      if |out| + n > max then Malformed(len.next)
      else
        var text := CopyMatch(out, offset, n);
        if |out| + n == max then Finished(len.next, text, defined && offset > 0)
        else UncompressUnknown(src, max, len.next, text, defined && offset > 0)
  }

  // ---------------------------------------------------------------- decoding a serialised block

  predicate At(src: seq<byte>, pos: nat, w: seq<byte>) {
    pos + |w| <= |src| && src[pos..pos + |w|] == w
  }

  lemma AtSplit(src: seq<byte>, pos: nat, a: seq<byte>, b: seq<byte>)
    requires At(src, pos, a + b)
    ensures At(src, pos, a) && At(src, pos + |a|, b)
  {
    var w := src[pos..pos + |a + b|];
    assert a == w[..|a|] == src[pos..pos + |a|];
    assert b == w[|a|..] == src[pos + |a|..pos + |a| + |b|];
  }

  lemma {:induction false} ReadRunEncoded(src: seq<byte>, pos: nat, n: nat)
    requires At(src, pos, LengthBytes(n))
    ensures ReadRun(src, pos) == Some(Length(n, pos + |LengthBytes(n)|))
    ensures ReadRunBounded(src, pos) == Length(n, pos + |LengthBytes(n)|)
    decreases n
  {
    assert src[pos] == src[pos..pos + |LengthBytes(n)|][0] == LengthBytes(n)[0];
    if n >= 255 {
      AtSplit(src, pos, [255], LengthBytes(n - 255));
      ReadRunEncoded(src, pos + 1, n - 255);
    }
  }

  lemma ReadLengthEncoded(src: seq<byte>, pos: nat, n: nat)
    requires At(src, pos, Extension(n))
    ensures ReadLength(src, pos, Nibble(n)) == Some(Length(n, pos + |Extension(n)|))
    ensures ReadLengthBounded(src, pos, Nibble(n)) == Length(n, pos + |Extension(n)|)
  {
    if n >= RUN_MASK {
      ReadRunEncoded(src, pos, n - RUN_MASK);
    }
  }

  /** Reading back a token, its literal length and its literals. */
  lemma HeadEncoded(src: seq<byte>, pos: nat, literals: seq<byte>, low: nat)
    requires low < 16 && At(src, pos, EncodeHead(literals, low))
    ensures src[pos] / 16 == Nibble(|literals|) && src[pos] % 16 == low
    ensures var next := pos + 1 + |Extension(|literals|)|;
            && ReadLength(src, pos + 1, src[pos] / 16) == Some(Length(|literals|, next))
            && ReadLengthBounded(src, pos + 1, src[pos] / 16) == Length(|literals|, next)
            && next + |literals| == pos + |EncodeHead(literals, low)| <= |src|
            && src[next..next + |literals|] == literals
  {
    hide ReadRun, ReadRunBounded, LengthBytes, ReadLength, ReadLengthBounded;
    var token: byte := 16 * Nibble(|literals|) + low;
    AtSplit(src, pos, [token] + Extension(|literals|), literals);
    AtSplit(src, pos, [token], Extension(|literals|));
    assert src[pos] == src[pos..pos + 1][0] == token;
    ReadLengthEncoded(src, pos + 1, |literals|);
  }

  lemma MatchEncoded(src: seq<byte>, pos: nat, offset: nat, m: nat)
    requires offset < 0x10000 && At(src, pos, OffsetBytes(offset) + Extension(m))
    ensures OffsetAt(src, pos) == offset
    ensures ReadLength(src, pos + 2, Nibble(m)) == Some(Length(m, pos + 2 + |Extension(m)|))
    ensures ReadLengthBounded(src, pos + 2, Nibble(m)) == Length(m, pos + 2 + |Extension(m)|)
  {
    AtSplit(src, pos, OffsetBytes(offset), Extension(m));
    assert src[pos] == src[pos..pos + 2][0] && src[pos + 1] == src[pos..pos + 2][1];
    ReadLengthEncoded(src, pos + 2, m);
  }

  lemma {:induction false} LastLiteralsRemain(out: seq<byte>, ss: seq<Sequence>, total: nat)
    requires Executable(|out|, ss) && EndsEarly(|out|, ss, total) && ss != []
    ensures |Run(out, ss)| + LASTLITERALS <= total
    decreases |ss|
  {
    if |ss| > 1 {
      LastLiteralsRemain(Execute(out, ss[0]), ss[1..], total);
    }
  }

  /** With eight input bytes and eight output bytes of slack, both decoders copy the literals of a head. */
  lemma DecodeHead(src: seq<byte>, size: nat, pos: nat, out: seq<byte>, literals: seq<byte>, low: nat)
    requires low < 16 && At(src, pos, EncodeHead(literals, low))
    requires pos + |EncodeHead(literals, low)| + COPYLENGTH <= |src|
    requires |out| + |literals| + COPYLENGTH <= size
    ensures var p := pos + |EncodeHead(literals, low)|;
            && Uncompress(src, size, pos, out, true) == UncompressMatch(src, size, p, low, out + literals, true)
            && UncompressUnknown(src, size, pos, out, true)
            == UncompressUnknownMatch(src, size, p, low, out + literals, true)
  {
    hide UncompressMatch, UncompressUnknownMatch, Extension, Nibble, At, EncodeHead, ReadLength, ReadLengthBounded;
    HeadEncoded(src, pos, literals, low);
  }

  /** Both decoders execute a match that stays clear of the end of the output. */
  lemma DecodeMatch(src: seq<byte>, size: nat, pos: nat, out: seq<byte>, offset: nat, m: nat)
    requires 1 <= offset <= |out| && offset < 0x10000 && At(src, pos, OffsetBytes(offset) + Extension(m))
    requires |out| + COPYLENGTH <= size && |out| + m + MINMATCH < size && pos + COPYLENGTH <= |src|
    ensures var next, text := pos + 2 + |Extension(m)|, CopyBack(out, offset, m + MINMATCH);
            && UncompressMatch(src, size, pos, Nibble(m), out, true) == Uncompress(src, size, next, text, true)
            && next <= |src|
            && UncompressUnknownMatch(src, size, pos, Nibble(m), out, true)
            == UncompressUnknown(src, size, next, text, true)
  {
    hide Uncompress, UncompressUnknown, Extension, Nibble, At, OffsetBytes, OffsetAt, ReadLength, ReadLengthBounded;
    MatchEncoded(src, pos, offset, m);
  }

  /** Both decoders execute one serialised sequence and go on behind it. */
  lemma DecodeSequence(src: seq<byte>, size: nat, pos: nat, out: seq<byte>, s: Sequence, rest: seq<byte>)
    requires |out| <= size && SequenceOk(|out|, s)
    requires |out| + |s.literals| + MFLIMIT <= size && EndOf(|out|, s) + LASTLITERALS <= size
    requires At(src, pos, EncodeSequence(s) + rest) && |rest| >= 1 + LASTLITERALS
    ensures At(src, pos + |EncodeSequence(s)|, rest)
    ensures Uncompress(src, size, pos, out, true)
         == Uncompress(src, size, pos + |EncodeSequence(s)|, Execute(out, s), true)
    ensures UncompressUnknown(src, size, pos, out, true)
         == UncompressUnknown(src, size, pos + |EncodeSequence(s)|, Execute(out, s), true)
  {
    hide Uncompress, UncompressUnknown, UncompressMatch, UncompressUnknownMatch, EncodeHead, Extension, Nibble;
    var m := s.matchLength - MINMATCH;
    var head, mid := EncodeHead(s.literals, Nibble(m)), OffsetBytes(s.offset) + Extension(m);
    AtSplit(src, pos, EncodeSequence(s), rest);
    assert EncodeSequence(s) == head + mid;
    AtSplit(src, pos, head, mid);
    DecodeHead(src, size, pos, out, s.literals, Nibble(m));
    DecodeMatch(src, size, pos + |head|, out + s.literals, s.offset, m);
  }

  /** The last literals reach the end of the output exactly, which is how LZ4_uncompress recognises them. */
  lemma DecodeLast(src: seq<byte>, size: nat, pos: nat, out: seq<byte>, last: seq<byte>)
    requires At(src, pos, EncodeHead(last, 0)) && |out| + |last| == size
    ensures Uncompress(src, size, pos, out, true) == Finished(pos + |EncodeHead(last, 0)|, out + last, true)
  {
    HeadEncoded(src, pos, last, 0);
  }

  /** The other decoder recognises them by the end of its input. */
  lemma DecodeLastUnknown(src: seq<byte>, max: nat, pos: nat, out: seq<byte>, last: seq<byte>)
    requires At(src, pos, EncodeHead(last, 0)) && |out| + |last| <= max
    requires pos + |EncodeHead(last, 0)| == |src|
    ensures UncompressUnknown(src, max, pos, out, true) == Finished(|src|, out + last, true)
  {
    HeadEncoded(src, pos, last, 0);
  }

  lemma EncodeHoldsLast(b: Block)
    requires LongEnough(b.sequences)
    ensures |Encode(b)| >= 1 + |b.last|
  {
  }

  /** `LZ4_uncompress` turns a serialised block back into its meaning and consumes exactly its bytes. */
  lemma {:induction false} DecodeFrom(src: seq<byte>, pos: nat, out: seq<byte>, b: Block, size: nat)
    requires Executable(|out|, b.sequences) && EndsEarly(|out|, b.sequences, size)
    requires LongEnough(b.sequences) && At(src, pos, Encode(b))
    requires |out| <= size && |Run(out, b.sequences)| + |b.last| == size
    ensures Uncompress(src, size, pos, out, true)
         == Finished(pos + |Encode(b)|, Run(out, b.sequences) + b.last, true)
    decreases |b.sequences|
  {
    hide Uncompress, UncompressUnknown, EncodeHead, EncodeSequence, At, Execute;
    var ss := b.sequences;
    if ss == [] {
      assert Encode(b) == EncodeHead(b.last, 0);
      DecodeLast(src, size, pos, out, b.last);
    } else {
      var tail := Block(ss[1..], b.last);
      assert Encode(b) == EncodeSequence(ss[0]) + Encode(tail);
      LastLiteralsRemain(out, ss, size);
      EncodeHoldsLast(tail);
      DecodeSequence(src, size, pos, out, ss[0], Encode(tail));
      DecodeFrom(src, pos + |EncodeSequence(ss[0])|, Execute(out, ss[0]), tail, size);
    }
  }

  /** So does the other decoder, in any buffer that is large enough, if the block is its whole input. */
  lemma {:induction false} DecodeUnknownFrom(src: seq<byte>, pos: nat, out: seq<byte>, b: Block, size: nat, max: nat)
    requires Executable(|out|, b.sequences) && EndsEarly(|out|, b.sequences, size)
    requires LongEnough(b.sequences) && At(src, pos, Encode(b)) && pos + |Encode(b)| == |src|
    requires |out| <= size <= max && |Run(out, b.sequences)| + |b.last| == size
    ensures UncompressUnknown(src, max, pos, out, true)
         == Finished(|src|, Run(out, b.sequences) + b.last, true)
    decreases |b.sequences|
  {
    hide Uncompress, UncompressUnknown, EncodeHead, EncodeSequence, At, Execute;
    var ss := b.sequences;
    if ss == [] {
      assert Encode(b) == EncodeHead(b.last, 0);
      DecodeLastUnknown(src, max, pos, out, b.last);
    } else {
      var tail := Block(ss[1..], b.last);
      assert Encode(b) == EncodeSequence(ss[0]) + Encode(tail);
      LastLiteralsRemain(out, ss, size);
      EncodeHoldsLast(tail);
      DecodeSequence(src, max, pos, out, ss[0], Encode(tail));
      DecodeUnknownFrom(src, pos + |EncodeSequence(ss[0])|, Execute(out, ss[0]), tail, size, max);
    }
  }
}
