/** The data part of a request or response: raw bytes or a compressed block with its original size. */
module DataBlocks {
  import opened Lz4Words
  import opened Lz4Format
  import opened Lz4Compress
  import opened Lz4Size
  import opened Lz4Parse
  import Lz4Compressor
  import Lz4Decoder
  import Lz4RoundTrip
  import D = Lz4Decode

  datatype Compression = ComprNone | ComprLz4 | Unsupported

  /** The three fields of the message. */
  datatype Contents = Contents(bytes: seq<byte>, size: nat, compression: Compression)

  /**
   * What reading a block gives; `ReadsPastBlock` is a decoder run that leaves the stored bytes, and
   * `WritesPastBuffer` a copy of raw bytes that leaves the buffer of the caller.
   */
  datatype Answer = Got(data: seq<byte>) | Failed | ReadsPastBlock | WritesPastBuffer

  const COMPRESSION_THRESHOLD := 100

  /** What LZ4 makes of the data; empty if it would gain too little. */
  function Squeezed(data: seq<byte>): (r: seq<byte>)
    requires |data| <= MAX_INPUT
  {
    var b := Choose(Lz4Compressor.VariantFor(|data|), data);
    ChooseIsLegal(Lz4Compressor.VariantFor(|data|), data);
    ExecutableLongEnough(0, b.sequences);
    Output(b, |data|)
  }

  datatype SetResult = SetResult(ok: bool, contents: Contents)

  /** `DataBlock_set_data` on a block with contents `c`. */
  function SetContents(c: Contents, data: seq<byte>, compression: Compression): SetResult
    requires |data| <= MAX_INPUT
  {
    if data == [] then SetResult(true, c.(bytes := []))
    else
      match (if |data| > COMPRESSION_THRESHOLD then compression else ComprNone)
      case ComprNone => SetResult(true, Contents(data, |data|, ComprNone))
      case ComprLz4 =>
        if Squeezed(data) == [] then SetResult(true, Contents(data, |data|, ComprNone))
        else SetResult(true, Contents(Squeezed(data), |data|, ComprLz4))
      case Unsupported => SetResult(false, c.(bytes := []))
  }

  /** `a` is a legal answer of `DataBlock_get_data` for a block with contents `c`. */
  ghost predicate Reads(c: Contents, a: Answer) {
    match c.compression
    case ComprNone => a == Got(c.bytes)
    case Unsupported => a == Failed
    case ComprLz4 =>
      match D.Uncompress(c.bytes, c.size, 0, [], true)
      case Overread => a == ReadsPastBlock
      case Malformed(_) => a == Failed
      case Finished(consumed, text, defined) =>
        if consumed == |c.bytes| then a.Got? && |a.data| == c.size && (defined ==> text <= a.data)
        else a == Failed
  }

  lemma SqueezedReads(data: seq<byte>, a: Answer)
    requires |data| <= MAX_INPUT && Squeezed(data) != []
    ensures Reads(Contents(Squeezed(data), |data|, ComprLz4), a) <==> a == Got(data)
  {
    hide D.Uncompress, Choose, Output;
    Lz4RoundTrip.RoundTrip(data, [], |data|);
    assert Squeezed(data) + [] == Squeezed(data);
  }

  /** Which data LZ4 makes smaller: the block chosen for them is at least 100 bytes shorter, or 99 if it ends in a long run. */
  lemma SqueezedExactly(data: seq<byte>)
    requires |data| <= MAX_INPUT
    ensures var b := Choose(Lz4Compressor.VariantFor(|data|), data);
            && BlockFor(b, data) && LongEnough(b.sequences)
            && (Squeezed(data) != [] <==> |Encode(b)| + (if |b.last| >= 15 then 99 else 100) <= |data|)
            && (Squeezed(data) != [] ==> Squeezed(data) == Encode(b))
  {
    hide Choose, Output, Encode, BlockFor, LongEnough;
    var b := Choose(Lz4Compressor.VariantFor(|data|), data);
    ChooseIsLegal(Lz4Compressor.VariantFor(|data|), data);
    Lz4Compressor.ChosenLongEnough(data);
    KeptExactly(b, |data|);
  }

  /**
   * A compressed block gives data exactly if the whole of its bytes, no less, is explained by sequences and
   * a last run or a last match; then the text they mean is what it gives, up to the size that is recorded.
   */
  lemma ReadsWhole(c: Contents, a: Answer)
    requires c.compression == ComprLz4
    ensures Reads(c, a) && a.Got? <==>
            && a.Got? && |a.data| == c.size
            && exists ss, stop, pos: nat, text, defined ::
                 && Explains(c.bytes, c.size, 0, [], true, ss, stop, pos, D.Finished(|c.bytes|, text, defined))
                 && (defined ==> text <= a.data)
  {
    hide D.Uncompress, Explains;
    match D.Uncompress(c.bytes, c.size, 0, [], true) {
      case Finished(consumed, text, defined) =>
        var o := D.Finished(consumed, text, defined);
        UncompressExactly(c.bytes, c.size, o);
      case _ =>
    }
    forall ss, stop, pos: nat, text, defined
      | Explains(c.bytes, c.size, 0, [], true, ss, stop, pos, D.Finished(|c.bytes|, text, defined))
      ensures D.Uncompress(c.bytes, c.size, 0, [], true) == D.Finished(|c.bytes|, text, defined)
    {
      UncompressExactly(c.bytes, c.size, D.Finished(|c.bytes|, text, defined));
    }
  }

  /** So data that were set compressed and arrive damaged are refused, unless they still are a block of that size. */
  lemma GotIsBlock(c: Contents, a: Answer) returns (ss: seq<Sequence>, last: seq<byte>, low: nat)
    requires c.compression == ComprLz4 && Reads(c, a) && a.Got?
    requires D.Uncompress(c.bytes, c.size, 0, [], true).defined
    ensures Executable(0, ss) && Run([], ss) + last <= a.data && BlockBytes(c.bytes, ss, last, low)
  {
    hide D.Uncompress, Executable, Run, BlockBytes;
    var o := D.Uncompress(c.bytes, c.size, 0, [], true);
    ss, last, low := AcceptedIsBlock(c.bytes, c.size, o.consumed, o.text);
    assert c.bytes[..|c.bytes|] == c.bytes;
  }

  /**
   * Whatever was set is read back, and nothing else is, unless empty data is set into a block that
   * was marked as compressed before: that mark stays.
   */
  lemma SetThenGet(c: Contents, data: seq<byte>, compression: Compression)
    requires |data| <= MAX_INPUT
    ensures var r := SetContents(c, data, compression);
            && (r.ok <==> |data| <= COMPRESSION_THRESHOLD || !compression.Unsupported?)
            && (r.ok ==> ((forall a :: Reads(r.contents, a) <==> a == Got(data))
                          <==> data != [] || c.compression == ComprNone))
  {
    hide D.Uncompress, Squeezed;
    var r := SetContents(c, data, compression);
    if data == [] {
      EmptyBlockOverreads(c.size);
      assert c.compression == ComprLz4 ==> Reads(r.contents, ReadsPastBlock);
      assert c.compression == Unsupported ==> Reads(r.contents, Failed);
    } else if r.ok && r.contents.compression == ComprLz4 {
      forall a
        ensures Reads(r.contents, a) <==> a == Got(data)
      {
        SqueezedReads(data, a);
      }
    }
  }

  lemma EmptyBlockOverreads(size: nat)
    ensures D.Uncompress([], size, 0, [], true) == D.Overread
  {
  }

  /** Compression never makes a block larger, and is kept only if it saves 99 bytes. */
  lemma StoredSize(c: Contents, data: seq<byte>, compression: Compression)
    requires 0 < |data| <= MAX_INPUT && SetContents(c, data, compression).ok
    ensures var r := SetContents(c, data, compression).contents;
            && r.size == |data|
            && (r.compression == ComprNone ==> r.bytes == data)
            && (r.compression == ComprLz4 ==> compression == ComprLz4 && 0 < |r.bytes| <= |data| - 99)
            && (r.compression == ComprLz4 || r.compression == ComprNone)
  {
    hide Choose, Output, LongEnough, Executable, EndsEarly, Run;
    var b := Choose(Lz4Compressor.VariantFor(|data|), data);
    ChooseIsLegal(Lz4Compressor.VariantFor(|data|), data);
    ExecutableLongEnough(0, b.sequences);
    if Squeezed(data) != [] {
      KeptSize(b, |data|);
    }
  }

  class DataBlock {
    var data: array?<byte>
    var len: nat
    var size: nat
    var compression: Compression

    ghost predicate Valid()
      reads this
    {
      if data == null then len == 0 else len <= data.Length
    }

    ghost function Bytes(): seq<byte>
      reads this, data
      requires Valid()
    {
      if data == null then [] else data[..len]
    }

    ghost function Value(): Contents
      reads this, data
      requires Valid()
    {
      Contents(Bytes(), size, compression)
    }

    /** `DataBlock_create` */
    constructor ()
      ensures Valid() && Value() == Contents([], 0, ComprNone)
    {
      data, len, size, compression := null, 0, 0, ComprNone;
    }

    /** `set_lz4_compressed_data`: a buffer of len + len / 250 bytes is large enough. */
    method SetLz4(input: seq<byte>) returns (kept: bool)
      requires 0 < |input| <= MAX_INPUT
      modifies this
      ensures Valid() && size == old(size) && compression == old(compression)
      ensures kept <==> Squeezed(input) != []
      ensures Bytes() == Squeezed(input)
      ensures data == null || fresh(data)
    {
      hide Choose, Output;
      var buffer := new byte[|input| + |input| / 250](_ => 0);
      var n := Lz4Compressor.Compress(input, buffer);
      assert buffer[..n] == Squeezed(input);
      if n == 0 {
        data, len := null, 0;
        return false;
      }
      data, len := buffer, n;
      return true;
    }

    /** `DataBlock_set_data` */
    method SetData(input: seq<byte>, wanted: Compression) returns (ok: bool)
      requires Valid() && |input| <= MAX_INPUT
      modifies this
      ensures Valid() && SetResult(ok, Value()) == SetContents(old(Value()), input, wanted)
      ensures ok <==> |input| <= 100 || wanted != Unsupported
      ensures !ok ==> Bytes() == [] && size == old(size) && compression == old(compression)
      ensures input == [] ==> Bytes() == [] && size == old(size) && compression == old(compression)
      ensures ok && input != [] ==> size == |input|
      ensures ok && input != [] ==>
                if |input| > 100 && wanted == ComprLz4 && Squeezed(input) != []
                then compression == ComprLz4 && Bytes() == Squeezed(input)
                else compression == ComprNone && Bytes() == input
      ensures data == null || fresh(data)
    {
      hide Squeezed;
      if |input| == 0 {
        data, len := null, 0;
        return true;
      }
      var chosen := if |input| > COMPRESSION_THRESHOLD then wanted else ComprNone;
      var failed := false;
      match chosen {
        case ComprNone =>
        case ComprLz4 =>
          var kept := SetLz4(input);
          if kept {
            compression := chosen;
          } else {
            failed := true;
          }
        case Unsupported =>
          data, len := null, 0;
          return false;
      }
      if chosen == ComprNone || failed {
        var copy := new byte[|input|](i requires 0 <= i < |input| => input[i]);
        data, len := copy, |input|;
        assert data[..len] == input;
        compression := ComprNone;
      }
      size := |input|;
      return true;
    }

    /** `DataBlock_get_data` */
    method GetData() returns (a: Answer)
      requires Valid()
      ensures Reads(Value(), a)
    {
      hide D.Uncompress;
      match compression {
        case ComprNone =>
          a := Got(if data == null then [] else data[..len]);
        case ComprLz4 =>
          var buffer := new byte[size](_ => 0);
          a := GetLz4(buffer);
        case Unsupported =>
          a := Failed;
      }
    }

    /** `get_lz4_compressed_data` into a buffer of at least `size` bytes */
    method GetLz4(buffer: array<byte>) returns (a: Answer)
      requires Valid() && compression == ComprLz4 && buffer.Length >= size && buffer != data
      modifies buffer
      ensures Reads(Value(), a) && Value() == old(Value())
      ensures a.Got? ==> buffer[..size] == a.data
    {
      hide D.Uncompress;
      var block := if data == null then [] else data[..len];
      var r := Lz4Decoder.Uncompress(block, buffer, size);
      match r {
        case ReadsPastInput => a := ReadsPastBlock;
        case Returns(code) =>
          if code < 0 || code != |block| {
            a := Failed;
          } else {
            a := Got(buffer[..size]);
          }
      }
      DecoderAnswer(block, size, buffer[..], r, a);
    }

    /**
     * `DataBlock_get_data_noalloc`: the same, into the caller's buffer. Only the recorded size is compared
     * with the buffer, so raw bytes that are more than the buffer takes are copied past its end.
     */
    method GetDataNoAlloc(buffer: array<byte>) returns (a: Answer)
      requires Valid() && buffer != data
      modifies buffer
      ensures Value() == old(Value())
      ensures a == WritesPastBuffer <==> compression == ComprNone && size <= buffer.Length < len
      ensures buffer.Length < size ==> a == Failed && buffer[..] == old(buffer[..])
      ensures buffer.Length >= size && a != WritesPastBuffer ==> Reads(Value(), a)
      ensures a.Got? ==> |a.data| <= buffer.Length && buffer[..|a.data|] == a.data
    {
      hide D.Uncompress;
      if buffer.Length < size { return Failed; }
      match compression {
        case ComprNone =>
          if len > buffer.Length { return WritesPastBuffer; }
          var block := if data == null then [] else data[..len];
          forall i | 0 <= i < len {
            buffer[i] := block[i];
          }
          assert buffer[..len] == block;
          a := Got(block);
        case ComprLz4 =>
          a := GetLz4(buffer);
        case Unsupported =>
          a := Failed;
      }
    }
  }

  /** No block that was set overruns the buffer of a reader: its raw bytes are never more than its size. */
  lemma SetBlocksFit(c: Contents, data: seq<byte>, compression: Compression)
    requires |data| <= MAX_INPUT && SetContents(c, data, compression).ok
    ensures var r := SetContents(c, data, compression).contents;
            r.compression == ComprNone ==> |r.bytes| <= r.size
  {
    hide Squeezed;
  }

  /** A block as it may be received: two raw bytes under a recorded size of one, read into one byte. */
  method ReceiveOversized() returns (a: Answer)
    ensures a == WritesPastBuffer
  {
    var block := new DataBlock();
    block.data := new byte[2](_ => 0);
    block.len, block.size := 2, 1;
    var buffer := new byte[1](_ => 0);
    a := block.GetDataNoAlloc(buffer);
  }

  lemma DecoderAnswer(block: seq<byte>, size: nat, buffer: seq<byte>, r: Lz4Decoder.Reply, a: Answer)
    requires size <= |buffer|
    requires Lz4Decoder.RepliesWith(r, buffer, D.Uncompress(block, size, 0, [], true))
    requires match r
             case ReadsPastInput => a == ReadsPastBlock
             case Returns(code) => if code < 0 || code != |block| then a == Failed else a == Got(buffer[..size])
    ensures Reads(Contents(block, size, ComprLz4), a)
  {
  }

  /** What `Request_set_data` and the receiving side do with a fresh block: nothing is lost. */
  method SendAndReceive(input: seq<byte>, wanted: Compression) returns (ok: bool, received: Answer, sent: nat)
    requires |input| <= MAX_INPUT
    ensures ok <==> |input| <= COMPRESSION_THRESHOLD || !wanted.Unsupported?
    ensures ok ==> received == Got(input) && sent <= |input|
  {
    hide Squeezed, Reads, SetContents;
    var block := new DataBlock();
    ghost var before := block.Value();
    SetThenGet(before, input, wanted);
    ok := block.SetData(input, wanted);
    received, sent := Failed, 0;
    if ok {
      received := block.GetData();
      sent := block.len;
      SentSize(before, input, wanted);
    }
  }

  lemma SentSize(c: Contents, data: seq<byte>, compression: Compression)
    requires |data| <= MAX_INPUT && SetContents(c, data, compression).ok
    ensures |SetContents(c, data, compression).contents.bytes| <= |data|
  {
    if data != [] {
      StoredSize(c, data, compression);
    }
  }
}
