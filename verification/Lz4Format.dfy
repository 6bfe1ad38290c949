/** The LZ4 block format: sequences, their meaning as a byte-by-byte LZ77 copy, and their serialisation. */
module Lz4Format {
  import opened Lz4Words

  const MINMATCH := 4
  const LASTLITERALS := 5
  const MFLIMIT := 12
  const MAX_DISTANCE := 65535
  const RUN_MASK := 15
  const ML_MASK := 15

  datatype Sequence = Sequence(literals: seq<byte>, offset: nat, matchLength: nat)

  datatype Block = Block(sequences: seq<Sequence>, last: seq<byte>)

  // ---------------------------------------------------------------- meaning

  /** `out` followed by `n` bytes, each copied from `offset` positions before it. */
  function CopyBack(out: seq<byte>, offset: nat, n: nat): (r: seq<byte>)
    requires 1 <= offset <= |out|
    ensures |r| == |out| + n && r[..|out|] == out
  {
    if n == 0 then out
    else
      var r := CopyBack(out, offset, n - 1);
      r + [r[|r| - offset]]
  }

  predicate EchoAt(s: seq<byte>, k: nat, offset: nat)
    requires offset <= k < |s|
  {
    s[k] == s[k - offset]
  }

  /** Every byte of `s` from `lo` to `hi` repeats the byte `offset` positions before it. */
  ghost predicate Repeats(s: seq<byte>, lo: nat, hi: nat, offset: nat)
    requires offset <= lo && hi <= |s|
  {
    forall k | lo <= k < hi :: EchoAt(s, k, offset)
  }

  /** `CopyBack` is the only extension of `out` that repeats at the given offset. */
  lemma {:induction false} CopyBackUnique(out: seq<byte>, offset: nat, r: seq<byte>)
    requires 1 <= offset <= |out| <= |r| && r[..|out|] == out
    ensures Repeats(r, |out|, |r|, offset) <==> r == CopyBack(out, offset, |r| - |out|)
    decreases |r|
  {
    if |r| == |out| {
      assert r == out;
    } else {
      var front := r[..|r| - 1];
      assert front[..|out|] == out;
      CopyBackUnique(out, offset, front);
      assert r == front + [r[|r| - 1]];
      assert forall k | |out| <= k < |front| :: EchoAt(front, k, offset) == EchoAt(r, k, offset);
      assert EchoAt(r, |r| - 1, offset) <==> r[|r| - 1] == front[|front| - offset];
    }
  }

  predicate SequenceOk(len: nat, s: Sequence) {
    1 <= s.offset <= len + |s.literals| && s.offset <= MAX_DISTANCE && s.matchLength >= MINMATCH
  }

  function EndOf(len: nat, s: Sequence): nat {
    len + |s.literals| + s.matchLength
  }

  /** The sequences can be executed after `len` bytes: every offset points into what is already there. */
  predicate Executable(len: nat, ss: seq<Sequence>)
    decreases |ss|
  {
    ss == [] || (SequenceOk(len, ss[0]) && Executable(EndOf(len, ss[0]), ss[1..]))
  }

  function Execute(out: seq<byte>, s: Sequence): (r: seq<byte>)
    requires SequenceOk(|out|, s)
    ensures |r| == EndOf(|out|, s)
  {
    CopyBack(out + s.literals, s.offset, s.matchLength)
  }

  function Run(out: seq<byte>, ss: seq<Sequence>): seq<byte>
    requires Executable(|out|, ss)
    decreases |ss|
  {
    if ss == [] then out else Run(Execute(out, ss[0]), ss[1..])
  }

  /** What a block stands for. */
  function Meaning(b: Block): seq<byte>
    requires Executable(0, b.sequences)
  {
    Run([], b.sequences) + b.last
  }

  lemma {:induction false} RunAppend(out: seq<byte>, ss: seq<Sequence>, s: Sequence)
    requires Executable(|out|, ss) && SequenceOk(|Run(out, ss)|, s)
    ensures Executable(|out|, ss + [s])
    ensures Run(out, ss + [s]) == Execute(Run(out, ss), s)
    decreases |ss|
  {
    if ss == [] {
      assert ss + [s] == [s];
      assert [s][1..] == [];
    } else {
      assert (ss + [s])[0] == ss[0] && (ss + [s])[1..] == ss[1..] + [s];
      RunAppend(Execute(out, ss[0]), ss[1..], s);
    }
  }

  /**
   * End of block conditions for a text of `total` bytes: a match starts at least MFLIMIT bytes and
   * ends at least LASTLITERALS bytes before the end of the text.
   */
  predicate EndsEarly(len: nat, ss: seq<Sequence>, total: nat)
    decreases |ss|
  {
    ss == [] || (
      && len + |ss[0].literals| + MFLIMIT <= total
      && EndOf(len, ss[0]) + LASTLITERALS <= total
      && EndsEarly(EndOf(len, ss[0]), ss[1..], total))
  }

  lemma {:induction false} EndsEarlyAppend(out: seq<byte>, ss: seq<Sequence>, s: Sequence, total: nat)
    requires Executable(|out|, ss) && EndsEarly(|out|, ss, total)
    requires |Run(out, ss)| + |s.literals| + MFLIMIT <= total
    requires EndOf(|Run(out, ss)|, s) + LASTLITERALS <= total
    ensures EndsEarly(|out|, ss + [s], total)
    decreases |ss|
  {
    if ss == [] {
      assert ss + [s] == [s];
      assert [s][1..] == [];
    } else {
      assert (ss + [s])[0] == ss[0] && (ss + [s])[1..] == ss[1..] + [s];
      EndsEarlyAppend(Execute(out, ss[0]), ss[1..], s, total);
    }
  }

  /** `b` is a legal block for the text: executable, obeying the end conditions, and meaning the text. */
  predicate BlockFor(b: Block, text: seq<byte>) {
    Executable(0, b.sequences) && EndsEarly(0, b.sequences, |text|) && Meaning(b) == text
  }

  // ---------------------------------------------------------------- serialisation

  function LengthBytes(n: nat): seq<byte> {
    if n < 255 then [n] else [255] + LengthBytes(n - 255)
  }

  function Nibble(n: nat): (r: nat)
    ensures r < 16
  {
    if n < RUN_MASK then n else RUN_MASK
  }

  /** The length bytes that follow the token when its nibble is saturated. */
  function Extension(n: nat): seq<byte> {
    if n < RUN_MASK then [] else LengthBytes(n - RUN_MASK)
  }

  function EncodeHead(literals: seq<byte>, low: nat): seq<byte>
    requires low < 16
  {
    [16 * Nibble(|literals|) + low] + Extension(|literals|) + literals
  }

  function OffsetBytes(offset: nat): seq<byte> {
    [offset % 256, offset / 256 % 256]
  }

  function EncodeSequence(s: Sequence): seq<byte>
    requires s.matchLength >= MINMATCH
  {
    var m := s.matchLength - MINMATCH;
    EncodeHead(s.literals, Nibble(m)) + OffsetBytes(s.offset) + Extension(m)
  }

  predicate LongEnough(ss: seq<Sequence>) {
    forall s | s in ss :: s.matchLength >= MINMATCH
  }

  function EncodeSequences(ss: seq<Sequence>): seq<byte>
    requires LongEnough(ss)
  {
    if ss == [] then [] else EncodeSequence(ss[0]) + EncodeSequences(ss[1..])
  }

  function Encode(b: Block): seq<byte>
    requires LongEnough(b.sequences)
  {
    EncodeSequences(b.sequences) + EncodeHead(b.last, 0)
  }

  lemma {:induction false} EncodeAppend(ss: seq<Sequence>, s: Sequence)
    requires LongEnough(ss + [s])
    ensures LongEnough(ss)
    ensures EncodeSequences(ss + [s]) == EncodeSequences(ss) + EncodeSequence(s)
    decreases |ss|
  {
    assert forall t | t in ss :: t in ss + [s];
    if ss == [] {
      assert ss + [s] == [s];
      assert [s][1..] == [];
    } else {
      assert (ss + [s])[0] == ss[0] && (ss + [s])[1..] == ss[1..] + [s];
      EncodeAppend(ss[1..], s);
    }
  }

  lemma {:induction false} ExecutableLongEnough(len: nat, ss: seq<Sequence>)
    requires Executable(len, ss)
    ensures LongEnough(ss)
    decreases |ss|
  {
    if ss != [] {
      ExecutableLongEnough(EndOf(len, ss[0]), ss[1..]);
      assert ss == [ss[0]] + ss[1..];
    }
  }

  // ---------------------------------------------------------------- sizes

  function ExtensionSize(n: nat): nat {
    if n < RUN_MASK then 0 else 1 + (n - RUN_MASK) / 255
  }

  lemma {:induction false} LengthBytesSize(n: nat)
    ensures |LengthBytes(n)| == 1 + n / 255
  {
    if n >= 255 {
      LengthBytesSize(n - 255);
    }
  }

  lemma ExtensionBytesSize(n: nat)
    ensures |Extension(n)| == ExtensionSize(n)
  {
    if n >= RUN_MASK {
      LengthBytesSize(n - RUN_MASK);
    }
  }

  lemma EncodeSequenceSize(s: Sequence)
    requires s.matchLength >= MINMATCH
    ensures |EncodeSequence(s)| ==
            3 + ExtensionSize(|s.literals|) + |s.literals| + ExtensionSize(s.matchLength - MINMATCH)
  {
    ExtensionBytesSize(|s.literals|);
    ExtensionBytesSize(s.matchLength - MINMATCH);
  }

  /** No sequence costs more than 256/255 of the text it stands for. */
  lemma SequenceExpansion(s: Sequence)
    requires s.matchLength >= MINMATCH
    ensures 255 * |EncodeSequence(s)| <= 256 * (|s.literals| + s.matchLength)
  {
    EncodeSequenceSize(s);
  }
}
