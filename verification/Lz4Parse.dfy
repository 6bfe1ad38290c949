/**
 * What the decoders accept and why they stop, said in terms of the block format alone: which bytes stand at
 * the place where decoding ends, for every input.
 */
module Lz4Parse {
  import opened Options
  import opened Lz4Words
  import opened Lz4Format
  import opened Lz4Copy
  import opened Lz4Decode

  // ---------------------------------------------------------------- the format of damaged input

  /** The token and the length bytes of a run of `r` literals. */
  function RunBytes(r: nat, low: nat): seq<byte>
    requires low < 16
  {
    [16 * Nibble(r) + low] + Extension(r)
  }

  /** A sequence as far as it can be written down; its offset may be anything that fits two bytes. */
  predicate Written(s: Sequence) {
    s.matchLength >= MINMATCH && s.offset < 0x10000
  }

  /** The text after the sequence; an offset of zero copies bytes that nothing is known of. */
  function Copied(out: seq<byte>, s: Sequence): (r: seq<byte>)
    requires s.offset <= |out| + |s.literals|
    ensures |r| == EndOf(|out|, s)
    ensures SequenceOk(|out|, s) ==> r == Execute(out, s)
  {
    CopyMatch(out + s.literals, s.offset, s.matchLength)
  }

  // ---------------------------------------------------------------- LZ4_uncompress

  /** Why the decoder stops: each case is what stands at the place where it does. */
  datatype Stop =
    | LastRun(literals: seq<byte>, low: nat)
    | LastMatch(last: Sequence)
    | RunTooLong(length: nat, low: nat)
    | OffsetTooFar(literals: seq<byte>, low: nat, offset: nat)
    | MatchTooLong(bad: Sequence)

  /** A run of literals with eight bytes of output behind it, all of whose eight-byte steps can be read. */
  ghost predicate Clear(src: seq<byte>, osize: nat, pos: nat, len: nat, literals: seq<byte>, low: nat) {
    && low < 16 && At(src, pos, EncodeHead(literals, low)) && len + |literals| + 8 <= osize
    && pos + |RunBytes(|literals|, low)| + WildSpan(|literals|) <= |src|
  }

  /** A whole sequence whose offset stays inside the text, with `low` as the low half of its token. */
  ghost predicate Copies(src: seq<byte>, osize: nat, pos: nat, len: nat, s: Sequence) {
    && Written(s) && At(src, pos, EncodeSequence(s)) && s.offset <= len + |s.literals|
    && Clear(src, osize, pos, len, s.literals, Nibble(s.matchLength - MINMATCH))
  }

  /** From `pos`, with `len` bytes of text, the sequences lead to `pos'` without reaching the end of the output. */
  ghost predicate Reaches(src: seq<byte>, osize: nat, pos: nat, len: nat, ss: seq<Sequence>, pos': nat, len': nat)
    decreases |ss|
  {
    if ss == [] then pos' == pos && len' == len
    else
      && Copies(src, osize, pos, len, ss[0]) && EndOf(len, ss[0]) < osize
      && Reaches(src, osize, pos + |EncodeSequence(ss[0])|, EndOf(len, ss[0]), ss[1..], pos', len')
  }

  ghost predicate StopsAt(src: seq<byte>, osize: nat, pos: nat, len: nat, stop: Stop) {
    match stop
    case LastRun(literals, low) =>
      low < 16 && At(src, pos, EncodeHead(literals, low)) && len + |literals| <= osize < len + |literals| + 8
    case LastMatch(s) => Copies(src, osize, pos, len, s) && EndOf(len, s) == osize
    case RunTooLong(r, low) => low < 16 && At(src, pos, RunBytes(r, low)) && len + r > osize
    case OffsetTooFar(literals, low, offset) =>
      && Clear(src, osize, pos, len, literals, low) && len + |literals| < offset < 0x10000
      && At(src, pos, EncodeHead(literals, low) + OffsetBytes(offset))
    case MatchTooLong(s) => Copies(src, osize, pos, len, s) && EndOf(len, s) > osize
  }

  /** What the decoder then answers. */
  ghost function OutcomeOf(src: seq<byte>, osize: nat, pos: nat, out: seq<byte>, defined: bool, stop: Stop): Outcome
    requires StopsAt(src, osize, pos, |out|, stop)
  {
    match stop
    case LastRun(literals, low) => Finished(pos + |EncodeHead(literals, low)|, out + literals, defined)
    case LastMatch(s) => Finished(pos + |EncodeSequence(s)|, Copied(out, s), defined && s.offset > 0)
    case RunTooLong(r, low) => Malformed(pos + |RunBytes(r, low)|)
    case OffsetTooFar(literals, low, _) => Malformed(pos + |EncodeHead(literals, low)| + 2)
    case MatchTooLong(s) => Malformed(pos + |EncodeSequence(s)|)
  }

  // ---------------------------------------------------------------- reading lengths backwards

  lemma AtJoin(src: seq<byte>, pos: nat, a: seq<byte>, b: seq<byte>)
    requires At(src, pos, a) && At(src, pos + |a|, b)
    ensures At(src, pos, a + b)
  {
    assert src[pos..pos + |a + b|] == src[pos..pos + |a|] + src[pos + |a|..pos + |a| + |b|];
  }

  lemma {:induction false} RunRead(src: seq<byte>, pos: nat)
    requires ReadRun(src, pos).Some?
    ensures var l := ReadRun(src, pos).value;
            At(src, pos, LengthBytes(l.value)) && l.next == pos + |LengthBytes(l.value)|
    decreases |src| - pos
  {
    if src[pos] == 255 {
      RunRead(src, pos + 1);
      var l := ReadRun(src, pos + 1).value;
      assert src[pos..pos + 1] == [255];
      AtJoin(src, pos, [255], LengthBytes(l.value));
    }
  }

  /** A length that has been read stands there in its only spelling. */
  lemma LengthRead(src: seq<byte>, pos: nat, nibble: nat)
    requires nibble < 16 && ReadLength(src, pos, nibble).Some?
    ensures var l := ReadLength(src, pos, nibble).value;
            nibble == Nibble(l.value) && l.next == pos + |Extension(l.value)| && (pos <= |src| ==> At(src, pos, Extension(l.value)))
  {
    hide LengthBytes;
    if nibble == 15 {
      RunRead(src, pos);
    }
  }

  lemma HeadRead(src: seq<byte>, pos: nat)
    requires pos < |src| && ReadLength(src, pos + 1, src[pos] / 16).Some?
    ensures var l, low := ReadLength(src, pos + 1, src[pos] / 16).value, src[pos] % 16;
            && low < 16 && At(src, pos, RunBytes(l.value, low)) && l.next == pos + |RunBytes(l.value, low)| <= |src|
  {
    hide Extension, Nibble, ReadLength;
    LengthRead(src, pos + 1, src[pos] / 16);
    var l := ReadLength(src, pos + 1, src[pos] / 16).value;
    var token: byte := 16 * Nibble(l.value) + src[pos] % 16;
    assert src[pos..pos + 1] == [token];
    AtJoin(src, pos, [token], Extension(l.value));
  }

  lemma LiteralsRead(src: seq<byte>, pos: nat, r: nat, low: nat)
    requires low < 16 && At(src, pos, RunBytes(r, low)) && pos + |RunBytes(r, low)| + r <= |src|
    ensures var next := pos + |RunBytes(r, low)|;
            At(src, pos, EncodeHead(src[next..next + r], low)) && |EncodeHead(src[next..next + r], low)| == |RunBytes(r, low)| + r
  {
    hide Extension, Nibble;
    var next := pos + |RunBytes(r, low)|;
    AtJoin(src, pos, RunBytes(r, low), src[next..next + r]);
  }

  lemma OffsetRead(src: seq<byte>, pos: nat)
    requires pos + 2 <= |src|
    ensures OffsetAt(src, pos) < 0x10000 && At(src, pos, OffsetBytes(OffsetAt(src, pos)))
  {
    var a, b := src[pos] as int, src[pos + 1] as int;
    ByteSplit(a, b);
    assert src[pos..pos + 2] == [src[pos], src[pos + 1]];
  }

  lemma ByteSplit(a: nat, b: nat)
    requires a < 256 && b < 256
    ensures (a + 256 * b) % 256 == a && (a + 256 * b) / 256 % 256 == b
  {
  }

  // ---------------------------------------------------------------- every outcome of LZ4_uncompress explained

  /** The second half of a round, behind literals that stand at `pos`. */
  lemma MatchRead(src: seq<byte>, osize: nat, pos: nat, out: seq<byte>, defined: bool, literals: seq<byte>, low: nat)
    returns (stop: Option<Stop>, s: Sequence)
    requires Clear(src, osize, pos, |out|, literals, low)
    requires !UncompressMatch(src, osize, pos + |EncodeHead(literals, low)|, low, out + literals, defined).Overread?
    ensures var o := UncompressMatch(src, osize, pos + |EncodeHead(literals, low)|, low, out + literals, defined);
            match stop
            case Some(st) =>
              StopsAt(src, osize, pos, |out|, st) && o == OutcomeOf(src, osize, pos, out, defined, st)
            case None =>
              && Copies(src, osize, pos, |out|, s) && EndOf(|out|, s) < osize
              && o == Uncompress(src, osize, pos + |EncodeSequence(s)|, Copied(out, s), defined && s.offset > 0)
  {
    hide Uncompress, EncodeHead, Extension, OffsetBytes, OffsetAt, ReadLength, Nibble, At, CopyMatch, RunBytes;
    var head, next := EncodeHead(literals, low), pos + |EncodeHead(literals, low)|;
    var offset := OffsetAt(src, next);
    OffsetRead(src, next);
    AtJoin(src, pos, head, OffsetBytes(offset));
    TwoBytes(offset);
    s := Sequence(literals, offset, MINMATCH);
    if offset > |out| + |literals| {
      stop := Some(OffsetTooFar(literals, low, offset));
    } else {
      AtEnds(src, next, OffsetBytes(offset));
      LengthRead(src, next + 2, low);
      var m := ReadLength(src, next + 2, low).value.value;
      AtJoin(src, pos, head + OffsetBytes(offset), Extension(m));
      s := Sequence(literals, offset, m + MINMATCH);
      assert EncodeSequence(s) == head + OffsetBytes(offset) + Extension(m);
      stop := if |out| + |literals| + m + MINMATCH > osize then Some(MatchTooLong(s))
              else if |out| + |literals| + m + MINMATCH == osize then Some(LastMatch(s)) else None;
    }
  }

  lemma TwoBytes(offset: nat)
    ensures |OffsetBytes(offset)| == 2
  {
  }

  lemma AtEnds(src: seq<byte>, pos: nat, w: seq<byte>)
    requires At(src, pos, w)
    ensures pos + |w| <= |src|
  {
  }

  /** One round. */
  lemma RoundRead(src: seq<byte>, osize: nat, pos: nat, out: seq<byte>, defined: bool)
    returns (stop: Option<Stop>, s: Sequence)
    requires |out| <= osize && !Uncompress(src, osize, pos, out, defined).Overread?
    ensures var o := Uncompress(src, osize, pos, out, defined);
            match stop
            case Some(st) =>
              StopsAt(src, osize, pos, |out|, st) && o == OutcomeOf(src, osize, pos, out, defined, st)
            case None =>
              && Copies(src, osize, pos, |out|, s) && EndOf(|out|, s) < osize
              && o == Uncompress(src, osize, pos + |EncodeSequence(s)|, Copied(out, s), defined && s.offset > 0)
  {
    hide UncompressMatch, EncodeHead, ReadLength, At, RunBytes, WildSpan, Copies;
    HeadRead(src, pos);
    var r, low := ReadLength(src, pos + 1, src[pos] / 16).value.value, src[pos] % 16;
    s := Sequence([], 0, MINMATCH);
    if |out| + r > osize {
      stop := Some(RunTooLong(r, low));
    } else {
      SpanHolds(r);
      LiteralsRead(src, pos, r, low);
      var next := pos + |RunBytes(r, low)|;
      var literals := src[next..next + r];
      if |out| + r + COPYLENGTH > osize {
        stop := Some(LastRun(literals, low));
      } else {
        stop, s := MatchRead(src, osize, pos, out, defined, literals, low);
      }
    }
  }

  lemma SpanHolds(n: nat)
    ensures n <= WildSpan(n)
  {
  }

  /** The text after some sequences, whatever their offsets. */
  function CopiedAll(out: seq<byte>, ss: seq<Sequence>): seq<byte>
    requires OffsetsInside(|out|, ss)
    decreases |ss|
  {
    if ss == [] then out else CopiedAll(Copied(out, ss[0]), ss[1..])
  }

  predicate OffsetsInside(len: nat, ss: seq<Sequence>)
    decreases |ss|
  {
    ss == [] || (ss[0].offset <= len + |ss[0].literals| && OffsetsInside(EndOf(len, ss[0]), ss[1..]))
  }

  predicate NoZero(ss: seq<Sequence>) {
    forall s | s in ss :: s.offset > 0
  }

  /** The input is explained by these sequences and this reason to stop. */
  ghost predicate Explains(src: seq<byte>, osize: nat, pos: nat, out: seq<byte>, defined: bool,
                           ss: seq<Sequence>, stop: Stop, pos': nat, o: Outcome)
  {
    && OffsetsInside(|out|, ss)
    && Reaches(src, osize, pos, |out|, ss, pos', |CopiedAll(out, ss)|)
    && StopsAt(src, osize, pos', |CopiedAll(out, ss)|, stop)
    && o == OutcomeOf(src, osize, pos', CopiedAll(out, ss), defined && NoZero(ss), stop)
  }

  /** Whatever `LZ4_uncompress` answers, unless it runs off its input, there is such an explanation. */
  lemma {:induction false} Explained(src: seq<byte>, osize: nat, pos: nat, out: seq<byte>, defined: bool)
    returns (ss: seq<Sequence>, stop: Stop, pos': nat)
    requires |out| <= osize && !Uncompress(src, osize, pos, out, defined).Overread?
    ensures Explains(src, osize, pos, out, defined, ss, stop, pos', Uncompress(src, osize, pos, out, defined))
    decreases osize - |out|
  {
    hide Uncompress, StopsAt, OutcomeOf, Copies, EncodeSequence, Copied;
    var st, s := RoundRead(src, osize, pos, out, defined);
    if st.Some? {
      ss, stop, pos' := [], st.value, pos;
    } else {
      CopiesInside(src, osize, pos, |out|, s);
      var rest;
      rest, stop, pos' := Explained(src, osize, pos + |EncodeSequence(s)|, Copied(out, s), defined && s.offset > 0);
      ss := [s] + rest;
      assert ss[1..] == rest;
      assert NoZero(ss) <==> s.offset > 0 && NoZero(rest);
    }
  }

  lemma CopiesInside(src: seq<byte>, osize: nat, pos: nat, len: nat, s: Sequence)
    requires Copies(src, osize, pos, len, s)
    ensures Written(s) && s.offset <= len + |s.literals| && EndOf(len, s) > len
  {
  }

  // ---------------------------------------------------------------- and every explanation is the outcome

  lemma RunEncoded(src: seq<byte>, pos: nat, r: nat, low: nat)
    requires low < 16 && At(src, pos, RunBytes(r, low))
    ensures pos < |src| && src[pos] % 16 == low
    ensures ReadLength(src, pos + 1, src[pos] / 16) == Some(Length(r, pos + |RunBytes(r, low)|))
  {
    hide ReadLength, Extension, Nibble;
    var token: byte := 16 * Nibble(r) + low;
    AtSplit(src, pos, [token], Extension(r));
    assert src[pos] == src[pos..pos + 1][0] == token;
    ReadLengthEncoded(src, pos + 1, r);
  }

  /** A clear run of literals is copied. */
  lemma ClearCopied(src: seq<byte>, osize: nat, pos: nat, out: seq<byte>, defined: bool, literals: seq<byte>, low: nat)
    requires Clear(src, osize, pos, |out|, literals, low)
    ensures pos + |EncodeHead(literals, low)| <= |src|
    ensures Uncompress(src, osize, pos, out, defined)
         == UncompressMatch(src, osize, pos + |EncodeHead(literals, low)|, low, out + literals, defined)
  {
    hide UncompressMatch, ReadLength, Extension, Nibble, At, WildSpan, RunBytes;
    assert EncodeHead(literals, low) == RunBytes(|literals|, low) + literals by { HeadParts(literals, low); }
    HeadEncoded(src, pos, literals, low);
    HeadSize(literals, low);
  }

  lemma HeadParts(literals: seq<byte>, low: nat)
    requires low < 16
    ensures EncodeHead(literals, low) == RunBytes(|literals|, low) + literals
  {
  }

  lemma HeadSize(literals: seq<byte>, low: nat)
    requires low < 16
    ensures |EncodeHead(literals, low)| == 1 + |Extension(|literals|)| + |literals|
    ensures |RunBytes(|literals|, low)| == 1 + |Extension(|literals|)|
  {
  }

  /** The parts of a sequence, each at its place. */
  lemma SequenceParts(src: seq<byte>, pos: nat, s: Sequence)
    requires Written(s) && At(src, pos, EncodeSequence(s))
    ensures var m, head := s.matchLength - MINMATCH, EncodeHead(s.literals, Nibble(s.matchLength - MINMATCH));
            && At(src, pos, head) && At(src, pos + |head|, OffsetBytes(s.offset) + Extension(m))
            && |EncodeSequence(s)| == |head| + 2 + |Extension(m)|
  {
    hide EncodeHead, Extension, Nibble, At;
    var m, head := s.matchLength - MINMATCH, EncodeHead(s.literals, Nibble(s.matchLength - MINMATCH));
    assert EncodeSequence(s) == head + (OffsetBytes(s.offset) + Extension(m));
    AtSplit(src, pos, head, OffsetBytes(s.offset) + Extension(m));
  }

  /** A whole sequence is copied, and what comes next depends on where it ends. */
  lemma SequenceCopied(src: seq<byte>, osize: nat, pos: nat, out: seq<byte>, defined: bool, s: Sequence)
    requires |out| <= osize && Copies(src, osize, pos, |out|, s)
    ensures var o, next := Uncompress(src, osize, pos, out, defined), pos + |EncodeSequence(s)|;
            if EndOf(|out|, s) > osize then o == Malformed(next)
            else if EndOf(|out|, s) == osize then o == Finished(next, Copied(out, s), defined && s.offset > 0)
            else o == Uncompress(src, osize, next, Copied(out, s), defined && s.offset > 0)
  {
    hide Uncompress, EncodeHead, EncodeSequence, Extension, Nibble, At, OffsetBytes, OffsetAt, ReadLength, CopyMatch;
    var m := s.matchLength - MINMATCH;
    SequenceParts(src, pos, s);
    ClearCopied(src, osize, pos, out, defined, s.literals, Nibble(m));
    var next := pos + |EncodeHead(s.literals, Nibble(m))|;
    TwoBytes(s.offset);
    AtEnds(src, next, OffsetBytes(s.offset) + Extension(m));
    MatchEncoded(src, next, s.offset, m);
  }

  lemma StopDecides(src: seq<byte>, osize: nat, pos: nat, out: seq<byte>, defined: bool, stop: Stop)
    requires |out| <= osize && StopsAt(src, osize, pos, |out|, stop)
    ensures Uncompress(src, osize, pos, out, defined) == OutcomeOf(src, osize, pos, out, defined, stop)
  {
    hide UncompressMatch, ReadLength, EncodeHead, EncodeSequence, RunBytes, At, Clear, Copies, OffsetAt, OffsetBytes;
    match stop {
      case LastRun(literals, low) =>
        HeadEncoded(src, pos, literals, low);
      case LastMatch(s) =>
        SequenceCopied(src, osize, pos, out, defined, s);
      case RunTooLong(r, low) =>
        RunEncoded(src, pos, r, low);
      case OffsetTooFar(literals, low, offset) =>
        TooFarFound(src, osize, pos, out, defined, literals, low, offset);
      case MatchTooLong(s) =>
        SequenceCopied(src, osize, pos, out, defined, s);
    }
  }

  lemma TooFarFound(src: seq<byte>, osize: nat, pos: nat, out: seq<byte>, defined: bool, literals: seq<byte>, low: nat,
                    offset: nat)
    requires Clear(src, osize, pos, |out|, literals, low) && |out| + |literals| < offset < 0x10000
    requires At(src, pos, EncodeHead(literals, low) + OffsetBytes(offset))
    ensures Uncompress(src, osize, pos, out, defined) == Malformed(pos + |EncodeHead(literals, low)| + 2)
  {
    hide Uncompress, EncodeHead, At, OffsetBytes, OffsetAt, ReadLength;
    ClearCopied(src, osize, pos, out, defined, literals, low);
    AtSplit(src, pos, EncodeHead(literals, low), OffsetBytes(offset));
    var next := pos + |EncodeHead(literals, low)|;
    TwoBytes(offset);
    AtEnds(src, next, OffsetBytes(offset));
    OffsetEncoded(src, next, offset);
  }

  lemma OffsetEncoded(src: seq<byte>, pos: nat, offset: nat)
    requires offset < 0x10000 && At(src, pos, OffsetBytes(offset))
    ensures pos + 2 <= |src| && OffsetAt(src, pos) == offset
  {
    assert src[pos] == src[pos..pos + 2][0] && src[pos + 1] == src[pos..pos + 2][1];
  }

  /** The explanation decides the outcome: there is only one, and it is what the decoder answers. */
  lemma {:induction false} ExplanationDecides(src: seq<byte>, osize: nat, pos: nat, out: seq<byte>, defined: bool,
                                              ss: seq<Sequence>, stop: Stop, pos': nat, o: Outcome)
    requires |out| <= osize && Explains(src, osize, pos, out, defined, ss, stop, pos', o)
    ensures Uncompress(src, osize, pos, out, defined) == o
    decreases |ss|
  {
    hide Uncompress, StopsAt, OutcomeOf, Copies, EncodeSequence, Copied;
    if ss == [] {
      StopDecides(src, osize, pos, out, defined, stop);
    } else {
      var s := ss[0];
      CopiesInside(src, osize, pos, |out|, s);
      SequenceCopied(src, osize, pos, out, defined, s);
      assert ss == [s] + ss[1..];
      assert NoZero(ss) <==> s.offset > 0 && NoZero(ss[1..]);
      ExplanationDecides(src, osize, pos + |EncodeSequence(s)|, Copied(out, s), defined && s.offset > 0, ss[1..], stop, pos', o);
    }
  }

  /**
   * `LZ4_uncompress` on every input: it finishes or reports an error at a position exactly if the input has
   * sequences, and behind them a reason to stop, that say so; otherwise it runs off the input.
   */
  lemma UncompressExactly(src: seq<byte>, osize: nat, o: Outcome)
    requires !o.Overread?
    ensures Uncompress(src, osize, 0, [], true) == o
       <==> exists ss, stop, pos: nat :: Explains(src, osize, 0, [], true, ss, stop, pos, o)
  {
    hide Uncompress, Explains;
    if Uncompress(src, osize, 0, [], true) == o {
      var ss, stop, pos := Explained(src, osize, 0, [], true);
    }
    forall ss, stop, pos: nat | Explains(src, osize, 0, [], true, ss, stop, pos, o)
      ensures Uncompress(src, osize, 0, [], true) == o
    {
      ExplanationDecides(src, osize, 0, [], true, ss, stop, pos, o);
    }
  }

  /** The sequences of an explanation are what the input starts with. */
  lemma {:induction false} ReachesBytes(src: seq<byte>, osize: nat, pos: nat, len: nat, ss: seq<Sequence>, pos': nat,
                                        len': nat)
    requires pos <= |src| && Reaches(src, osize, pos, len, ss, pos', len')
    ensures LongEnough(ss) && At(src, pos, EncodeSequences(ss)) && pos' == pos + |EncodeSequences(ss)|
    decreases |ss|
  {
    hide EncodeSequence, At, Clear;
    if ss == [] {
      assert At(src, pos, []) by { NothingAt(src, pos); }
    } else {
      AtEnds(src, pos, EncodeSequence(ss[0]));
      ReachesBytes(src, osize, pos + |EncodeSequence(ss[0])|, EndOf(len, ss[0]), ss[1..], pos', len');
      assert ss == [ss[0]] + ss[1..];
      AtJoin(src, pos, EncodeSequence(ss[0]), EncodeSequences(ss[1..]));
    }
  }

  lemma NothingAt(src: seq<byte>, pos: nat)
    requires pos <= |src|
    ensures At(src, pos, [])
  {
  }

  /** Without a zero offset the sequences are executable and mean what has been copied. */
  lemma {:induction false} CopiedIsRun(src: seq<byte>, osize: nat, pos: nat, out: seq<byte>, ss: seq<Sequence>, pos': nat,
                                       len': nat)
    requires OffsetsInside(|out|, ss) && NoZero(ss) && Reaches(src, osize, pos, |out|, ss, pos', len')
    ensures Executable(|out|, ss) && Run(out, ss) == CopiedAll(out, ss)
    decreases |ss|
  {
    hide EncodeSequence, At, Clear, Execute;
    if ss != [] {
      assert ss[0] in ss && forall s | s in ss[1..] :: s in ss;
      CopiedIsRun(src, osize, pos + |EncodeSequence(ss[0])|, Copied(out, ss[0]), ss[1..], pos', len');
    }
  }

  /** The bytes of a block whose last token may carry anything in its low half. */
  ghost predicate BlockBytes(w: seq<byte>, ss: seq<Sequence>, last: seq<byte>, low: nat) {
    && LongEnough(ss) && low < 16
    && (w == EncodeSequences(ss) + EncodeHead(last, low) || (last == [] && w == EncodeSequences(ss)))
  }

  /**
   * The converse of decoding a legal block: whatever is accepted is a block in the format, its text is the
   * meaning of that block, and only a block that fills the output exactly may end with a match.
   */
  lemma AcceptedIsBlock(src: seq<byte>, osize: nat, consumed: nat, text: seq<byte>)
    returns (ss: seq<Sequence>, last: seq<byte>, low: nat)
    requires Uncompress(src, osize, 0, [], true) == Finished(consumed, text, true)
    ensures consumed <= |src| && Executable(0, ss) && text == Run([], ss) + last
    ensures BlockBytes(src[..consumed], ss, last, low)
    ensures |text| <= osize && (src[..consumed] == EncodeSequences(ss) ==> |text| == osize)
  {
    hide Uncompress, Copies, EncodeHead, EncodeSequence, Executable, Run, Reaches, CopiedAll, OffsetsInside, At;
    var stop, pos;
    ss, stop, pos := Explained(src, osize, 0, [], true);
    var out := CopiedAll([], ss);
    ReachesBytes(src, osize, 0, 0, ss, pos, |out|);
    CopiedIsRun(src, osize, 0, [], ss, pos, |out|);
    match stop {
      case LastRun(literals, l) =>
        last, low := literals, l;
        AtJoin(src, 0, EncodeSequences(ss), EncodeHead(last, low));
        AtStart(src, EncodeSequences(ss) + EncodeHead(last, low));
        SomeHead(last, low);
      case LastMatch(s) =>
        LastCopied(src, osize, pos, ss, s);
        ss, last, low := ss + [s], [], 0;
        AtStart(src, EncodeSequences(ss));
      case _ =>
    }
  }

  lemma SomeHead(literals: seq<byte>, low: nat)
    requires low < 16
    ensures |EncodeHead(literals, low)| > 0
  {
  }

  lemma AtStart(src: seq<byte>, w: seq<byte>)
    requires At(src, 0, w)
    ensures |w| <= |src| && src[..|w|] == w
  {
  }

  lemma LastCopied(src: seq<byte>, osize: nat, pos: nat, ss: seq<Sequence>, s: Sequence)
    requires Executable(0, ss) && Copies(src, osize, pos, |Run([], ss)|, s) && s.offset > 0
    requires LongEnough(ss) && At(src, 0, EncodeSequences(ss)) && pos == |EncodeSequences(ss)|
    ensures Executable(0, ss + [s]) && Run([], ss + [s]) == Copied(Run([], ss), s) && LongEnough(ss + [s])
    ensures At(src, 0, EncodeSequences(ss + [s])) && |EncodeSequences(ss + [s])| == pos + |EncodeSequence(s)|
  {
    hide EncodeSequence, EncodeSequences, Executable, Run, Execute, At, Clear;
    RunAppend([], ss, s);
    EncodeAppend(ss, s);
    AtJoin(src, 0, EncodeSequences(ss), EncodeSequence(s));
  }
}
