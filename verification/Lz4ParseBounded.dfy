/** The same for the decoder that knows the length of its input, whose last length may be cut off by its end. */
module Lz4ParseBounded {
  import opened Options
  import opened Lz4Words
  import opened Lz4Format
  import opened Lz4Copy
  import opened Lz4Decode
  import P = Lz4Parse

  datatype Stop =
    | InputOver
    | LastRun(literals: seq<byte>, low: nat)
    | LastMatch(last: Sequence)
    | RunTooLong(length: nat, low: nat)
    | RunCutOff
    | RunNotLast(literals: seq<byte>, low: nat)
    | OffsetTooFar(literals: seq<byte>, low: nat, offset: nat)
    | MatchTooLong(bad: Sequence)
    | MatchCutOff(cut: Sequence)

  /** Nothing but bytes of 255 from here to the end: a length without an end. */
  ghost predicate Endless(src: seq<byte>, pos: nat) {
    pos <= |src| && forall k | pos <= k < |src| :: src[k] == 255
  }

  /** A run of literals with eight bytes behind it, in the output and in the input. */
  ghost predicate Clear(src: seq<byte>, max: nat, pos: nat, len: nat, literals: seq<byte>, low: nat) {
    && low < 16 && At(src, pos, EncodeHead(literals, low))
    && len + |literals| + 8 <= max && pos + |EncodeHead(literals, low)| + 8 <= |src|
  }

  ghost predicate Copies(src: seq<byte>, max: nat, pos: nat, len: nat, s: Sequence) {
    && P.Written(s) && At(src, pos, EncodeSequence(s)) && s.offset <= len + |s.literals|
    && Clear(src, max, pos, len, s.literals, Nibble(s.matchLength - MINMATCH))
  }

  /** A sequence whose match length runs into the end of the input. */
  ghost predicate CutMatch(src: seq<byte>, max: nat, pos: nat, len: nat, s: Sequence) {
    && P.Written(s) && s.offset <= len + |s.literals| && Clear(src, max, pos, len, s.literals, 15)
    && At(src, pos, EncodeHead(s.literals, 15) + OffsetBytes(s.offset))
    && var next := pos + |EncodeHead(s.literals, 15)| + 2;
       Endless(src, next) && s.matchLength == MINMATCH + 15 + 255 * (|src| - next)
  }

  ghost predicate Reaches(src: seq<byte>, max: nat, pos: nat, len: nat, ss: seq<Sequence>, pos': nat, len': nat)
    decreases |ss|
  {
    if ss == [] then pos' == pos && len' == len
    else
      && Copies(src, max, pos, len, ss[0]) && EndOf(len, ss[0]) < max
      && Reaches(src, max, pos + |EncodeSequence(ss[0])|, EndOf(len, ss[0]), ss[1..], pos', len')
  }

  ghost predicate StopsAt(src: seq<byte>, max: nat, pos: nat, len: nat, stop: Stop) {
    match stop
    case InputOver => pos == |src|
    case LastRun(literals, low) =>
      && low < 16 && At(src, pos, EncodeHead(literals, low))
      && len + |literals| <= max && pos + |EncodeHead(literals, low)| == |src|
    case LastMatch(s) => Copies(src, max, pos, len, s) && EndOf(len, s) == max
    case RunTooLong(r, low) =>
      && low < 16 && At(src, pos, P.RunBytes(r, low))
      && (len + r > max || pos + |P.RunBytes(r, low)| + r > |src|)
    case RunCutOff => pos < |src| && src[pos] / 16 == 15 && Endless(src, pos + 1)
    case RunNotLast(literals, low) =>
      && low < 16 && At(src, pos, EncodeHead(literals, low))
      && len + |literals| <= max && pos + |EncodeHead(literals, low)| < |src|
      && (len + |literals| + 8 > max || pos + |EncodeHead(literals, low)| + 8 > |src|)
    case OffsetTooFar(literals, low, offset) =>
      && Clear(src, max, pos, len, literals, low) && len + |literals| < offset < 0x10000
      && At(src, pos, EncodeHead(literals, low) + OffsetBytes(offset))
    case MatchTooLong(s) => Copies(src, max, pos, len, s) && EndOf(len, s) > max
    case MatchCutOff(s) => CutMatch(src, max, pos, len, s)
  }

  ghost function OutcomeOf(src: seq<byte>, max: nat, pos: nat, out: seq<byte>, defined: bool, stop: Stop): Outcome
    requires StopsAt(src, max, pos, |out|, stop)
  {
    match stop
    case InputOver => Finished(pos, out, defined)
    case LastRun(literals, low) => Finished(|src|, out + literals, defined)
    case LastMatch(s) => Finished(pos + |EncodeSequence(s)|, P.Copied(out, s), defined && s.offset > 0)
    case RunTooLong(r, low) => Malformed(pos + |P.RunBytes(r, low)|)
    case RunCutOff => Malformed(|src|)
    case RunNotLast(literals, low) => Malformed(pos + |EncodeHead(literals, low)|)
    case OffsetTooFar(literals, low, _) => Malformed(pos + |EncodeHead(literals, low)| + 2)
    case MatchTooLong(s) => Malformed(pos + |EncodeSequence(s)|)
    case MatchCutOff(s) =>
      if EndOf(|out|, s) > max then Malformed(|src|)
      else Finished(|src|, P.Copied(out, s), defined && s.offset > 0)
  }

  // ---------------------------------------------------------------- lengths

  /** A length that has been read stands there in its only spelling, or is cut off by the end of the input. */
  lemma {:induction false} RunRead(src: seq<byte>, pos: nat) returns (cut: bool)
    requires pos <= |src|
    ensures var l := ReadRunBounded(src, pos);
            if cut then Endless(src, pos) && l == Length(255 * (|src| - pos), |src|)
            else At(src, pos, LengthBytes(l.value)) && l.next == pos + |LengthBytes(l.value)|
    decreases |src| - pos
  {
    cut := pos == |src|;
    if pos < |src| && src[pos] == 255 {
      cut := RunRead(src, pos + 1);
      if !cut {
        var l := ReadRunBounded(src, pos + 1);
        assert src[pos..pos + 1] == [255];
        P.AtJoin(src, pos, [255], LengthBytes(l.value));
      }
    }
  }

  lemma {:induction false} EndlessRun(src: seq<byte>, pos: nat)
    requires Endless(src, pos)
    ensures ReadRunBounded(src, pos) == Length(255 * (|src| - pos), |src|)
    decreases |src| - pos
  {
    if pos < |src| {
      EndlessRun(src, pos + 1);
    }
  }

  lemma LengthRead(src: seq<byte>, pos: nat, nibble: nat) returns (cut: bool)
    requires nibble < 16 && pos <= |src|
    ensures var l := ReadLengthBounded(src, pos, nibble);
            if cut then nibble == 15 && Endless(src, pos) && l == Length(15 + 255 * (|src| - pos), |src|)
            else nibble == Nibble(l.value) && At(src, pos, Extension(l.value)) && l.next == pos + |Extension(l.value)|
  {
    hide LengthBytes, Endless;
    cut := false;
    if nibble == 15 {
      cut := RunRead(src, pos);
    }
  }

  lemma EndlessLength(src: seq<byte>, pos: nat)
    requires Endless(src, pos)
    ensures ReadLengthBounded(src, pos, 15) == Length(15 + 255 * (|src| - pos), |src|)
  {
    EndlessRun(src, pos);
  }

  lemma HeadRead(src: seq<byte>, pos: nat) returns (cut: bool)
    requires pos < |src|
    ensures var l, low := ReadLengthBounded(src, pos + 1, src[pos] / 16), src[pos] % 16;
            if cut then src[pos] / 16 == 15 && Endless(src, pos + 1) && l.value > 0 && l.next == |src|
            else low < 16 && At(src, pos, P.RunBytes(l.value, low)) && l.next == pos + |P.RunBytes(l.value, low)|
  {
    hide Extension, Nibble, ReadLengthBounded;
    cut := LengthRead(src, pos + 1, src[pos] / 16);
    if !cut {
      var l := ReadLengthBounded(src, pos + 1, src[pos] / 16);
      var token: byte := 16 * Nibble(l.value) + src[pos] % 16;
      assert src[pos..pos + 1] == [token];
      P.AtJoin(src, pos, [token], Extension(l.value));
    }
  }

  // ---------------------------------------------------------------- what the decoder does where it stops or copies

  lemma RunEncoded(src: seq<byte>, pos: nat, r: nat, low: nat)
    requires low < 16 && At(src, pos, P.RunBytes(r, low))
    ensures pos < |src| && src[pos] % 16 == low
    ensures ReadLengthBounded(src, pos + 1, src[pos] / 16) == Length(r, pos + |P.RunBytes(r, low)|)
  {
    hide ReadLengthBounded, ReadLength, Extension, Nibble;
    var token: byte := 16 * Nibble(r) + low;
    AtSplit(src, pos, [token], Extension(r));
    assert src[pos] == src[pos..pos + 1][0] == token;
    ReadLengthEncoded(src, pos + 1, r);
  }

  lemma ClearCopied(src: seq<byte>, max: nat, pos: nat, out: seq<byte>, defined: bool, literals: seq<byte>, low: nat)
    requires Clear(src, max, pos, |out|, literals, low)
    ensures UncompressUnknown(src, max, pos, out, defined)
         == UncompressUnknownMatch(src, max, pos + |EncodeHead(literals, low)|, low, out + literals, defined)
  {
    hide UncompressUnknownMatch, ReadLengthBounded, EncodeHead, At;
    HeadEncoded(src, pos, literals, low);
  }

  /** A whole sequence is copied, and what comes next depends on where it ends. */
  lemma SequenceCopied(src: seq<byte>, max: nat, pos: nat, out: seq<byte>, defined: bool, s: Sequence)
    requires |out| <= max && Copies(src, max, pos, |out|, s) && pos + |EncodeSequence(s)| <= |src|
    ensures var o, next := UncompressUnknown(src, max, pos, out, defined), pos + |EncodeSequence(s)|;
            if EndOf(|out|, s) > max then o == Malformed(next)
            else if EndOf(|out|, s) == max then o == Finished(next, P.Copied(out, s), defined && s.offset > 0)
            else o == UncompressUnknown(src, max, next, P.Copied(out, s), defined && s.offset > 0)
  {
    hide UncompressUnknown, EncodeHead, EncodeSequence, Extension, Nibble, At, OffsetBytes, OffsetAt, ReadLengthBounded;
    hide CopyMatch;
    var m := s.matchLength - MINMATCH;
    P.SequenceParts(src, pos, s);
    ClearCopied(src, max, pos, out, defined, s.literals, Nibble(m));
    var next := pos + |EncodeHead(s.literals, Nibble(m))|;
    P.TwoBytes(s.offset);
    MatchEncoded(src, next, s.offset, m);
  }

  /** So is one whose length is cut off. */
  lemma CutCopied(src: seq<byte>, max: nat, pos: nat, out: seq<byte>, defined: bool, s: Sequence)
    requires |out| <= max && CutMatch(src, max, pos, |out|, s)
    ensures UncompressUnknown(src, max, pos, out, defined)
         == if EndOf(|out|, s) > max then Malformed(|src|)
            else Finished(|src|, P.Copied(out, s), defined && s.offset > 0)
  {
    hide UncompressUnknown, EncodeHead, At, OffsetBytes, OffsetAt, ReadLengthBounded, CopyMatch, Endless;
    var next := pos + |EncodeHead(s.literals, 15)|;
    ClearCopied(src, max, pos, out, defined, s.literals, 15);
    AtSplit(src, pos, EncodeHead(s.literals, 15), OffsetBytes(s.offset));
    P.OffsetEncoded(src, next, s.offset);
    EndlessLength(src, next + 2);
    EndOfInput(src, max, P.Copied(out, s), defined && s.offset > 0);
  }

  lemma TooFarFound(src: seq<byte>, max: nat, pos: nat, out: seq<byte>, defined: bool, literals: seq<byte>, low: nat,
                    offset: nat)
    requires Clear(src, max, pos, |out|, literals, low) && |out| + |literals| < offset < 0x10000
    requires At(src, pos, EncodeHead(literals, low) + OffsetBytes(offset))
    ensures UncompressUnknown(src, max, pos, out, defined) == Malformed(pos + |EncodeHead(literals, low)| + 2)
  {
    hide UncompressUnknown, EncodeHead, At, OffsetBytes, OffsetAt, ReadLengthBounded;
    ClearCopied(src, max, pos, out, defined, literals, low);
    AtSplit(src, pos, EncodeHead(literals, low), OffsetBytes(offset));
    P.OffsetEncoded(src, pos + |EncodeHead(literals, low)|, offset);
  }

  /** Literals that stand there whole, but without room behind them, are the last run or an error. */
  lemma LastRunRead(src: seq<byte>, max: nat, pos: nat, out: seq<byte>, defined: bool, literals: seq<byte>, low: nat)
    requires low < 16 && At(src, pos, EncodeHead(literals, low)) && |out| + |literals| <= max
    requires var end := pos + |EncodeHead(literals, low)|;
             end == |src| || |out| + |literals| + 8 > max || end + 8 > |src|
    ensures var end := pos + |EncodeHead(literals, low)|;
            UncompressUnknown(src, max, pos, out, defined)
            == if end == |src| then Finished(end, out + literals, defined) else Malformed(end)
  {
    hide UncompressUnknownMatch, ReadLengthBounded, EncodeHead, At;
    HeadEncoded(src, pos, literals, low);
  }

  lemma LongRunRead(src: seq<byte>, max: nat, pos: nat, out: seq<byte>, defined: bool, r: nat, low: nat)
    requires low < 16 && At(src, pos, P.RunBytes(r, low)) && |out| <= max
    requires |out| + r > max || pos + |P.RunBytes(r, low)| + r > |src|
    ensures UncompressUnknown(src, max, pos, out, defined) == Malformed(pos + |P.RunBytes(r, low)|)
  {
    hide UncompressUnknownMatch, ReadLengthBounded, P.RunBytes, At;
    RunEncoded(src, pos, r, low);
  }

  lemma EndlessRunRead(src: seq<byte>, max: nat, pos: nat, out: seq<byte>, defined: bool)
    requires pos < |src| && src[pos] / 16 == 15 && Endless(src, pos + 1) && |out| <= max
    ensures UncompressUnknown(src, max, pos, out, defined) == Malformed(|src|)
  {
    hide UncompressUnknownMatch, ReadLengthBounded, Endless;
    EndlessLength(src, pos + 1);
  }

  lemma StopDecides(src: seq<byte>, max: nat, pos: nat, out: seq<byte>, defined: bool, stop: Stop)
    requires |out| <= max && pos <= |src| && StopsAt(src, max, pos, |out|, stop)
    ensures UncompressUnknown(src, max, pos, out, defined) == OutcomeOf(src, max, pos, out, defined, stop)
  {
    hide UncompressUnknown, EncodeHead, EncodeSequence, P.RunBytes, P.Copied, At, Clear, Copies, OffsetBytes, CutMatch;
    hide Endless;
    match stop {
      case InputOver =>
        EndOfInput(src, max, out, defined);
      case LastRun(literals, low) =>
        LastRunRead(src, max, pos, out, defined, literals, low);
      case LastMatch(s) =>
        CopiesInside(src, max, pos, |out|, s);
        SequenceCopied(src, max, pos, out, defined, s);
      case RunTooLong(r, low) =>
        LongRunRead(src, max, pos, out, defined, r, low);
      case RunCutOff =>
        EndlessRunRead(src, max, pos, out, defined);
      case RunNotLast(literals, low) =>
        LastRunRead(src, max, pos, out, defined, literals, low);
      case OffsetTooFar(literals, low, offset) =>
        TooFarFound(src, max, pos, out, defined, literals, low, offset);
      case MatchTooLong(s) =>
        CopiesInside(src, max, pos, |out|, s);
        SequenceCopied(src, max, pos, out, defined, s);
      case MatchCutOff(s) =>
        CutCopied(src, max, pos, out, defined, s);
    }
  }

  // ---------------------------------------------------------------- every outcome explained

  /** What stands behind literals that end at `next`. */
  lemma MatchRead(src: seq<byte>, max: nat, pos: nat, len: nat, literals: seq<byte>, low: nat)
    returns (stop: Option<Stop>, s: Sequence)
    requires Clear(src, max, pos, len, literals, low)
    ensures match stop
            case Some(st) => StopsAt(src, max, pos, len, st)
            case None => Copies(src, max, pos, len, s) && EndOf(len, s) < max
  {
    hide EncodeHead, Extension, OffsetBytes, OffsetAt, ReadLengthBounded, Nibble, At, Endless;
    var head, next := EncodeHead(literals, low), pos + |EncodeHead(literals, low)|;
    var offset := OffsetAt(src, next);
    P.OffsetRead(src, next);
    P.AtJoin(src, pos, head, OffsetBytes(offset));
    P.TwoBytes(offset);
    s := Sequence(literals, offset, MINMATCH);
    if offset > len + |literals| {
      stop := Some(OffsetTooFar(literals, low, offset));
    } else {
      var cut := LengthRead(src, next + 2, low);
      var m := ReadLengthBounded(src, next + 2, low).value;
      s := Sequence(literals, offset, m + MINMATCH);
      if cut {
        stop := Some(MatchCutOff(s));
      } else {
        P.AtJoin(src, pos, head + OffsetBytes(offset), Extension(m));
        assert EncodeSequence(s) == head + OffsetBytes(offset) + Extension(m);
        stop := if EndOf(len, s) > max then Some(MatchTooLong(s))
                else if EndOf(len, s) == max then Some(LastMatch(s)) else None;
      }
    }
  }

  lemma EndOfInput(src: seq<byte>, max: nat, out: seq<byte>, defined: bool)
    ensures |out| <= max ==> UncompressUnknown(src, max, |src|, out, defined) == Finished(|src|, out, defined)
  {
  }

  /** What stands at the start of a round. */
  lemma RoundRead(src: seq<byte>, max: nat, pos: nat, len: nat) returns (stop: Option<Stop>, s: Sequence)
    requires len <= max && pos <= |src|
    ensures match stop
            case Some(st) => StopsAt(src, max, pos, len, st)
            case None => Copies(src, max, pos, len, s) && EndOf(len, s) < max
  {
    hide EncodeHead, ReadLengthBounded, At, P.RunBytes, Copies, CutMatch;
    s := Sequence([], 0, MINMATCH);
    if pos == |src| {
      stop := Some(InputOver);
      return;
    }
    var cut := HeadRead(src, pos);
    var l, low := ReadLengthBounded(src, pos + 1, src[pos] / 16), src[pos] % 16;
    var r, next := l.value, l.next;
    if cut {
      stop := Some(RunCutOff);
    } else if len + r > max || next + r > |src| {
      stop := Some(RunTooLong(r, low));
    } else {
      P.LiteralsRead(src, pos, r, low);
      var literals := src[next..next + r];
      if next + r == |src| {
        stop := Some(LastRun(literals, low));
      } else if len + r + COPYLENGTH > max || next + r + COPYLENGTH > |src| {
        stop := Some(RunNotLast(literals, low));
      } else {
        stop, s := MatchRead(src, max, pos, len, literals, low);
      }
    }
  }

  ghost predicate Explains(src: seq<byte>, max: nat, pos: nat, out: seq<byte>, defined: bool,
                           ss: seq<Sequence>, stop: Stop, pos': nat, o: Outcome)
  {
    && P.OffsetsInside(|out|, ss)
    && Reaches(src, max, pos, |out|, ss, pos', |P.CopiedAll(out, ss)|)
    && StopsAt(src, max, pos', |P.CopiedAll(out, ss)|, stop)
    && o == OutcomeOf(src, max, pos', P.CopiedAll(out, ss), defined && P.NoZero(ss), stop)
  }

  /** Whatever `LZ4_uncompress_unknownOutputSize` answers, there is such an explanation. */
  lemma {:induction false} Explained(src: seq<byte>, max: nat, pos: nat, out: seq<byte>, defined: bool)
    returns (ss: seq<Sequence>, stop: Stop, pos': nat)
    requires |out| <= max && pos <= |src|
    ensures Explains(src, max, pos, out, defined, ss, stop, pos', UncompressUnknown(src, max, pos, out, defined))
    decreases max - |out|
  {
    hide UncompressUnknown, StopsAt, OutcomeOf, Copies, EncodeSequence, P.Copied;
    var st, s := RoundRead(src, max, pos, |out|);
    if st.Some? {
      ss, stop, pos' := [], st.value, pos;
      StopDecides(src, max, pos, out, defined, stop);
    } else {
      CopiesInside(src, max, pos, |out|, s);
      SequenceCopied(src, max, pos, out, defined, s);
      var rest;
      rest, stop, pos' := Explained(src, max, pos + |EncodeSequence(s)|, P.Copied(out, s), defined && s.offset > 0);
      ss := [s] + rest;
      assert ss[1..] == rest;
      assert P.NoZero(ss) <==> s.offset > 0 && P.NoZero(rest);
    }
  }

  lemma CopiesInside(src: seq<byte>, max: nat, pos: nat, len: nat, s: Sequence)
    requires Copies(src, max, pos, len, s)
    ensures P.Written(s) && s.offset <= len + |s.literals| && EndOf(len, s) > len && pos + |EncodeSequence(s)| <= |src|
  {
  }

  lemma {:induction false} ExplanationDecides(src: seq<byte>, max: nat, pos: nat, out: seq<byte>, defined: bool,
                                              ss: seq<Sequence>, stop: Stop, pos': nat, o: Outcome)
    requires |out| <= max && pos <= |src| && Explains(src, max, pos, out, defined, ss, stop, pos', o)
    ensures UncompressUnknown(src, max, pos, out, defined) == o
    decreases |ss|
  {
    hide UncompressUnknown, StopsAt, OutcomeOf, Copies, EncodeSequence, P.Copied;
    if ss == [] {
      StopDecides(src, max, pos, out, defined, stop);
    } else {
      var s := ss[0];
      CopiesInside(src, max, pos, |out|, s);
      SequenceCopied(src, max, pos, out, defined, s);
      assert ss == [s] + ss[1..];
      assert P.NoZero(ss) <==> s.offset > 0 && P.NoZero(ss[1..]);
      ExplanationDecides(src, max, pos + |EncodeSequence(s)|, P.Copied(out, s), defined && s.offset > 0, ss[1..], stop, pos', o);
    }
  }

  /** `LZ4_uncompress_unknownOutputSize` on every input. */
  lemma UncompressUnknownExactly(src: seq<byte>, max: nat, o: Outcome)
    ensures UncompressUnknown(src, max, 0, [], true) == o
       <==> exists ss, stop, pos: nat :: Explains(src, max, 0, [], true, ss, stop, pos, o)
  {
    hide UncompressUnknown, Explains;
    if UncompressUnknown(src, max, 0, [], true) == o {
      var ss, stop, pos := Explained(src, max, 0, [], true);
    }
    forall ss, stop, pos: nat | Explains(src, max, 0, [], true, ss, stop, pos, o)
      ensures UncompressUnknown(src, max, 0, [], true) == o
    {
      ExplanationDecides(src, max, 0, [], true, ss, stop, pos, o);
    }
  }
}
