/** How large a compressed block gets, and how much the compressor gains. */
module Lz4Size {
  import opened Options
  import opened Lz4Words
  import opened Lz4Format
  import opened Lz4Compress

  /** Sequences never take more than 256/255 of the text they stand for. */
  lemma {:induction false} ExpansionBound(out: seq<byte>, ss: seq<Sequence>)
    requires Executable(|out|, ss) && LongEnough(ss)
    ensures 255 * |EncodeSequences(ss)| <= 256 * (|Run(out, ss)| - |out|)
    decreases |ss|
  {
    if ss != [] {
      SequenceExpansion(ss[0]);
      ExpansionBound(Execute(out, ss[0]), ss[1..]);
    }
  }

  /** At a loop head the output written so far is at most 256/255 of the input covered. */
  lemma CoveredSize(s: seq<byte>, anchor: nat, ss: seq<Sequence>)
    requires Covers(s, anchor, ss)
    ensures LongEnough(ss) && 255 * |EncodeSequences(ss)| <= 256 * anchor
  {
    ExecutableLongEnough(0, ss);
    ExpansionBound([], ss);
  }

  /** The final size as the compressor estimates it: one length byte too few for a last run of 15 or more. */
  function Estimate(encoded: nat, lastRun: nat): nat {
    encoded + lastRun + 1 + (if lastRun >= RUN_MASK then (lastRun - RUN_MASK) / 255 else 0)
  }

  /** The final size test. */
  predicate Gains(encoded: nat, lastRun: nat, isize: nat) {
    Estimate(encoded, lastRun) + LZ4_COMPRESSMIN <= isize
  }

  /** What `LZ4_compress` leaves in the output: the serialised block, or nothing if it gains too little. */
  function Output(b: Block, isize: nat): seq<byte>
    requires LongEnough(b.sequences)
  {
    if Gains(|EncodeSequences(b.sequences)|, |b.last|, isize) then Encode(b) else []
  }

  /**
   * A kept block saves at least 99 bytes. It misses the advertised LZ4_COMPRESSMIN of 100 exactly when the
   * last run is 15 or more and the estimate just passes the size test.
   */
  lemma KeptSize(b: Block, isize: nat)
    requires LongEnough(b.sequences) && Output(b, isize) != []
    ensures 0 < |Output(b, isize)| <= isize - (LZ4_COMPRESSMIN - 1)
    ensures isize - |Output(b, isize)| == LZ4_COMPRESSMIN - 1 <==>
            |b.last| >= RUN_MASK && Estimate(|EncodeSequences(b.sequences)|, |b.last|) == isize - LZ4_COMPRESSMIN
  {
    ExtensionBytesSize(|b.last|);
  }

  /**
   * Which blocks are kept: those that are 100 bytes shorter than the input, or only 99 if the last run has
   * a length byte. What is kept is the whole block.
   */
  lemma KeptExactly(b: Block, isize: nat)
    requires LongEnough(b.sequences)
    ensures Output(b, isize) != [] <==> |Encode(b)| + (if |b.last| >= 15 then 99 else 100) <= isize
    ensures Output(b, isize) != [] ==> Output(b, isize) == Encode(b)
  {
    hide EncodeSequences, Extension;
    ExtensionBytesSize(|b.last|);
  }

  // ---------------------------------------------------------------- the compressor finds runs

  /** No earlier position holds the four bytes at `p`. */
  ghost predicate Fresh(s: seq<byte>, p: nat)
    requires p + 4 <= |s|
  {
    forall q | 0 <= q < p :: !SameBytes(s, q, p, MINMATCH)
  }

  lemma FreshIsNotAcceptable(v: Variant, s: seq<byte>, q: nat, p: nat)
    requires q < p && p + 4 <= |s| && Fresh(s, p)
    ensures !Acceptable(v, s, q, p)
  {
    LoadEqual(s, q, p, MINMATCH);
  }

  lemma {:induction false} FreshSearchFails(v: Variant, s: seq<byte>, table: seq<nat>, ip: nat, attempts: nat)
    requires ip + 4 <= |s| && TableOk(v, table, ip) && attempts >= PROBES_PER_STEP
    requires forall p | ip <= p && p + MFLIMIT < |s| :: Fresh(s, p)
    ensures Search(v, s, table, ip, attempts) == None
    decreases |s| - ip
  {
    hide Fresh, Acceptable, Hash, Stored;
    var step := attempts / PROBES_PER_STEP;
    if ip + step + MFLIMIT <= |s| {
      var h := Hash(v, s, ip);
      FreshIsNotAcceptable(v, s, table[h], ip);
      FreshSearchFails(v, s, table[h := Stored(v, ip)], ip + step, attempts + 1);
    }
  }

  /** An input that starts with `n` equal bytes and whose later words are all new. */
  ghost predicate RunThenFresh(s: seq<byte>, n: nat) {
    && 5 <= n && n + MFLIMIT <= |s|
    && SameBytes(s, 0, 1, n - 1) && s[n - 1] != s[n]
    && forall p | n <= p && p + MFLIMIT <= |s| :: Fresh(s, p)
  }

  lemma RunIsFound(v: Variant, s: seq<byte>, n: nat)
    requires RunThenFresh(s, n)
    ensures SameBytes(s, 0, 1, MINMATCH) && MatchEnd(s, 0, 1) == n
  {
    SameBytesPrefix(s, 0, 1, MINMATCH, n - 5);
    SameBytesSkip(s, 0, 1, MINMATCH, n - 5);
    CommonLengthIsLongest(s, MINMATCH, 1 + MINMATCH, |s| - LASTLITERALS, n - 5);
    CommonLengthIsLongest(s, MINMATCH, 1 + MINMATCH, |s| - LASTLITERALS, n - 4);
    if SameBytes(s, MINMATCH, 1 + MINMATCH, n - 4) {
      SameBytesAt(s, MINMATCH, 1 + MINMATCH, n - 4, n - 5);
    }
  }

  lemma RunFirstProbe(v: Variant, s: seq<byte>, n: nat)
    requires RunThenFresh(s, n)
    ensures var f := Search(v, s, EmptyTable(v), 1, FIRST_ATTEMPT);
            f.Some? && f.value.ip == 1 && f.value.ref == 0
  {
    RunIsFound(v, s, n);
    LoadEqual(s, 0, 1, MINMATCH);
    assert Acceptable(v, s, 0, 1);
  }

  lemma RunChain(v: Variant, s: seq<byte>, n: nat, table: seq<nat>)
    requires RunThenFresh(s, n) && TableOk(v, table, 2)
    ensures MatchEnd(s, 0, 1) == n
    ensures var p := Chain(v, s, table, 0, 1, 0, []);
            p.anchor == n && p.sequences == [Sequence([s[0]], 1, n - 1)] && !p.finished
  {
    hide Fresh, Acceptable, Hash, Stored, MatchEnd;
    RunIsFound(v, s, n);
    var table1 := table[Hash(v, s, n - 2) := Stored(v, n - 2)];
    FreshIsNotAcceptable(v, s, table1[Hash(v, s, n)], n);
    assert s[0..1] == [s[0]];
    var ss: seq<Sequence> := [];
    assert ss + [Sequence([s[0]], 1, n - 1)] == [Sequence([s[0]], 1, n - 1)];
  }

  /** On such an input both compressors emit one match with offset 1 for the whole run, and only that. */
  lemma RunIsOneMatch(v: Variant, s: seq<byte>, n: nat)
    requires RunThenFresh(s, n)
    ensures Choose(v, s) == Block([Sequence([s[0]], 1, n - 1)], s[n..])
  {
    hide Fresh, Acceptable, Search, Chain, MatchEnd;
    RunFirstProbe(v, s, n);
    var f := Search(v, s, EmptyTable(v), 1, FIRST_ATTEMPT).value;
    assert CatchUp(s, 0, 1, 0) == 0;
    RunChain(v, s, n, f.table);
    var p := Chain(v, s, f.table, 0, 1, 0, []);
    FreshSearchFails(v, s, p.table, n + 1, FIRST_ATTEMPT);
    assert Loop(v, s, p.table, n, p.sequences) == Block(p.sequences, s[n..]);
  }

  /** 106 zero bytes followed by 1, 2, ..., 15. */
  function ShortfallInput(): (s: seq<byte>)
    ensures |s| == 121
  {
    seq(121, i requires 0 <= i < 121 => if i < 106 then 0 else i - 105)
  }

  lemma ShortfallIsRun()
    ensures RunThenFresh(ShortfallInput(), 106)
  {
    var s := ShortfallInput();
    ZerosAreSame(s, 0, 105);
    forall p | 106 <= p && p + MFLIMIT <= |s|
      ensures Fresh(s, p)
    {
      forall q | 0 <= q < p
        ensures !SameBytes(s, q, p, MINMATCH)
      {
        assert s[q] != s[p];
      }
    }
  }

  lemma {:induction false} ZerosAreSame(s: seq<byte>, a: nat, n: nat)
    requires a + 1 + n <= |s| && forall i | 0 <= i <= a + n :: s[i] == 0
    ensures SameBytes(s, a, a + 1, n)
    decreases n
  {
    if n > 0 {
      ZerosAreSame(s, a + 1, n - 1);
    }
  }

  /** LZ4_COMPRESSMIN promises a gain of 100 bytes; this input is kept with a gain of 99. */
  lemma GainFallsShort()
    ensures var s := ShortfallInput();
            var b := Choose(Narrow, s);
            LongEnough(b.sequences) && |Output(b, |s|)| == |s| - 99
  {
    hide Choose;
    var s := ShortfallInput();
    ShortfallIsRun();
    RunIsOneMatch(Narrow, s, 106);
    var q := Sequence([s[0]], 1, 105);
    assert [q][1..] == [];
    EncodeSequenceSize(q);
    assert |EncodeSequences([q])| == 5;
    ExtensionBytesSize(15);
  }
}
