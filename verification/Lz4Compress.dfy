/**
 * The block the compressor chooses: match finder, catch-up, match counting and chaining, for both
 * table variants, and the proof that this block is a legal one for the input.
 */
module Lz4Compress {
  import opened Options
  import opened Lz4Words
  import opened Lz4Format

  /** `LZ4_compressCtx` keeps 32-bit positions and tests distances, `LZ4_compress64kCtx` does neither. */
  datatype Variant = Wide | Narrow

  const MINLENGTH := MFLIMIT + 1
  const LZ4_64KLIMIT := 0x10000 + (MFLIMIT - 1)
  const MAX_INPUT := 0x7fff_ffff
  const LZ4_COMPRESSMIN := 100

  /** `1 << SKIPSTRENGTH`, the number of probes made at each step width, and the count a search starts from. */
  const PROBES_PER_STEP := 64
  const FIRST_ATTEMPT := PROBES_PER_STEP + 3

  function TableSize(v: Variant): nat {
    if v.Wide? then 4096 else 8192
  }

  /** The number of values a table entry can hold. */
  function Positions(v: Variant): nat {
    if v.Wide? then 0x1_0000_0000 else 0x1_0000
  }

  function Limit(v: Variant): nat {
    if v.Wide? then MAX_INPUT + 1 else LZ4_64KLIMIT
  }

  /** The top 12 or 13 bits of the 32-bit product. */
  function Hash(v: Variant, s: seq<byte>, p: nat): (h: nat)
    requires p + 4 <= |s|
    ensures h < TableSize(v)
  {
    var product := Load(s, p, 4) * 2654435761 % 0x1_0000_0000;
    if v.Wide? then product / 0x10_0000 else product / 0x8_0000
  }

  /** A position as the table entry stores it. */
  function Stored(v: Variant, p: nat): (e: nat)
    ensures e <= p
  {
    ModAtMost(p, Positions(v));
    p % Positions(v)
  }

  lemma ModAtMost(p: nat, m: nat)
    requires m > 0
    ensures p % m <= p
  {
    assert p < m ==> p % m == p;
  }

  /** Every entry is a position before `n`. */
  ghost predicate TableOk(v: Variant, table: seq<nat>, n: nat) {
    |table| == TableSize(v) && forall h | 0 <= h < |table| :: table[h] < n
  }

  predicate Acceptable(v: Variant, s: seq<byte>, ref: nat, ip: nat)
    requires ref + 4 <= |s| && ip + 4 <= |s|
  {
    (v.Wide? ==> ip <= ref + MAX_DISTANCE) && Load(s, ref, 4) == Load(s, ip, 4)
  }

  datatype Found = Found(table: seq<nat>, ip: nat, ref: nat)

  /** The match finder: probe positions at a growing step until a candidate matches four bytes. */
  function Search(v: Variant, s: seq<byte>, table: seq<nat>, ip: nat, attempts: nat): (r: Option<Found>)
    requires ip + 4 <= |s| && TableOk(v, table, ip) && attempts >= PROBES_PER_STEP
    ensures r.Some? ==>
              && ip <= r.value.ip && r.value.ip + MFLIMIT < |s| && r.value.ref < r.value.ip
              && Acceptable(v, s, r.value.ref, r.value.ip) && TableOk(v, r.value.table, r.value.ip + 1)
    decreases |s| - ip
  {
    var step := attempts / PROBES_PER_STEP;
    if ip + step + MFLIMIT > |s| then None
    else
      var h := Hash(v, s, ip);
      var ref := table[h];
      var table' := table[h := Stored(v, ip)];
      if Acceptable(v, s, ref, ip) then Some(Found(table', ip, ref))
      else Search(v, s, table', ip + step, attempts + 1)
  }

  /** How far a match can be moved back towards the anchor. */
  function CatchUp(s: seq<byte>, anchor: nat, ip: nat, ref: nat): (back: nat)
    requires anchor <= ip <= |s| && ref < ip
    ensures back <= ip - anchor && back <= ref
    decreases ip
  {
    if ip > anchor && ref > 0 && s[ip - 1] == s[ref - 1] then 1 + CatchUp(s, anchor, ip - 1, ref - 1) else 0
  }

  /** Where a match found at `ip` ends: four verified bytes, then the longest continuation. */
  function MatchEnd(s: seq<byte>, ref: nat, ip: nat): (e: nat)
    requires ref < ip && ip + MFLIMIT <= |s|
    ensures ip + MINMATCH <= e && e + LASTLITERALS <= |s|
  {
    ip + MINMATCH + CommonLength(s, ref + MINMATCH, ip + MINMATCH, |s| - LASTLITERALS)
  }

  /** Moving a match back does not move its end forward past what the search has entered in the table. */
  lemma {:induction false} CatchUpIsRecovered(s: seq<byte>, anchor: nat, ip: nat, ref: nat)
    requires anchor <= ip && ref < ip && ip + MFLIMIT <= |s| && SameBytes(s, ref, ip, MINMATCH)
    ensures var back := CatchUp(s, anchor, ip, ref);
            && SameBytes(s, ref - back, ip - back, back + MINMATCH)
            && MatchEnd(s, ref - back, ip - back) >= ip + MINMATCH
  {
    var back := CatchUp(s, anchor, ip, ref);
    CatchUpSame(s, anchor, ip, ref, MINMATCH);
    SameBytesSkip(s, ref - back, ip - back, MINMATCH, back);
    CommonLengthIsLongest(s, ref - back + MINMATCH, ip - back + MINMATCH, |s| - LASTLITERALS, back);
  }

  lemma {:induction false} CatchUpSame(s: seq<byte>, anchor: nat, ip: nat, ref: nat, n: nat)
    requires anchor <= ip && ref < ip && ip + n <= |s| && SameBytes(s, ref, ip, n)
    ensures var back := CatchUp(s, anchor, ip, ref);
            SameBytes(s, ref - back, ip - back, back + n)
    decreases ip
  {
    if ip > anchor && ref > 0 && s[ip - 1] == s[ref - 1] {
      CatchUpSame(s, anchor, ip - 1, ref - 1, n + 1);
    }
  }

  lemma {:induction false} SameBytesSkip(s: seq<byte>, a: nat, b: nat, k: nat, n: nat)
    requires a + k + n <= |s| && b + k + n <= |s| && SameBytes(s, a, b, k + n)
    ensures SameBytes(s, a + k, b + k, n)
    decreases k
  {
    if k > 0 {
      SameBytesSkip(s, a + 1, b + 1, k - 1, n);
    }
  }

  lemma FoundIsBeforeEnd(v: Variant, s: seq<byte>, anchor: nat, f: Found)
    requires anchor <= f.ip && f.ref < f.ip && f.ip + MFLIMIT <= |s|
    requires Acceptable(v, s, f.ref, f.ip) && TableOk(v, f.table, f.ip + 1)
    ensures var back := CatchUp(s, anchor, f.ip, f.ref);
            TableOk(v, f.table, MatchEnd(s, f.ref - back, f.ip - back))
  {
    hide CatchUp, MatchEnd, SameBytes, Load;
    LoadEqual(s, f.ref, f.ip, MINMATCH);
    CatchUpIsRecovered(s, anchor, f.ip, f.ref);
  }

  datatype Progress = Progress(table: seq<nat>, anchor: nat, sequences: seq<Sequence>, finished: bool)

  /** Emit a match and, while the position behind it matches at once, another one without literals. */
  function Chain(v: Variant, s: seq<byte>, table: seq<nat>, anchor: nat, ip: nat, ref: nat, ss: seq<Sequence>)
    : (r: Progress)
    requires anchor <= ip && ref < ip && ip + MFLIMIT <= |s| && TableOk(v, table, MatchEnd(s, ref, ip))
    ensures anchor < r.anchor
    ensures !r.finished ==> r.anchor + MFLIMIT <= |s| && TableOk(v, r.table, r.anchor + 1)
    ensures r.anchor + LASTLITERALS <= |s|
    decreases |s| - ip
  {
    var end := MatchEnd(s, ref, ip);
    var ss' := ss + [Sequence(s[anchor..ip], ip - ref, end - ip)];
    if end + MFLIMIT > |s| then Progress(table, end, ss', true)
    else
      var table1 := table[Hash(v, s, end - 2) := Stored(v, end - 2)];
      var h := Hash(v, s, end);
      var ref' := table1[h];
      var table2 := table1[h := Stored(v, end)];
      if Acceptable(v, s, ref', end) then Chain(v, s, table2, end, end, ref', ss')
      else Progress(table2, end, ss', false)
  }

  /** The main loop, entered with the first probe one byte behind the anchor. */
  function Loop(v: Variant, s: seq<byte>, table: seq<nat>, anchor: nat, ss: seq<Sequence>): Block
    requires anchor + MFLIMIT <= |s| && TableOk(v, table, anchor + 1)
    decreases |s| - anchor
  {
    hide Search, Chain, MatchEnd, CatchUp, Acceptable;
    match Search(v, s, table, anchor + 1, FIRST_ATTEMPT)
    case None => Block(ss, s[anchor..])
    case Some(f) =>
      var back := CatchUp(s, anchor, f.ip, f.ref);
      FoundIsBeforeEnd(v, s, anchor, f);
      var p := Chain(v, s, f.table, anchor, f.ip - back, f.ref - back, ss);
      if p.finished then Block(p.sequences, s[p.anchor..])
      else Loop(v, s, p.table, p.anchor, p.sequences)
  }

  function EmptyTable(v: Variant): seq<nat> {
    seq(TableSize(v), _ => 0)
  }

  /** The block chosen for an input. */
  function Choose(v: Variant, s: seq<byte>): Block {
    if |s| < MINLENGTH then Block([], s)
    else Loop(v, s, EmptyTable(v), 0, [])
  }

  // ---------------------------------------------------------------- the chosen block is legal

  /** What holds at every loop head: the sequences so far are legal and mean the input up to the anchor. */
  predicate Covers(s: seq<byte>, anchor: nat, ss: seq<Sequence>) {
    anchor <= |s| && Executable(0, ss) && EndsEarly(0, ss, |s|) && Run([], ss) == s[..anchor]
  }

  /** Below the limit of its variant no position is truncated and every offset fits 16 bits. */
  lemma StoredExactly(v: Variant, s: seq<byte>, p: nat)
    requires |s| < Limit(v) && p + MFLIMIT <= |s|
    ensures Stored(v, p) == p
    ensures v.Narrow? ==> p <= 65534
  {
  }

  /** A copy at the distance of an equal stretch reproduces the input. */
  lemma CopyReproduces(s: seq<byte>, ref: nat, ip: nat, n: nat)
    requires ref < ip && ip + n <= |s| && SameBytes(s, ref, ip, n)
    ensures CopyBack(s[..ip], ip - ref, n) == s[..ip + n]
  {
    var r, d := s[..ip + n], ip - ref;
    forall k | ip <= k < ip + n
      ensures EchoAt(r, k, d)
    {
      SameBytesAt(s, ref, ip, n, k - ip);
    }
    assert r[..ip] == s[..ip];
    CopyBackUnique(s[..ip], d, r);
  }

  lemma MatchIsSame(s: seq<byte>, ref: nat, ip: nat)
    requires ref < ip && ip + MFLIMIT <= |s| && SameBytes(s, ref, ip, MINMATCH)
    ensures SameBytes(s, ref, ip, MatchEnd(s, ref, ip) - ip)
  {
    var n := MatchEnd(s, ref, ip) - ip - MINMATCH;
    CommonLengthIsLongest(s, ref + MINMATCH, ip + MINMATCH, |s| - LASTLITERALS, n);
    SameBytesJoin(s, ref, ip, MINMATCH, n);
  }

  lemma {:induction false} SameBytesJoin(s: seq<byte>, a: nat, b: nat, k: nat, n: nat)
    requires a + k + n <= |s| && b + k + n <= |s|
    requires SameBytes(s, a, b, k) && SameBytes(s, a + k, b + k, n)
    ensures SameBytes(s, a, b, k + n)
    decreases k
  {
    if k > 0 {
      SameBytesJoin(s, a + 1, b + 1, k - 1, n);
    }
  }

  /** Emitting one match keeps the loop invariant. */
  lemma EmitCovers(s: seq<byte>, anchor: nat, ip: nat, ref: nat, ss: seq<Sequence>)
    requires Covers(s, anchor, ss) && anchor <= ip && ref < ip && ip + MFLIMIT <= |s|
    requires SameBytes(s, ref, ip, MINMATCH) && ip - ref <= MAX_DISTANCE
    ensures var end := MatchEnd(s, ref, ip);
            Covers(s, end, ss + [Sequence(s[anchor..ip], ip - ref, end - ip)])
  {
    hide Executable, EndsEarly, Run, CopyBack, SameBytes;
    var end := MatchEnd(s, ref, ip);
    var q := Sequence(s[anchor..ip], ip - ref, end - ip);
    assert s[..anchor] + s[anchor..ip] == s[..ip];
    MatchIsSame(s, ref, ip);
    CopyReproduces(s, ref, ip, end - ip);
    RunAppend([], ss, q);
    EndsEarlyAppend([], ss, q, |s|);
  }

  lemma AcceptableMatch(v: Variant, s: seq<byte>, ref: nat, ip: nat)
    requires |s| < Limit(v) && ref < ip && ip + MFLIMIT <= |s| && Acceptable(v, s, ref, ip)
    ensures SameBytes(s, ref, ip, MINMATCH) && ip - ref <= MAX_DISTANCE
  {
    LoadEqual(s, ref, ip, MINMATCH);
    StoredExactly(v, s, ip);
  }

  lemma {:induction false} ChainCovers(v: Variant, s: seq<byte>, table: seq<nat>, anchor: nat, ip: nat, ref: nat,
                                       ss: seq<Sequence>)
    requires |s| < Limit(v) && Covers(s, anchor, ss)
    requires anchor <= ip && ref < ip && ip + MFLIMIT <= |s| && TableOk(v, table, MatchEnd(s, ref, ip))
    requires SameBytes(s, ref, ip, MINMATCH) && ip - ref <= MAX_DISTANCE
    ensures var r := Chain(v, s, table, anchor, ip, ref, ss);
            Covers(s, r.anchor, r.sequences)
    decreases |s| - ip
  {
    hide Covers, SameBytes, CommonLength, Hash, Load;
    EmitCovers(s, anchor, ip, ref, ss);
    var end := MatchEnd(s, ref, ip);
    var ss' := ss + [Sequence(s[anchor..ip], ip - ref, end - ip)];
    if end + MFLIMIT <= |s| {
      var table1 := table[Hash(v, s, end - 2) := Stored(v, end - 2)];
      var h := Hash(v, s, end);
      var ref' := table1[h];
      if Acceptable(v, s, ref', end) {
        AcceptableMatch(v, s, ref', end);
        ChainCovers(v, s, table1[h := Stored(v, end)], end, end, ref', ss');
      }
    }
  }

  lemma FoundCovers(v: Variant, s: seq<byte>, anchor: nat, f: Found, ss: seq<Sequence>)
    requires |s| < Limit(v) && Covers(s, anchor, ss)
    requires anchor <= f.ip && f.ref < f.ip && f.ip + MFLIMIT <= |s|
    requires Acceptable(v, s, f.ref, f.ip) && TableOk(v, f.table, f.ip + 1)
    ensures var back := CatchUp(s, anchor, f.ip, f.ref);
            && TableOk(v, f.table, MatchEnd(s, f.ref - back, f.ip - back))
            && var p := Chain(v, s, f.table, anchor, f.ip - back, f.ref - back, ss);
               Covers(s, p.anchor, p.sequences)
  {
    hide SameBytes, Covers, Chain, CatchUp, MatchEnd, Acceptable;
    var back := CatchUp(s, anchor, f.ip, f.ref);
    FoundIsBeforeEnd(v, s, anchor, f);
    AcceptableMatch(v, s, f.ref, f.ip);
    CatchUpIsRecovered(s, anchor, f.ip, f.ref);
    SameBytesPrefix(s, f.ref - back, f.ip - back, MINMATCH, back);
    ChainCovers(v, s, f.table, anchor, f.ip - back, f.ref - back, ss);
  }

  lemma CoversAll(s: seq<byte>, anchor: nat, ss: seq<Sequence>)
    requires Covers(s, anchor, ss)
    ensures BlockFor(Block(ss, s[anchor..]), s)
  {
    assert s[..anchor] + s[anchor..] == s;
  }

  lemma {:induction false} LoopIsLegal(v: Variant, s: seq<byte>, table: seq<nat>, anchor: nat, ss: seq<Sequence>)
    requires |s| < Limit(v) && Covers(s, anchor, ss)
    requires anchor + MFLIMIT <= |s| && TableOk(v, table, anchor + 1)
    ensures BlockFor(Loop(v, s, table, anchor, ss), s)
    decreases |s| - anchor
  {
    hide Search, Chain, CatchUp, Covers, BlockFor, MatchEnd, Acceptable;
    var found := Search(v, s, table, anchor + 1, FIRST_ATTEMPT);
    if found.None? {
      CoversAll(s, anchor, ss);
    } else {
      var f := found.value;
      FoundCovers(v, s, anchor, f, ss);
      var back := CatchUp(s, anchor, f.ip, f.ref);
      var p := Chain(v, s, f.table, anchor, f.ip - back, f.ref - back, ss);
      if p.finished {
        CoversAll(s, p.anchor, p.sequences);
      } else {
        LoopIsLegal(v, s, p.table, p.anchor, p.sequences);
      }
    }
  }

  lemma {:induction false} SameBytesPrefix(s: seq<byte>, a: nat, b: nat, k: nat, n: nat)
    requires a + k + n <= |s| && b + k + n <= |s| && SameBytes(s, a, b, n + k)
    ensures SameBytes(s, a, b, k)
    decreases k
  {
    if k > 0 {
      SameBytesPrefix(s, a + 1, b + 1, k - 1, n);
    }
  }

  /** The chosen block means the input, has only 16-bit backward offsets and obeys the end conditions. */
  lemma ChooseIsLegal(v: Variant, s: seq<byte>)
    requires |s| < Limit(v)
    ensures BlockFor(Choose(v, s), s)
  {
    if |s| < MINLENGTH {
      assert [] + s == s;
    } else {
      LoopIsLegal(v, s, EmptyTable(v), 0, []);
    }
  }
}
