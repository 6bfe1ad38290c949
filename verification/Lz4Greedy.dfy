/**
 * Which matches the compressor finds, told without its loops and without its table: a position is looked up
 * among the positions entered so far, probes move on by growing steps, and the first probe that hits is taken,
 * moved back and forth as far as the bytes agree.
 */
module Lz4Greedy {
  import opened Options
  import opened Lz4Words
  import opened Lz4Format
  import opened Lz4Compress

  /** What positions are entered under: the top 12 or 13 bits of a 32-bit product of their four bytes. */
  function Key(v: Variant, s: seq<byte>, p: nat): nat {
    if p + 4 > |s| then 0
    else
      var word := s[p] as int + 0x100 * s[p + 1] as int + 0x1_0000 * s[p + 2] as int + 0x100_0000 * s[p + 3] as int;
      word * 2654435761 % 0x1_0000_0000 / if v.Wide? then 0x10_0000 else 0x8_0000
  }

  /** The position entered last under the key of `p`; the beginning of the input if there is none. */
  function Candidate(v: Variant, s: seq<byte>, log: seq<nat>, p: nat): nat {
    if log == [] then 0
    else if Key(v, s, log[|log| - 1]) == Key(v, s, p) then log[|log| - 1]
    else Candidate(v, s, log[..|log| - 1], p)
  }

  /** The i-th probe finds four equal bytes in reach. Each probe enters its position. */
  ghost predicate Hit(v: Variant, s: seq<byte>, log: seq<nat>, ps: seq<nat>, i: nat)
    requires i < |ps|
  {
    var p, c := ps[i], Candidate(v, s, log + ps[..i], ps[i]);
    c < p && p + 4 <= |s| && p - c <= 65535 && s[c..c + 4] == s[p..p + 4]
  }

  /**
   * Probes from the anchor on, at steps that grow by one every 64 probes. All but the last have missed; none
   * but the one at the anchor is made unless the next one would leave twelve bytes of the input.
   */
  ghost predicate Probed(v: Variant, s: seq<byte>, log: seq<nat>, anchor: nat, ps: seq<nat>) {
    && ps != [] && ps[0] == anchor
    && (forall i | 0 < i < |ps| :: ps[i] == ps[i - 1] + (65 + i) / 64)
    && (forall i | 0 <= i < |ps| - 1 :: !Hit(v, s, log, ps, i))
    && (forall i | 1 < i < |ps| :: ps[i] + 12 <= |s|)
  }

  /** A match found at the last probe. */
  datatype Match = Match(probes: seq<nat>, ref: nat, back: nat, end: nat)

  ghost predicate Finds(v: Variant, s: seq<byte>, log: seq<nat>, anchor: nat, m: Match) {
    && Probed(v, s, log, anchor, m.probes)
    && var n := |m.probes| - 1;
       && Hit(v, s, log, m.probes, n)
       && m.ref == Candidate(v, s, log + m.probes[..n], m.probes[n])
       && (n > 0 ==> m.probes[n] + (66 + n) / 64 + 12 <= |s|)
       && Longest(s, anchor, m.probes[n], m.ref, m.back, m.end)
  }

  /** The match at `ip` goes back and forth as far as it can: to the anchor, and to the last five bytes. */
  ghost predicate Longest(s: seq<byte>, anchor: nat, ip: nat, ref: nat, back: nat, end: nat) {
    && ref < ip && anchor + back <= ip && back <= ref && ip + 4 <= end && end + 5 <= |s|
    && (forall j | ip - back <= j < end :: s[j] == s[j - (ip - ref)])
    && (anchor + back == ip || back == ref || s[ip - back - 1] != s[ref - back - 1])
    && (end + 5 == |s| || s[end] != s[end - (ip - ref)])
  }

  /** No probe hits before the next one would come too close to the end. */
  ghost predicate Fruitless(v: Variant, s: seq<byte>, log: seq<nat>, anchor: nat, ps: seq<nat>) {
    && Probed(v, s, log, anchor, ps) && |ps| > 1
    && ps[|ps| - 1] + (65 + |ps|) / 64 + 12 > |s|
  }

  /**
   * These are the matches from the anchor on. Behind each of them the position two bytes before its end is
   * entered, and the search goes on at its end, unless fewer than twelve bytes are left.
   */
  ghost predicate Greedy(v: Variant, s: seq<byte>, log: seq<nat>, anchor: nat, ms: seq<Match>, rest: seq<nat>)
    decreases |ms|
  {
    if ms == [] then Fruitless(v, s, log, anchor, rest)
    else
      var m := ms[0];
      && Finds(v, s, log, anchor, m)
      && if m.end + 12 > |s| then |ms| == 1 && rest == []
         else Greedy(v, s, log + m.probes + [m.end - 2], m.end, ms[1..], rest)
  }

  /** What the matches make of the input. */
  ghost predicate Makes(s: seq<byte>, anchor: nat, ms: seq<Match>, b: Block)
    decreases |ms|
  {
    if ms == [] then anchor <= |s| && b == Block([], s[anchor..])
    else
      && b.sequences != [] && ms[0].probes != []
      && var ip := ms[0].probes[|ms[0].probes| - 1];
         var start := ip - ms[0].back;
         && ms[0].ref < ip && anchor <= start < ms[0].end <= |s|
         && b.sequences[0] == Sequence(s[anchor..start], ip - ms[0].ref, ms[0].end - start)
         && Makes(s, ms[0].end, ms[1..], Block(b.sequences[1..], b.last))
  }

  // ---------------------------------------------------------------- the table

  lemma KeyIsHash(v: Variant, s: seq<byte>, p: nat)
    requires p + 4 <= |s|
    ensures Hash(v, s, p) == Key(v, s, p)
  {
    assert Load(s, p, 4) == s[p] as int + 256 * Load(s, p + 1, 3);
    assert Load(s, p + 1, 3) == s[p + 1] as int + 256 * Load(s, p + 2, 2);
    assert Load(s, p + 2, 2) == s[p + 2] as int + 256 * Load(s, p + 3, 1);
    assert Load(s, p + 3, 1) == s[p + 3] as int;
  }

  /** The table knows of each position what the log says. */
  ghost predicate Remembers(v: Variant, s: seq<byte>, log: seq<nat>, table: seq<nat>) {
    |table| == TableSize(v) && forall p: nat | p + 4 <= |s| :: table[Hash(v, s, p)] == Candidate(v, s, log, p)
  }

  lemma RemembersNext(v: Variant, s: seq<byte>, log: seq<nat>, table: seq<nat>, q: nat)
    requires |s| < Limit(v) && q + MFLIMIT <= |s| && Remembers(v, s, log, table)
    ensures Remembers(v, s, log + [q], table[Hash(v, s, q) := Stored(v, q)])
  {
    hide Hash, Key, TableSize, Stored;
    StoredExactly(v, s, q);
    var table' := table[Hash(v, s, q) := Stored(v, q)];
    KeyIsHash(v, s, q);
    assert (log + [q])[..|log|] == log;
    forall p: nat | p + 4 <= |s|
      ensures table'[Hash(v, s, p)] == Candidate(v, s, log + [q], p)
    {
      KeyIsHash(v, s, p);
    }
  }

  lemma RemembersNothing(v: Variant, s: seq<byte>)
    ensures Remembers(v, s, [0], EmptyTable(v))
  {
    hide Hash, Key;
    assert [0][..0] == [];
    forall p: nat | p + 4 <= |s|
      ensures Candidate(v, s, [0], p) == 0
    {
    }
  }

  lemma AcceptableIsHit(v: Variant, s: seq<byte>, log: seq<nat>, ps: seq<nat>, i: nat, ref: nat)
    requires |s| < Limit(v) && i < |ps| && ps[i] + MFLIMIT <= |s| && ref < ps[i]
    requires ref == Candidate(v, s, log + ps[..i], ps[i])
    ensures Acceptable(v, s, ref, ps[i]) <==> Hit(v, s, log, ps, i)
  {
    hide Load, Candidate, SameBytes;
    var p := ps[i];
    LoadEqual(s, ref, p, 4);
    SameFour(s, ref, p);
    StoredExactly(v, s, p);
  }

  lemma SameFour(s: seq<byte>, a: nat, b: nat)
    requires a + 4 <= |s| && b + 4 <= |s|
    ensures SameBytes(s, a, b, 4) <==> s[a..a + 4] == s[b..b + 4]
  {
    var x, y := s[a..a + 4], s[b..b + 4];
    assert x == [s[a], s[a + 1], s[a + 2], s[a + 3]] && y == [s[b], s[b + 1], s[b + 2], s[b + 3]];
    assert SameBytes(s, a + 4, b + 4, 0);
    assert SameBytes(s, a + 3, b + 3, 1) <==> s[a + 3] == s[b + 3];
    assert SameBytes(s, a + 2, b + 2, 2) <==> s[a + 2] == s[b + 2] && SameBytes(s, a + 3, b + 3, 1);
    assert SameBytes(s, a + 1, b + 1, 3) <==> s[a + 1] == s[b + 1] && SameBytes(s, a + 2, b + 2, 2);
  }

  // ---------------------------------------------------------------- the search

  /** The next probe, at the place where the search goes on. */
  lemma ProbedNext(v: Variant, s: seq<byte>, log: seq<nat>, anchor: nat, ps: seq<nat>, ip: nat)
    requires Probed(v, s, log, anchor, ps) && !Hit(v, s, log, ps, |ps| - 1)
    requires ip == ps[|ps| - 1] + (65 + |ps|) / 64 && (|ps| > 1 ==> ip + 12 <= |s|)
    ensures Probed(v, s, log, anchor, ps + [ip])
  {
    hide Hit;
    var ps' := ps + [ip];
    forall i | 0 <= i < |ps|
      ensures !Hit(v, s, log, ps', i)
    {
      assert ps'[..i] == ps[..i] && ps'[i] == ps[i];
      HitSame(v, s, log, ps, ps', i);
    }
  }

  /** The search makes the probes described, and finds something at the first that hits. */
  lemma {:induction false} SearchProbes(v: Variant, s: seq<byte>, log: seq<nat>, anchor: nat, ps: seq<nat>,
                                        table: seq<nat>, ip: nat) returns (qs: seq<nat>)
    requires |s| < Limit(v) && ip + 4 <= |s| && TableOk(v, table, ip)
    requires Probed(v, s, log, anchor, ps) && !Hit(v, s, log, ps, |ps| - 1) && Remembers(v, s, log + ps, table)
    requires ip == ps[|ps| - 1] + (65 + |ps|) / 64 && (|ps| > 1 ==> ip + 12 <= |s|)
    ensures qs != []
    ensures match Search(v, s, table, ip, 66 + |ps|)
            case None => Fruitless(v, s, log, anchor, qs)
            case Some(f) =>
              var n := |qs| - 1;
              && n > 0 && Probed(v, s, log, anchor, qs) && Hit(v, s, log, qs, n) && qs[n] == f.ip
              && f.ref == Candidate(v, s, log + qs[..n], qs[n])
              && qs[n] + (66 + n) / 64 + 12 <= |s| && Remembers(v, s, log + qs, f.table)
    decreases |s| - ip
  {
    hide Probed, Hit, Remembers, Acceptable, Hash, Stored, Candidate;
    ProbesSoFar(v, s, log, anchor, ps);
    ProbedNext(v, s, log, anchor, ps, ip);
    qs := ps + [ip];
    var step := (66 + |ps|) / 64;
    if ip + step + 12 <= |s| {
      var h := Hash(v, s, ip);
      assert qs[..|ps|] == ps && log + qs == log + ps + [ip];
      Remembered(v, s, log + ps, table, ip);
      AcceptableIsHit(v, s, log, qs, |ps|, table[h]);
      RemembersNext(v, s, log + ps, table, ip);
      if !Acceptable(v, s, table[h], ip) {
        qs := SearchProbes(v, s, log, anchor, qs, table[h := Stored(v, ip)], ip + step);
      }
    }
  }

  lemma ProbesSoFar(v: Variant, s: seq<byte>, log: seq<nat>, anchor: nat, ps: seq<nat>)
    requires Probed(v, s, log, anchor, ps)
    ensures ps != [] && ps[0] == anchor
  {
  }

  lemma Remembered(v: Variant, s: seq<byte>, log: seq<nat>, table: seq<nat>, p: nat)
    requires Remembers(v, s, log, table) && p + 4 <= |s|
    ensures Hash(v, s, p) < |table| && table[Hash(v, s, p)] == Candidate(v, s, log, p)
  {
  }

  // ---------------------------------------------------------------- the match

  lemma {:induction false} CatchUpStops(s: seq<byte>, anchor: nat, ip: nat, ref: nat)
    requires anchor <= ip <= |s| && ref < ip
    ensures var back := CatchUp(s, anchor, ip, ref);
            anchor + back == ip || back == ref || s[ip - back - 1] != s[ref - back - 1]
    decreases ip
  {
    if ip > anchor && ref > 0 && s[ip - 1] == s[ref - 1] {
      CatchUpStops(s, anchor, ip - 1, ref - 1);
    }
  }

  lemma {:induction false} CommonLengthStops(s: seq<byte>, a: nat, b: nat, limit: nat)
    requires a <= b <= limit <= |s|
    ensures var n := CommonLength(s, a, b, limit);
            b + n == limit || s[a + n] != s[b + n]
    decreases |s| - b
  {
    if b < limit && s[a] == s[b] {
      CommonLengthStops(s, a + 1, b + 1, limit);
    }
  }

  /** Catch-up and match counting make the match as long as it can be. */
  lemma MatchIsLongest(s: seq<byte>, anchor: nat, ip: nat, ref: nat)
    requires anchor <= ip && ref < ip && ip + MFLIMIT <= |s| && SameBytes(s, ref, ip, MINMATCH)
    ensures var back := CatchUp(s, anchor, ip, ref);
            Longest(s, anchor, ip, ref, back, MatchEnd(s, ref - back, ip - back))
  {
    hide CatchUp, SameBytes, CommonLength;
    var back := CatchUp(s, anchor, ip, ref);
    var end, d, start := MatchEnd(s, ref - back, ip - back), ip - ref, ip - back;
    CatchUpStops(s, anchor, ip, ref);
    CatchUpIsRecovered(s, anchor, ip, ref);
    SameBytesPrefix(s, ref - back, start, MINMATCH, back);
    MatchIsSame(s, ref - back, start);
    forall j | start <= j < end
      ensures s[j] == s[j - d]
    {
      SameBytesAt(s, ref - back, start, end - start, j - start);
    }
    CommonLengthStops(s, ref - back + MINMATCH, start + MINMATCH, |s| - LASTLITERALS);
  }

  // ---------------------------------------------------------------- the block

  /** The match found by the compressor's functions, with a table to go on with. */
  ghost predicate Ready(v: Variant, s: seq<byte>, table: seq<nat>, anchor: nat, m: Match) {
    && m.probes != []
    && var ip := m.probes[|m.probes| - 1];
       && m.ref < ip && m.back <= m.ref && anchor + m.back <= ip && ip + MFLIMIT <= |s|
       && m.end == MatchEnd(s, m.ref - m.back, ip - m.back) && TableOk(v, table, m.end)
  }

  /** The rest of the compression, from a match to be emitted on. */
  ghost function Resume(v: Variant, s: seq<byte>, table: seq<nat>, anchor: nat, m: Match, ss: seq<Sequence>): Block
    requires Ready(v, s, table, anchor, m)
  {
    hide Chain, Loop, MatchEnd;
    var ip := m.probes[|m.probes| - 1];
    var p := Chain(v, s, table, anchor, ip - m.back, m.ref - m.back, ss);
    if p.finished then Block(p.sequences, s[p.anchor..]) else Loop(v, s, p.table, p.anchor, p.sequences)
  }

  /** One match more in front. */
  lemma GreedyCons(v: Variant, s: seq<byte>, log: seq<nat>, anchor: nat, m: Match, ms: seq<Match>, rest: seq<nat>)
    requires Finds(v, s, log, anchor, m)
    requires if m.end + 12 > |s| then ms == [] && rest == []
             else Greedy(v, s, log + m.probes + [m.end - 2], m.end, ms, rest)
    ensures Greedy(v, s, log, anchor, [m] + ms, rest)
  {
    hide Finds;
    assert ([m] + ms)[1..] == ms;
  }

  lemma MakesCons(s: seq<byte>, anchor: nat, ip: nat, m: Match, ms: seq<Match>, b: Block)
    requires m.probes != [] && ip == m.probes[|m.probes| - 1]
    requires m.ref < ip && anchor + m.back <= ip && ip - m.back < m.end <= |s|
    requires Makes(s, m.end, ms, b)
    ensures var q := Sequence(s[anchor..ip - m.back], ip - m.ref, m.end - (ip - m.back));
            Makes(s, anchor, [m] + ms, Block([q] + b.sequences, b.last))
  {
    assert ([m] + ms)[1..] == ms;
    var q := Sequence(s[anchor..ip - m.back], ip - m.ref, m.end - (ip - m.back));
    assert ([q] + b.sequences)[1..] == b.sequences;
  }

  /** The matches of the main loop. */
  lemma {:induction false} LoopIsGreedy(v: Variant, s: seq<byte>, log: seq<nat>, table: seq<nat>, anchor: nat,
                                        ss: seq<Sequence>) returns (ms: seq<Match>, rest: seq<nat>, b: Block)
    requires |s| < Limit(v) && anchor + MFLIMIT <= |s| && TableOk(v, table, anchor + 1)
    requires Remembers(v, s, log + [anchor], table) && !Hit(v, s, log, [anchor], 0)
    ensures Greedy(v, s, log, anchor, ms, rest) && Makes(s, anchor, ms, b)
    ensures Loop(v, s, table, anchor, ss) == Block(ss + b.sequences, b.last)
    decreases |s| - anchor, 1
  {
    hide Search, Chain, MatchEnd, CatchUp, Acceptable, Finds, Probed, Hit, Candidate, Remembers, Resume;
    ProbedOnce(v, s, log, anchor);
    var qs := SearchProbes(v, s, log, anchor, [anchor], table, anchor + 1);
    match Search(v, s, table, anchor + 1, FIRST_ATTEMPT) {
      case None =>
        ms, rest, b := [], qs, Block([], s[anchor..]);
        assert ss + [] == ss;
      case Some(f) =>
        var m := LoopFinds(v, s, log, table, anchor, qs, f, ss);
        ms, rest, b := ResumeIsGreedy(v, s, log, f.table, anchor, m, ss);
    }
  }

  /** Finding a match leads the main loop on to it. */
  lemma LoopFinds(v: Variant, s: seq<byte>, log: seq<nat>, table: seq<nat>, anchor: nat, ps: seq<nat>, f: Found,
                  ss: seq<Sequence>) returns (m: Match)
    requires |s| < Limit(v) && anchor + MFLIMIT <= |s| && TableOk(v, table, anchor + 1)
    requires Search(v, s, table, anchor + 1, FIRST_ATTEMPT) == Some(f)
    requires ps != []
    requires var n := |ps| - 1;
             && Probed(v, s, log, anchor, ps) && Hit(v, s, log, ps, n) && ps[n] == f.ip
             && f.ref == Candidate(v, s, log + ps[..n], ps[n])
             && (n > 0 ==> ps[n] + (66 + n) / 64 + 12 <= |s|)
    ensures m.probes == ps && Finds(v, s, log, anchor, m) && Ready(v, s, f.table, anchor, m)
    ensures Loop(v, s, table, anchor, ss) == Resume(v, s, f.table, anchor, m, ss)
  {
    hide Search, Chain, MatchEnd, CatchUp, Acceptable, Finds, Probed, Hit, Candidate;
    var back := CatchUp(s, anchor, f.ip, f.ref);
    m := Match(ps, f.ref, back, MatchEnd(s, f.ref - back, f.ip - back));
    FoundIsBeforeEnd(v, s, anchor, f);
    FoundIsMatch(v, s, log, anchor, f, m);
  }

  lemma ProbedOnce(v: Variant, s: seq<byte>, log: seq<nat>, anchor: nat)
    ensures Probed(v, s, log, anchor, [anchor])
  {
  }

  lemma FoundIsMatch(v: Variant, s: seq<byte>, log: seq<nat>, anchor: nat, f: Found, m: Match)
    requires |s| < Limit(v) && anchor <= f.ip && f.ref < f.ip && f.ip + MFLIMIT <= |s| && Acceptable(v, s, f.ref, f.ip)
    requires m.probes != [] && m.ref == f.ref && m.back == CatchUp(s, anchor, f.ip, f.ref)
    requires m.end == MatchEnd(s, f.ref - m.back, f.ip - m.back)
    requires var n := |m.probes| - 1;
             && Probed(v, s, log, anchor, m.probes) && Hit(v, s, log, m.probes, n) && m.probes[n] == f.ip
             && f.ref == Candidate(v, s, log + m.probes[..n], m.probes[n])
             && (n > 0 ==> m.probes[n] + (66 + n) / 64 + 12 <= |s|)
    ensures Finds(v, s, log, anchor, m)
  {
    hide Probed, Hit, Candidate, Acceptable, CatchUp, MatchEnd, Longest, SameBytes;
    AcceptableMatch(v, s, f.ref, f.ip);
    MatchIsLongest(s, anchor, f.ip, f.ref);
  }

  /** What comes behind a match: another one found at once, or the main loop again. */
  ghost function After(v: Variant, s: seq<byte>, table: seq<nat>, end: nat, ss: seq<Sequence>): Block
    requires 2 <= end && end + MFLIMIT <= |s| && TableOk(v, table, end)
  {
    hide Loop, Resume, CommonLength, Hash, Stored, Acceptable;
    var table1 := table[Hash(v, s, end - 2) := Stored(v, end - 2)];
    var h := Hash(v, s, end);
    var ref, table2 := table1[h], table1[h := Stored(v, end)];
    if Acceptable(v, s, ref, end) then Resume(v, s, table2, end, Match([end], ref, 0, MatchEnd(s, ref, end)), ss)
    else Loop(v, s, table2, end, ss)
  }

  lemma ResumeStep(v: Variant, s: seq<byte>, table: seq<nat>, anchor: nat, m: Match, ss: seq<Sequence>)
    requires Ready(v, s, table, anchor, m)
    ensures var ip, end := m.probes[|m.probes| - 1], m.end;
            && ip - m.back < end <= |s| && TableOk(v, table, end)
            && var q := Sequence(s[anchor..ip - m.back], ip - m.ref, end - (ip - m.back));
               Resume(v, s, table, anchor, m, ss)
               == if end + MFLIMIT > |s| then Block(ss + [q], s[end..]) else After(v, s, table, end, ss + [q])
  {
    hide Loop, CommonLength, Hash, Stored, Acceptable;
  }

  lemma CatchUpNothing(s: seq<byte>, ip: nat, ref: nat)
    requires ref < ip <= |s|
    ensures CatchUp(s, ip, ip, ref) == 0
  {
  }

  /** What the table has for the end of a match, once the position before it has been entered. */
  lemma LookBehind(v: Variant, s: seq<byte>, log: seq<nat>, table: seq<nat>, end: nat)
    requires |s| < Limit(v) && 2 <= end && end + MFLIMIT <= |s| && Remembers(v, s, log, table)
    requires TableOk(v, table, end)
    ensures var table1 := table[Hash(v, s, end - 2) := Stored(v, end - 2)];
            var h := Hash(v, s, end);
            var log' := log + [end - 2];
            && table1[h] == Candidate(v, s, log', end)
            && Remembers(v, s, log' + [end], table1[h := Stored(v, end)])
            && (table1[h] < end ==> (Acceptable(v, s, table1[h], end) <==> Hit(v, s, log', [end], 0)))
  {
    hide Hash, Candidate, Remembers, Acceptable, Hit, Stored;
    var table1, log' := table[Hash(v, s, end - 2) := Stored(v, end - 2)], log + [end - 2];
    RemembersNext(v, s, log, table, end - 2);
    RemembersNext(v, s, log', table1, end);
    Remembered(v, s, log', table1, end);
    assert [end][..0] == [] && log' + [] == log';
    if table1[Hash(v, s, end)] < end {
      AcceptableIsHit(v, s, log', [end], 0, table1[Hash(v, s, end)]);
    }
  }

  /** The match found at once. */
  lemma AtOnceIsMatch(v: Variant, s: seq<byte>, log: seq<nat>, end: nat, ref: nat)
    requires |s| < Limit(v) && end + MFLIMIT <= |s| && ref < end
    requires ref == Candidate(v, s, log, end) && Acceptable(v, s, ref, end) && Hit(v, s, log, [end], 0)
    ensures Finds(v, s, log, end, Match([end], ref, 0, MatchEnd(s, ref, end)))
  {
    hide Hit, Candidate, Acceptable, CatchUp, MatchEnd;
    ProbedOnce(v, s, log, end);
    CatchUpNothing(s, end, ref);
    assert [end][..0] == [] && log + [] == log;
    FoundIsMatch(v, s, log, end, Found([], end, ref), Match([end], ref, 0, MatchEnd(s, ref, end)));
  }

  /** The matches from one that is to be emitted on. */
  lemma {:induction false} ResumeIsGreedy(v: Variant, s: seq<byte>, log: seq<nat>, table: seq<nat>, anchor: nat,
                                          m: Match, ss: seq<Sequence>) returns (ms: seq<Match>, rest: seq<nat>, b: Block)
    requires |s| < Limit(v) && Finds(v, s, log, anchor, m) && Remembers(v, s, log + m.probes, table)
    requires Ready(v, s, table, anchor, m)
    ensures Greedy(v, s, log, anchor, ms, rest) && Makes(s, anchor, ms, b)
    ensures Resume(v, s, table, anchor, m, ss) == Block(ss + b.sequences, b.last)
    decreases |s| - anchor, 0
  {
    hide Greedy, Makes, Finds, Remembers, Resume, After, MatchEnd, TableOk;
    ResumeStep(v, s, table, anchor, m, ss);
    var ip, end := m.probes[|m.probes| - 1], m.end;
    var q := Sequence(s[anchor..ip - m.back], ip - m.ref, end - (ip - m.back));
    ms, rest, b := [], [], Block([], s[end..]);
    MakesNothing(s, end);
    if end + 12 <= |s| {
      ms, rest, b := AfterIsGreedy(v, s, log + m.probes, table, end, ss + [q]);
    }
    GreedyCons(v, s, log, anchor, m, ms, rest);
    MakesCons(s, anchor, ip, m, ms, b);
    assert ss + ([q] + b.sequences) == ss + [q] + b.sequences;
    ms, b := [m] + ms, Block([q] + b.sequences, b.last);
  }

  /** The matches behind one. */
  lemma {:induction false} AfterIsGreedy(v: Variant, s: seq<byte>, log: seq<nat>, table: seq<nat>, end: nat,
                                         ss: seq<Sequence>) returns (ms: seq<Match>, rest: seq<nat>, b: Block)
    requires |s| < Limit(v) && 2 <= end && end + MFLIMIT <= |s|
    requires TableOk(v, table, end) && Remembers(v, s, log, table)
    ensures Greedy(v, s, log + [end - 2], end, ms, rest) && Makes(s, end, ms, b)
    ensures After(v, s, table, end, ss) == Block(ss + b.sequences, b.last)
    decreases |s| - end, 2
  {
    hide Greedy, Makes, Finds, Remembers, Resume, Loop, Acceptable, Hash, Stored, Candidate, Hit, CommonLength;
    var table1 := table[Hash(v, s, end - 2) := Stored(v, end - 2)];
    var h := Hash(v, s, end);
    var ref, table2 := table1[h], table1[h := Stored(v, end)];
    LookBehind(v, s, log, table, end);
    if Acceptable(v, s, ref, end) {
      AtOnceIsMatch(v, s, log + [end - 2], end, ref);
      ms, rest, b := ResumeIsGreedy(v, s, log + [end - 2], table2, end, Match([end], ref, 0, MatchEnd(s, ref, end)), ss);
    } else {
      ms, rest, b := LoopIsGreedy(v, s, log + [end - 2], table2, end, ss);
    }
  }

  lemma MakesNothing(s: seq<byte>, anchor: nat)
    requires anchor <= |s|
    ensures Makes(s, anchor, [], Block([], s[anchor..]))
  {
  }

  /** The chosen block is made of the matches described, from the beginning of the input on. */
  lemma ChooseIsGreedy(v: Variant, s: seq<byte>) returns (ms: seq<Match>, rest: seq<nat>)
    requires |s| < Limit(v) && |s| > 12
    ensures Greedy(v, s, [], 0, ms, rest) && Makes(s, 0, ms, Choose(v, s))
  {
    hide Greedy, Makes, Candidate, Loop;
    RemembersNothing(v, s);
    assert !Hit(v, s, [], [0], 0);
    assert [] + [0] == [0];
    var b;
    ms, rest, b := LoopIsGreedy(v, s, [], EmptyTable(v), 0, []);
    assert [] + b.sequences == b.sequences;
  }

  // ---------------------------------------------------------------- there is only one such block

  lemma {:induction false} ProbesAgree(v: Variant, s: seq<byte>, log: seq<nat>, anchor: nat, ps: seq<nat>, qs: seq<nat>,
                                       n: nat)
    requires Probed(v, s, log, anchor, ps) && Probed(v, s, log, anchor, qs) && n <= |ps| <= |qs|
    ensures qs[..n] == ps[..n]
    decreases n
  {
    hide Hit;
    if n > 0 {
      ProbesAgree(v, s, log, anchor, ps, qs, n - 1);
      if n > 1 {
        assert ps[n - 2] == ps[..n - 1][n - 2] == qs[..n - 1][n - 2] == qs[n - 2];
        assert ps[n - 1] == ps[n - 2] + (65 + (n - 1)) / 64;
        assert qs[n - 1] == qs[n - 2] + (65 + (n - 1)) / 64;
      }
      assert ps[..n] == ps[..n - 1] + [ps[n - 1]] && qs[..n] == qs[..n - 1] + [qs[n - 1]];
    }
  }

  /** A search stops here, with a match or without one. */
  ghost predicate Stops(v: Variant, s: seq<byte>, log: seq<nat>, ps: seq<nat>, found: bool)
    requires ps != []
  {
    var next := ps[|ps| - 1] + (65 + |ps|) / 64;
    if found then Hit(v, s, log, ps, |ps| - 1) && (|ps| > 1 ==> next + 12 <= |s|)
    else |ps| > 1 && next + 12 > |s|
  }

  lemma ProbesDecide(v: Variant, s: seq<byte>, log: seq<nat>, anchor: nat, ps: seq<nat>, qs: seq<nat>, found1: bool,
                     found2: bool)
    requires Probed(v, s, log, anchor, ps) && Probed(v, s, log, anchor, qs) && |ps| <= |qs|
    requires Stops(v, s, log, ps, found1) && Stops(v, s, log, qs, found2)
    ensures ps == qs && found1 == found2
  {
    hide Hit;
    var n := |ps|;
    ProbesAgree(v, s, log, anchor, ps, qs, n);
    assert ps[..n] == ps;
    assert ps[n - 1] == ps[..n][n - 1] == qs[..n][n - 1] == qs[n - 1];
    if n < |qs| {
      assert qs[n] == qs[n - 1] + (65 + n) / 64 && (n > 1 ==> qs[n] + 12 <= |s|);
      assert qs[..n - 1] == qs[..n][..n - 1] == ps[..n - 1];
      HitSame(v, s, log, ps, qs, n - 1);
    } else {
      assert qs[..n] == qs;
    }
  }

  lemma HitSame(v: Variant, s: seq<byte>, log: seq<nat>, ps: seq<nat>, qs: seq<nat>, i: nat)
    requires i < |ps| && i < |qs| && ps[i] == qs[i] && ps[..i] == qs[..i]
    ensures Hit(v, s, log, ps, i) == Hit(v, s, log, qs, i)
  {
  }

  lemma FindsStops(v: Variant, s: seq<byte>, log: seq<nat>, anchor: nat, m: Match)
    requires Finds(v, s, log, anchor, m)
    ensures Probed(v, s, log, anchor, m.probes) && m.probes != [] && Stops(v, s, log, m.probes, true)
  {
    hide Hit, Candidate, Longest;
  }

  lemma FruitlessStops(v: Variant, s: seq<byte>, log: seq<nat>, anchor: nat, ps: seq<nat>)
    requires Fruitless(v, s, log, anchor, ps)
    ensures Probed(v, s, log, anchor, ps) && ps != [] && Stops(v, s, log, ps, false)
  {
    hide Hit;
  }

  lemma LongestDecides(s: seq<byte>, anchor: nat, ip: nat, ref: nat, back1: nat, end1: nat, back2: nat, end2: nat)
    requires Longest(s, anchor, ip, ref, back1, end1) && Longest(s, anchor, ip, ref, back2, end2)
    ensures back1 == back2 && end1 == end2 && end1 >= 4
  {
    LongestIsAtLeast(s, anchor, ip, ref, back1, end1, back2, end2);
    LongestIsAtLeast(s, anchor, ip, ref, back2, end2, back1, end1);
  }

  lemma LongestIsAtLeast(s: seq<byte>, anchor: nat, ip: nat, ref: nat, back1: nat, end1: nat, back2: nat, end2: nat)
    requires Longest(s, anchor, ip, ref, back1, end1) && Longest(s, anchor, ip, ref, back2, end2)
    ensures back2 <= back1 && end2 <= end1
  {
    assert forall j | ip - back2 <= j < end2 :: s[j] == s[j - (ip - ref)];
  }

  lemma FindsDecides(v: Variant, s: seq<byte>, log: seq<nat>, anchor: nat, m1: Match, m2: Match)
    requires Finds(v, s, log, anchor, m1) && Finds(v, s, log, anchor, m2)
    ensures m1 == m2 && m1.end >= 4
  {
    hide Probed, Hit, Candidate, Longest, Stops;
    FindsStops(v, s, log, anchor, m1);
    FindsStops(v, s, log, anchor, m2);
    if |m1.probes| <= |m2.probes| {
      ProbesDecide(v, s, log, anchor, m1.probes, m2.probes, true, true);
    } else {
      ProbesDecide(v, s, log, anchor, m2.probes, m1.probes, true, true);
    }
    LongestDecides(s, anchor, m1.probes[|m1.probes| - 1], m1.ref, m1.back, m1.end, m2.back, m2.end);
  }

  lemma FruitlessDecides(v: Variant, s: seq<byte>, log: seq<nat>, anchor: nat, ps: seq<nat>, qs: seq<nat>)
    requires Fruitless(v, s, log, anchor, ps) && Fruitless(v, s, log, anchor, qs)
    ensures ps == qs
  {
    hide Fruitless, Probed, Stops;
    FruitlessStops(v, s, log, anchor, ps);
    FruitlessStops(v, s, log, anchor, qs);
    if |ps| <= |qs| {
      ProbesDecide(v, s, log, anchor, ps, qs, false, false);
    } else {
      ProbesDecide(v, s, log, anchor, qs, ps, false, false);
    }
  }

  lemma FindsOrNot(v: Variant, s: seq<byte>, log: seq<nat>, anchor: nat, m: Match, ps: seq<nat>)
    requires Finds(v, s, log, anchor, m)
    ensures !Fruitless(v, s, log, anchor, ps)
  {
    hide Finds, Fruitless, Probed, Stops;
    if Fruitless(v, s, log, anchor, ps) {
      FindsStops(v, s, log, anchor, m);
      FruitlessStops(v, s, log, anchor, ps);
      if |ps| <= |m.probes| {
        ProbesDecide(v, s, log, anchor, ps, m.probes, false, true);
      } else {
        ProbesDecide(v, s, log, anchor, m.probes, ps, true, false);
      }
    }
  }

  lemma {:induction false} GreedyDecides(v: Variant, s: seq<byte>, log: seq<nat>, anchor: nat, ms1: seq<Match>,
                                         rest1: seq<nat>, ms2: seq<Match>, rest2: seq<nat>)
    requires Greedy(v, s, log, anchor, ms1, rest1) && Greedy(v, s, log, anchor, ms2, rest2)
    ensures ms1 == ms2 && rest1 == rest2
    decreases |ms1|
  {
    hide Finds, Fruitless;
    if ms1 == [] && ms2 == [] {
      FruitlessDecides(v, s, log, anchor, rest1, rest2);
    } else if ms1 == [] {
      FindsOrNot(v, s, log, anchor, ms2[0], rest1);
    } else if ms2 == [] {
      FindsOrNot(v, s, log, anchor, ms1[0], rest2);
    } else {
      var m := ms1[0];
      FindsDecides(v, s, log, anchor, m, ms2[0]);
      if m.end + 12 <= |s| {
        GreedyDecides(v, s, log + m.probes + [m.end - 2], m.end, ms1[1..], rest1, ms2[1..], rest2);
      }
      assert ms1 == [m] + ms1[1..] && ms2 == [m] + ms2[1..];
    }
  }

  lemma {:induction false} MakesDecides(s: seq<byte>, anchor: nat, ms: seq<Match>, b1: Block, b2: Block)
    requires Makes(s, anchor, ms, b1) && Makes(s, anchor, ms, b2)
    ensures b1 == b2
    decreases |ms|
  {
    if ms != [] {
      MakesDecides(s, ms[0].end, ms[1..], Block(b1.sequences[1..], b1.last), Block(b2.sequences[1..], b2.last));
      assert b1.sequences == [b1.sequences[0]] + b1.sequences[1..];
      assert b2.sequences == [b2.sequences[0]] + b2.sequences[1..];
    }
  }

  /** The block chosen for an input of thirteen bytes or more is the one made of these matches, and no other. */
  lemma ChooseExactly(v: Variant, s: seq<byte>, b: Block)
    requires |s| < Limit(v) && |s| > 12
    ensures Choose(v, s) == b
       <==> exists ms: seq<Match>, rest: seq<nat> :: Greedy(v, s, [], 0, ms, rest) && Makes(s, 0, ms, b)
  {
    hide Greedy, Makes, Choose;
    var ms1, rest1 := ChooseIsGreedy(v, s);
    forall ms2: seq<Match>, rest2: seq<nat> | Greedy(v, s, [], 0, ms2, rest2) && Makes(s, 0, ms2, b)
      ensures b == Choose(v, s)
    {
      GreedyDecides(v, s, [], 0, ms1, rest1, ms2, rest2);
      MakesDecides(s, 0, ms1, b, Choose(v, s));
    }
  }

  /** Shorter inputs are one run of literals. */
  lemma ChooseShort(v: Variant, s: seq<byte>)
    requires |s| <= 12
    ensures Choose(v, s) == Block([], s)
  {
  }
}
