/** The compressors as they are written: one hash table and one output buffer, both updated in place. */
module Lz4Compressor {
  import opened Options
  import opened Lz4Words
  import opened Lz4Format
  import opened Lz4Compress
  import opened Lz4Copy
  import opened Lz4Size

  // ---------------------------------------------------------------- output

  /** One byte of output; here and below nothing from `room` on is touched. */
  method PutByte(dest: array<byte>, op: nat, b: byte, ghost room: nat)
    requires op < room <= dest.Length
    modifies dest
    ensures dest[..op + 1] == old(dest[..op]) + [b]
    ensures dest[room..] == old(dest[room..])
  {
    dest[op] := b;
  }

  /** `for (; len > 254; len -= 255) *op++ = 255; *op++ = len;` */
  method PutLength(dest: array<byte>, start: nat, n: nat, ghost room: nat) returns (op: nat)
    requires start + 1 + n / 255 <= room <= dest.Length
    modifies dest
    ensures op == start + |LengthBytes(n)| <= room
    ensures dest[room..] == old(dest[room..])
    ensures dest[..op] == old(dest[..start]) + LengthBytes(n)
  {
    var len: nat := n;
    op := start;
    LengthBytesSize(n);
    assert old(dest[..start]) + LengthBytes(n) == dest[..op] + LengthBytes(len);
    while len > 254
      invariant start <= op && len <= n && op + |LengthBytes(len)| == start + |LengthBytes(n)| <= room
      invariant dest[room..] == old(dest[room..])
      invariant old(dest[..start]) + LengthBytes(n) == dest[..op] + LengthBytes(len)
    {
      ghost var before := dest[..op];
      assert before + LengthBytes(len) == (before + [255]) + LengthBytes(len - 255);
      PutByte(dest, op, 255, room);
      op, len := op + 1, len - 255;
    }
    PutByte(dest, op, len, room);
    op := op + 1;
  }

  /** The same bytes for a match length, written two at a time. */
  method PutMatchLength(dest: array<byte>, start: nat, n: nat, ghost room: nat) returns (op: nat)
    requires start + 1 + n / 255 <= room <= dest.Length
    modifies dest
    ensures op == start + |LengthBytes(n)| <= room
    ensures dest[room..] == old(dest[room..])
    ensures dest[..op] == old(dest[..start]) + LengthBytes(n)
  {
    var len: nat := n;
    op := start;
    LengthBytesSize(n);
    assert old(dest[..start]) + LengthBytes(n) == dest[..op] + LengthBytes(len);
    while len > 509
      invariant start <= op && len <= n && op + |LengthBytes(len)| == start + |LengthBytes(n)| <= room
      invariant dest[room..] == old(dest[room..])
      invariant old(dest[..start]) + LengthBytes(n) == dest[..op] + LengthBytes(len)
    {
      ghost var before := dest[..op];
      assert LengthBytes(len) == [255] + LengthBytes(len - 255);
      assert LengthBytes(len - 255) == [255] + LengthBytes(len - 510);
      assert before + LengthBytes(len) == ((before + [255]) + [255]) + LengthBytes(len - 510);
      PutByte(dest, op, 255, room);
      PutByte(dest, op + 1, 255, room);
      op, len := op + 2, len - 510;
    }
    if len > 254 {
      ghost var before := dest[..op];
      assert before + LengthBytes(len) == (before + [255]) + LengthBytes(len - 255);
      PutByte(dest, op, 255, room);
      op, len := op + 1, len - 255;
    }
    PutByte(dest, op, len, room);
    op := op + 1;
  }

  /** The token of a literal run and the run's length bytes. */
  method PutToken(dest: array<byte>, token: nat, length: nat, ghost room: nat) returns (op: nat)
    requires token + 1 + ExtensionSize(length) <= room <= dest.Length
    modifies dest
    ensures op == token + 1 + |Extension(length)| <= room
    ensures dest[room..] == old(dest[room..])
    ensures dest[..op] == old(dest[..token]) + [16 * Nibble(length)] + Extension(length)
  {
    ExtensionBytesSize(length);
    if length >= RUN_MASK {
      PutByte(dest, token, 16 * RUN_MASK, room);
      op := PutLength(dest, token + 1, length - RUN_MASK, room);
    } else {
      PutByte(dest, token, 16 * length, room);
      op := token + 1;
      assert Extension(length) == [];
    }
  }

  /** Token, length bytes and literals, the last copied in steps of eight bytes. */
  method PutLiterals(s: seq<byte>, anchor: nat, length: nat, dest: array<byte>, token: nat,
                     ghost room: nat) returns (op: nat)
    requires anchor + WildSpan(length) <= |s|
    requires token + 1 + ExtensionSize(length) + WildSpan(length) <= room <= dest.Length
    modifies dest
    ensures op == token + |EncodeHead(s[anchor..anchor + length], 0)| <= room
    ensures dest[room..] == old(dest[room..])
    ensures dest[..op] == old(dest[..token]) + EncodeHead(s[anchor..anchor + length], 0)
  {
    hide Extension, ExtensionSize, Nibble;
    ExtensionBytesSize(length);
    op := PutToken(dest, token, length, room);
    ghost var end := op + WildSpan(length);
    ghost var before := dest[..];
    WildCopyIn(s, anchor, dest, op, length);
    assert dest[room..] == dest[end..][room - end..] == before[end..][room - end..] == before[room..];
    op := op + length;
    ghost var lits := s[anchor..anchor + length];
    assert old(dest[..token]) + EncodeHead(lits, 0)
        == old(dest[..token]) + [16 * Nibble(length)] + Extension(length) + lits;
  }

  method PutOffset(dest: array<byte>, op: nat, offset: nat, ghost room: nat)
    requires op + 2 <= room <= dest.Length
    modifies dest
    ensures dest[..op + 2] == old(dest[..op]) + OffsetBytes(offset)
    ensures dest[room..] == old(dest[room..])
  {
    dest[op], dest[op + 1] := offset % 256, offset / 256 % 256;
  }

  /** `*token += ...` and the match length bytes: the token written before gets its low nibble now. */
  method PutMatch(dest: array<byte>, token: nat, start: nat, m: nat, ghost room: nat) returns (op: nat)
    requires token < start && start + ExtensionSize(m) <= room <= dest.Length
    requires dest[token] % 16 == 0
    modifies dest
    ensures op == start + |Extension(m)| <= room
    ensures dest[room..] == old(dest[room..])
    ensures dest[..op] == old(dest[..start])[token := old(dest[token]) + Nibble(m)] + Extension(m)
  {
    ExtensionBytesSize(m);
    dest[token] := dest[token] + Nibble(m);
    assert dest[..start] == old(dest[..start])[token := old(dest[token]) + Nibble(m)];
    op := start;
    if m >= ML_MASK {
      op := PutMatchLength(dest, start, m - ML_MASK, room);
    } else {
      assert Extension(m) == [];
    }
  }

  // ---------------------------------------------------------------- match finder

  method FindMatch(v: Variant, s: seq<byte>, table: array<nat>, start: nat) returns (found: bool, ip: nat, ref: nat)
    requires start + 4 <= |s| && TableOk(v, table[..], start)
    modifies table
    ensures var r := Search(v, s, old(table[..]), start, FIRST_ATTEMPT);
            if found then r == Some(Found(table[..], ip, ref)) else r == None
  {
    hide Hash, Stored, Acceptable;
    var attempts := FIRST_ATTEMPT;
    var forwardIp := start;
    var forwardH := Hash(v, s, start);
    while true
      invariant attempts >= PROBES_PER_STEP && forwardIp + 4 <= |s| && TableOk(v, table[..], forwardIp)
      invariant forwardH == Hash(v, s, forwardIp)
      invariant Search(v, s, old(table[..]), start, FIRST_ATTEMPT) == Search(v, s, table[..], forwardIp, attempts)
      decreases |s| - forwardIp
    {
      var h := forwardH;
      var step := attempts / PROBES_PER_STEP;
      attempts := attempts + 1;
      ip := forwardIp;
      forwardIp := ip + step;
      if forwardIp + MFLIMIT > |s| { return false, 0, 0; }
      forwardH := Hash(v, s, forwardIp);
      ref := table[h];
      ghost var before := table[..];
      table[h] := Stored(v, ip);
      assert table[..] == before[h := Stored(v, ip)];
      if Acceptable(v, s, ref, ip) { return true, ip, ref; }
    }
  }

  method MoveBack(s: seq<byte>, anchor: nat, start: nat, candidate: nat) returns (ip: nat, ref: nat)
    requires anchor <= start <= |s| && candidate < start
    ensures var back := CatchUp(s, anchor, start, candidate);
            ip == start - back && ref == candidate - back
  {
    ip, ref := start, candidate;
    while ip > anchor && ref > 0 && s[ip - 1] == s[ref - 1]
      invariant anchor <= ip <= start && ref < ip && start - ip == candidate - ref
      invariant CatchUp(s, anchor, start, candidate) == start - ip + CatchUp(s, anchor, ip, ref)
    {
      ip, ref := ip - 1, ref - 1;
    }
  }

  // ---------------------------------------------------------------- one match

  /** The output buffer the compressor needs. */
  function Room(isize: nat): nat {
    isize + isize / 255
  }

  /** `LZ4_compressBound` */
  function CompressBound(isize: nat): nat {
    isize + isize / 255 + 16
  }

  /** Both the advertised bound and the buffer of a data block, len + len / 250, give that room. */
  lemma BuffersSuffice(isize: nat)
    ensures Room(isize) <= CompressBound(isize)
    ensures Room(isize) <= isize + isize / 250
  {
  }

  /** Literals before a match, including the bytes written past their end, stay inside the buffer. */
  lemma LiteralsHaveRoom(isize: nat, anchor: nat, length: nat, op: nat)
    requires 255 * op <= 256 * anchor && anchor + length + MFLIMIT <= isize
    ensures op + 1 + ExtensionSize(length) + WildSpan(length) <= Room(isize)
    ensures op + 1 + ExtensionSize(length) + length + 2 <= Room(isize)
  {
  }

  /** The bytes of a sequence, token completed last. */
  lemma SequenceBytes(before: seq<byte>, literals: seq<byte>, offset: nat, m: nat)
    ensures var head := before + EncodeHead(literals, 0) + OffsetBytes(offset);
            && |before| < |head| && head[|before|] == 16 * Nibble(|literals|)
            && head[|before| := head[|before|] + Nibble(m)] + Extension(m)
            == before + EncodeSequence(Sequence(literals, offset, m + MINMATCH))
  {
    hide Extension, Nibble;
    var head := before + EncodeHead(literals, 0) + OffsetBytes(offset);
    assert EncodeHead(literals, 0)[0] == 16 * Nibble(|literals|);
    assert head[|before| := head[|before|] + Nibble(m)]
        == before + EncodeHead(literals, Nibble(m)) + OffsetBytes(offset);
  }

  /** From `_next_match` to the end of the match: offset, match counting, match length. */
  method PutSequence(s: seq<byte>, dest: array<byte>, anchor: nat, ip: nat, ref: nat, token: nat, start: nat,
                     ghost ss: seq<Sequence>)
    returns (end: nat, op: nat)
    requires Room(|s|) <= dest.Length
    requires Covers(s, anchor, ss) && anchor <= ip && ref < ip && ip + MFLIMIT <= |s|
    requires SameBytes(s, ref, ip, MINMATCH) && ip - ref <= MAX_DISTANCE
    requires LongEnough(ss) && token == |EncodeSequences(ss)| && start <= Room(|s|)
    requires dest[..start] == EncodeSequences(ss) + EncodeHead(s[anchor..ip], 0)
    modifies dest
    ensures end == MatchEnd(s, ref, ip)
    ensures var ss' := ss + [Sequence(s[anchor..ip], ip - ref, end - ip)];
            && Covers(s, end, ss') && LongEnough(ss') && op == |EncodeSequences(ss')| <= Room(|s|)
            && dest[..op] == EncodeSequences(ss')
    ensures dest[Room(|s|)..] == old(dest[Room(|s|)..])
  {
    hide Covers, SameBytes, Extension, ExtensionSize, Nibble, OffsetBytes, CommonLength, LongEnough;
    hide EncodeSequences, EncodeSequence, EncodeHead, Room;
    ghost var q := Sequence(s[anchor..ip], ip - ref, MatchEnd(s, ref, ip) - ip);
    ghost var ss' := ss + [q];
    ghost var m := q.matchLength - MINMATCH;
    ghost var before := EncodeSequences(ss);
    EmitCovers(s, anchor, ip, ref, ss);
    CoveredSize(s, anchor, ss);
    CoveredSize(s, MatchEnd(s, ref, ip), ss');
    EncodeAppend(ss, q);
    SequenceBytes(before, s[anchor..ip], ip - ref, m);
    SequenceRoom(s, anchor, ip, start, ss, q);
    PutOffset(dest, start, ip - ref, Room(|s|));
    op := start + 2;
    end := CountMatch(s, ip + MINMATCH, ref + MINMATCH, |s| - LASTLITERALS);
    ghost var head := before + EncodeHead(s[anchor..ip], 0) + OffsetBytes(ip - ref);
    assert dest[..op] == head;
    assert dest[token] == head[token];
    op := PutMatch(dest, token, op, end - (ip + MINMATCH), Room(|s|));
  }

  lemma SequenceRoom(s: seq<byte>, anchor: nat, ip: nat, start: nat, ss: seq<Sequence>, q: Sequence)
    requires anchor <= ip && ip + MFLIMIT <= |s|
    requires q.literals == s[anchor..ip] && q.matchLength >= MINMATCH && ip + q.matchLength + LASTLITERALS <= |s|
    requires LongEnough(ss) && LongEnough(ss + [q])
    requires 255 * |EncodeSequences(ss)| <= 256 * anchor
    requires 255 * |EncodeSequences(ss + [q])| <= 256 * (ip + q.matchLength)
    requires start == |EncodeSequences(ss)| + |EncodeHead(s[anchor..ip], 0)|
    ensures start + 2 + ExtensionSize(q.matchLength - MINMATCH) <= Room(|s|)
  {
    EncodeAppend(ss, q);
    EncodeSequenceSize(q);
    ExtensionBytesSize(ip - anchor);
  }

  // ---------------------------------------------------------------- the compressor

  /** The match just found and, without literals, every match that starts right behind the one before. */
  method PutChain(v: Variant, s: seq<byte>, table: array<nat>, dest: array<byte>, anchor: nat, start: nat,
                  candidate: nat, token: nat, head: nat, ghost ss: seq<Sequence>)
    returns (last: nat, op: nat, finished: bool, ghost ss': seq<Sequence>)
    requires |s| < Limit(v) && Room(|s|) <= dest.Length && table as object != dest
    requires Covers(s, anchor, ss) && anchor <= start && candidate < start && start + MFLIMIT <= |s|
    requires SameBytes(s, candidate, start, MINMATCH) && start - candidate <= MAX_DISTANCE
    requires TableOk(v, table[..], MatchEnd(s, candidate, start))
    requires LongEnough(ss) && token == |EncodeSequences(ss)| && head <= Room(|s|)
    requires dest[..head] == EncodeSequences(ss) + EncodeHead(s[anchor..start], 0)
    modifies table, dest
    ensures var p := Chain(v, s, old(table[..]), anchor, start, candidate, ss);
            p.anchor == last && p.sequences == ss' && p.finished == finished && (!finished ==> p.table == table[..])
    ensures Covers(s, last, ss') && LongEnough(ss') && op == |EncodeSequences(ss')| <= Room(|s|)
    ensures dest[..op] == EncodeSequences(ss')
    ensures dest[Room(|s|)..] == old(dest[Room(|s|)..])
  {
    hide Covers, SameBytes, LongEnough, EncodeSequences, EncodeHead, Room, MatchEnd, Acceptable, Hash, Stored;
    var a: nat, ip: nat, ref: nat, tk: nat, h: nat := anchor, start, candidate, token, head;
    ss' := ss;
    while true
      invariant Covers(s, a, ss') && a <= ip && ref < ip && ip + MFLIMIT <= |s|
      invariant SameBytes(s, ref, ip, MINMATCH) && ip - ref <= MAX_DISTANCE
      invariant TableOk(v, table[..], MatchEnd(s, ref, ip))
      invariant LongEnough(ss') && tk == |EncodeSequences(ss')| && h <= Room(|s|)
      invariant dest[Room(|s|)..] == old(dest[Room(|s|)..])
      invariant dest[..h] == EncodeSequences(ss') + EncodeHead(s[a..ip], 0)
      invariant Chain(v, s, old(table[..]), anchor, start, candidate, ss) == Chain(v, s, table[..], a, ip, ref, ss')
      decreases |s| - ip
    {
      ghost var q := Sequence(s[a..ip], ip - ref, MatchEnd(s, ref, ip) - ip);
      last, op := PutSequence(s, dest, a, ip, ref, tk, h, ss');
      ss' := ss' + [q];
      if last + MFLIMIT > |s| {
        return last, op, true, ss';
      }
      ref := LookUp(v, s, table, last);
      if !Acceptable(v, s, ref, last) {
        return last, op, false, ss';
      }
      AcceptableMatch(v, s, ref, last);
      a, ip, tk := last, last, op;
      h := PutEmptyToken(s, dest, tk, last, ss');
    }
  }

  /** "Fill table" and "Test next position" */
  method LookUp(v: Variant, s: seq<byte>, table: array<nat>, end: nat) returns (ref: nat)
    requires table.Length == TableSize(v) && 2 <= end && end + 4 <= |s|
    modifies table
    ensures var table1 := old(table[..])[Hash(v, s, end - 2) := Stored(v, end - 2)];
            ref == table1[Hash(v, s, end)] && table[..] == table1[Hash(v, s, end) := Stored(v, end)]
  {
    hide Hash, Stored;
    table[Hash(v, s, end - 2)] := Stored(v, end - 2);
    ghost var table1 := table[..];
    assert table1 == old(table[..])[Hash(v, s, end - 2) := Stored(v, end - 2)];
    ref := table[Hash(v, s, end)];
    table[Hash(v, s, end)] := Stored(v, end);
    assert table[..] == table1[Hash(v, s, end) := Stored(v, end)];
  }

  /** `token = op++; *token = 0;` */
  method PutEmptyToken(s: seq<byte>, dest: array<byte>, token: nat, anchor: nat, ghost ss: seq<Sequence>)
    returns (op: nat)
    requires Covers(s, anchor, ss) && LongEnough(ss) && token == |EncodeSequences(ss)| <= Room(|s|)
    requires anchor + MFLIMIT <= |s| && Room(|s|) <= dest.Length && dest[..token] == EncodeSequences(ss)
    modifies dest
    ensures op == token + 1 <= Room(|s|)
    ensures dest[Room(|s|)..] == old(dest[Room(|s|)..])
    ensures dest[..op] == EncodeSequences(ss) + EncodeHead(s[anchor..anchor], 0)
  {
    hide Covers, LongEnough, EncodeSequences;
    CoveredSize(s, anchor, ss);
    LiteralsHaveRoom(|s|, anchor, 0, token);
    assert EncodeHead(s[anchor..anchor], 0) == [0];
    PutByte(dest, token, 0, Room(|s|));
    op := token + 1;
  }

  /** The final literal run, or a return of 0 if the block would gain too little. */
  method PutLast(s: seq<byte>, dest: array<byte>, anchor: nat, start: nat, ghost ss: seq<Sequence>) returns (n: nat)
    requires Room(|s|) <= dest.Length && anchor <= |s| && start <= Room(|s|)
    requires LongEnough(ss) && start == |EncodeSequences(ss)| && dest[..start] == EncodeSequences(ss)
    modifies dest
    ensures n == |Output(Block(ss, s[anchor..]), |s|)| <= Room(|s|)
    ensures dest[Room(|s|)..] == old(dest[Room(|s|)..])
    ensures dest[..n] == Output(Block(ss, s[anchor..]), |s|)
  {
    hide LongEnough, EncodeSequences, Extension, ExtensionSize, Nibble;
    ghost var last := s[anchor..];
    var lastRun := |s| - anchor;
    var estimate := start + lastRun + 1 + (if lastRun >= RUN_MASK then (lastRun - RUN_MASK) / 255 else 0);
    if estimate + LZ4_COMPRESSMIN > |s| { return 0; }
    KeptSize(Block(ss, last), |s|);
    ExtensionBytesSize(lastRun);
    var op := PutToken(dest, start, lastRun, Room(|s|));
    PutRaw(s, anchor, dest, op, Room(|s|));
    n := op + lastRun;
    assert dest[..n] == EncodeSequences(ss) + EncodeHead(last, 0);
  }

  /** `memcpy(op, anchor, iend - anchor)` */
  method PutRaw(s: seq<byte>, anchor: nat, dest: array<byte>, op: nat, ghost room: nat)
    requires anchor <= |s| && op + |s| - anchor <= room <= dest.Length
    modifies dest
    ensures dest[..op + |s| - anchor] == old(dest[..op]) + s[anchor..]
    ensures dest[room..] == old(dest[room..])
  {
    ghost var before := dest[..];
    forall i | 0 <= i < |s| - anchor {
      dest[op + i] := s[anchor + i];
    }
    assert dest[..op] == before[..op];
  }

  /** `LZ4_compressCtx` and `LZ4_compress64kCtx`. */
  method CompressCtx(v: Variant, s: seq<byte>, dest: array<byte>) returns (n: nat)
    requires |s| < Limit(v) && Room(|s|) <= dest.Length
    modifies dest
    ensures LongEnough(Choose(v, s).sequences)
    ensures dest[Room(|s|)..] == old(dest[Room(|s|)..])
    ensures n == |Output(Choose(v, s), |s|)| <= Room(|s|) && dest[..n] == Output(Choose(v, s), |s|)
  {
    hide Covers, LongEnough, EncodeSequences, Room, Output;
    var table := new nat[TableSize(v)](_ => 0);
    assert table[..] == EmptyTable(v);
    var anchor, op := 0, 0;
    ghost var ss: seq<Sequence> := [];
    NothingCovered(s);
    if |s| >= MINLENGTH {
      if v.Wide? {
        table[Hash(v, s, 0)] := Stored(v, 0);
        assert table[..] == EmptyTable(v);
      }
      anchor, op, ss := CompressLoop(v, s, table, dest);
    } else {
      assert s[0..] == s;
    }
    n := PutLast(s, dest, anchor, op, ss);
  }

  lemma NothingCovered(s: seq<byte>)
    ensures Covers(s, 0, []) && LongEnough([]) && EncodeSequences([]) == []
  {
  }

  /** The main loop: find a match, move it back, emit its literals and the chain it starts. */
  method CompressLoop(v: Variant, s: seq<byte>, table: array<nat>, dest: array<byte>)
    returns (anchor: nat, op: nat, ghost ss: seq<Sequence>)
    requires MINLENGTH <= |s| < Limit(v) && Room(|s|) <= dest.Length
    requires table[..] == EmptyTable(v) && table as object != dest
    modifies table, dest
    ensures anchor <= |s| && Choose(v, s) == Block(ss, s[anchor..])
    ensures dest[Room(|s|)..] == old(dest[Room(|s|)..])
    ensures LongEnough(ss) && op == |EncodeSequences(ss)| <= Room(|s|) && dest[..op] == EncodeSequences(ss)
  {
    hide Covers, LongEnough, EncodeSequences, Room, SameBytes, MatchEnd, Chain, Search, CatchUp, EncodeHead;
    hide Loop, Acceptable, Hash, Stored, ExtensionSize, WildSpan, Nibble, Extension;
    anchor, op, ss := 0, 0, [];
    NothingCovered(s);
    while true
      invariant anchor + MFLIMIT <= |s| && TableOk(v, table[..], anchor + 1)
      invariant Covers(s, anchor, ss) && LongEnough(ss)
      invariant dest[Room(|s|)..] == old(dest[Room(|s|)..])
      invariant op == |EncodeSequences(ss)| <= Room(|s|) && dest[..op] == EncodeSequences(ss)
      invariant Choose(v, s) == Loop(v, s, table[..], anchor, ss)
      decreases |s| - anchor
    {
      ghost var table0 := table[..];
      var found, at, candidate := FindMatch(v, s, table, anchor + 1);
      if !found {
        LoopEnds(v, s, table0, anchor, ss);
        return;
      }
      ghost var f := Found(table[..], at, candidate);
      FoundCovers(v, s, anchor, f, ss);
      LoopContinues(v, s, table0, anchor, ss, f);
      FoundIsSame(v, s, anchor, f);
      var ip, ref := MoveBack(s, anchor, at, candidate);
      var token := op;
      CoveredSize(s, anchor, ss);
      LiteralsHaveRoom(|s|, anchor, ip - anchor, token);
      op := PutLiterals(s, anchor, ip - anchor, dest, token, Room(|s|));
      var finished;
      anchor, op, finished, ss := PutChain(v, s, table, dest, anchor, ip, ref, token, op, ss);
      if finished { return; }
    }
  }

  lemma LoopEnds(v: Variant, s: seq<byte>, table: seq<nat>, anchor: nat, ss: seq<Sequence>)
    requires anchor + MFLIMIT <= |s| && TableOk(v, table, anchor + 1)
    requires Search(v, s, table, anchor + 1, FIRST_ATTEMPT) == None
    ensures Loop(v, s, table, anchor, ss) == Block(ss, s[anchor..])
  {
  }

  lemma LoopContinues(v: Variant, s: seq<byte>, table: seq<nat>, anchor: nat, ss: seq<Sequence>, f: Found)
    requires anchor + MFLIMIT <= |s| && TableOk(v, table, anchor + 1)
    requires Search(v, s, table, anchor + 1, FIRST_ATTEMPT) == Some(f)
    requires anchor <= f.ip && f.ref < f.ip && f.ip + MFLIMIT <= |s|
    requires var back := CatchUp(s, anchor, f.ip, f.ref);
             TableOk(v, f.table, MatchEnd(s, f.ref - back, f.ip - back))
    ensures var back := CatchUp(s, anchor, f.ip, f.ref);
            var p := Chain(v, s, f.table, anchor, f.ip - back, f.ref - back, ss);
            Loop(v, s, table, anchor, ss)
            == if p.finished then Block(p.sequences, s[p.anchor..])
               else Loop(v, s, p.table, p.anchor, p.sequences)
  {
    hide Search, Chain, MatchEnd, CatchUp, Acceptable;
    FoundIsBeforeEnd(v, s, anchor, f);
  }

  /** The match the chain starts from, after catching up. */
  lemma FoundIsSame(v: Variant, s: seq<byte>, anchor: nat, f: Found)
    requires |s| < Limit(v) && anchor <= f.ip && f.ref < f.ip && f.ip + MFLIMIT <= |s|
    requires Acceptable(v, s, f.ref, f.ip)
    ensures var back := CatchUp(s, anchor, f.ip, f.ref);
            SameBytes(s, f.ref - back, f.ip - back, MINMATCH) && f.ip - f.ref <= MAX_DISTANCE
  {
    var back := CatchUp(s, anchor, f.ip, f.ref);
    AcceptableMatch(v, s, f.ref, f.ip);
    CatchUpIsRecovered(s, anchor, f.ip, f.ref);
    SameBytesPrefix(s, f.ref - back, f.ip - back, MINMATCH, back);
  }

  lemma ChosenLongEnough(s: seq<byte>)
    requires |s| <= MAX_INPUT
    ensures LongEnough(Choose(VariantFor(|s|), s).sequences)
  {
    hide Choose, Executable, EndsEarly, Meaning;
    var v := VariantFor(|s|);
    ChooseIsLegal(v, s);
    ExecutableLongEnough(0, Choose(v, s).sequences);
  }

  function VariantFor(isize: nat): Variant {
    if isize < LZ4_64KLIMIT then Narrow else Wide
  }

  /** `LZ4_compress` */
  method Compress(s: seq<byte>, dest: array<byte>) returns (n: nat)
    requires |s| <= MAX_INPUT && Room(|s|) <= dest.Length
    modifies dest
    ensures dest[Room(|s|)..] == old(dest[Room(|s|)..])
    ensures var b := Choose(VariantFor(|s|), s);
            LongEnough(b.sequences) && n == |Output(b, |s|)| <= Room(|s|) && dest[..n] == Output(b, |s|)
    ensures var b := Choose(if |s| < 65547 then Narrow else Wide, s);
            && (n > 0 <==> |Encode(b)| + (if |b.last| >= 15 then 99 else 100) <= |s|)
            && (n > 0 ==> dest[..n] == Encode(b))
  {
    hide Choose, Output, Encode, LongEnough, Room;
    ChosenLongEnough(s);
    KeptExactly(Choose(VariantFor(|s|), s), |s|);
    if |s| < LZ4_64KLIMIT {
      n := CompressCtx(Narrow, s, dest);
    } else {
      n := CompressCtx(Wide, s, dest);
    }
  }
}
