/**
 * The two decoders as they are written: eight bytes at a time, past the logical end of each copy,
 * and with two small tables that restart a short-offset match at a distance of at least eight.
 */
module Lz4Decoder {
  import opened Options
  import opened Lz4Words
  import opened Lz4Format
  import opened Lz4Copy
  import D = Lz4Decode

  /** The C return value; reading past the end of the input has no defined one. */
  datatype Reply = Returns(code: int) | ReadsPastInput

  const DEC: seq<nat> := [0, 3, 2, 3, 0, 0, 0, 0]
  const DEC2TABLE: seq<int> := [0, 0, 0, -1, 0, 1, 2, 3]

  // ---------------------------------------------------------------- copying

  /** `A64(d) = A64(s)`, `A32(d) = A32(s)` and `*d = *s` within the output: read `n` bytes, then write them. */
  method CopyWord(dest: array<byte>, s: nat, d: nat, n: nat)
    requires s + n <= dest.Length && d + n <= dest.Length
    modifies dest
    ensures dest[..d] == old(dest[..d]) && dest[d + n..] == old(dest[d + n..])
    ensures dest[d..d + n] == old(dest[s..s + n])
  {
    forall i | 0 <= i < n {
      dest[d + i] := dest[s + i];
    }
  }

  /** `LZ4_WILDCOPY` within the output, from `dist` positions back. */
  method WildCopyBack(dest: array<byte>, dist: nat, start: nat, end: nat) returns (op: nat)
    requires dist <= start < end && end + COPYLENGTH <= dest.Length
    modifies dest
    ensures end <= op < end + COPYLENGTH
    ensures dest[..start] == old(dest[..start]) && dest[op..] == old(dest[op..])
    ensures dist >= STEPSIZE ==> Repeats(dest[..], start, op, dist)
  {
    op := start;
    while op < end
      invariant start <= op < end + COPYLENGTH
      invariant dest[..start] == old(dest[..start]) && dest[op..] == old(dest[op..])
      invariant dist >= STEPSIZE ==> Repeats(dest[..], start, op, dist)
    {
      ghost var before := dest[..];
      CopyWord(dest, op - dist, op, STEPSIZE);
      EchoWord(before, dest[..], start, op, dist);
      assert dest[..start] == before[..start];
      assert dest[op + STEPSIZE..] == before[op + STEPSIZE..] == before[op..][STEPSIZE..];
      assert old(dest[..])[op..][STEPSIZE..] == old(dest[..])[op + STEPSIZE..];
      op := op + STEPSIZE;
    }
  }

  lemma EchoWord(a: seq<byte>, b: seq<byte>, start: nat, op: nat, dist: nat)
    requires dist <= start <= op && op + STEPSIZE <= |a| == |b|
    requires a[..op] == b[..op] && b[op..op + STEPSIZE] == a[op - dist..op - dist + STEPSIZE]
    requires dist >= STEPSIZE ==> Repeats(a, start, op, dist)
    ensures dist >= STEPSIZE ==> Repeats(b, start, op + STEPSIZE, dist)
  {
    if dist >= STEPSIZE {
      forall k | start <= k < op + STEPSIZE
        ensures EchoAt(b, k, dist)
      {
        assert b[k - dist] == b[..op][k - dist] == a[k - dist];
        if k < op {
          assert b[k] == b[..op][k] == a[k] && EchoAt(a, k, dist);
        } else {
          assert b[k] == b[op..op + STEPSIZE][k - op] == a[op - dist..op - dist + STEPSIZE][k - op];
        }
      }
    }
  }

  /** `while (op < cpy) *op++ = *ref++;` */
  method ByteCopyBack(dest: array<byte>, dist: nat, start: nat, end: nat)
    requires dist <= start <= dest.Length && end <= dest.Length
    modifies dest
    ensures dest[..start] == old(dest[..start])
    ensures forall k | end <= k < dest.Length && start <= k :: dest[k] == old(dest[k])
    ensures dist >= 1 && start <= end ==> Repeats(dest[..], start, end, dist)
  {
    var op := start;
    while op < end
      invariant start <= op && (op <= end || op == start)
      invariant dest[..start] == old(dest[..start])
      invariant forall k | op <= k < dest.Length :: dest[k] == old(dest[k])
      invariant dist >= 1 && start <= end ==> Repeats(dest[..], start, op, dist)
    {
      ghost var before := dest[..];
      dest[op] := dest[op - dist];
      assert dist >= 1 ==> EchoAt(dest[..], op, dist);
      assert dist >= 1 ==> forall k | start <= k < op :: EchoAt(dest[..], k, dist) == EchoAt(before, k, dist);
      op := op + 1;
    }
  }

  // ---------------------------------------------------------------- periodicity

  predicate Multiple(dist: nat, offset: nat)
    requires offset >= 1
  {
    dist == offset || (dist > offset && Multiple(dist - offset, offset))
  }

  lemma {:induction false} EchoMultiple(s: seq<byte>, lo: nat, hi: nat, offset: nat, dist: nat, k: nat)
    requires 1 <= offset <= lo && hi <= |s| && Repeats(s, lo, hi, offset)
    requires Multiple(dist, offset) && k < hi && dist <= k && lo <= k - dist + offset
    ensures s[k] == s[k - dist]
    decreases dist
  {
    assert EchoAt(s, k, offset);
    if dist > offset {
      EchoMultiple(s, lo, hi, offset, dist - offset, k - offset);
    }
  }

  /**
   * Copying from a multiple of the offset behind continues the repetition, as long as the source
   * does not reach back before the first byte of the pattern.
   */
  lemma {:induction false} EchoContinues(s: seq<byte>, lo: nat, mid: nat, hi: nat, offset: nat, dist: nat)
    requires 1 <= offset <= lo <= mid <= hi <= |s| && dist <= mid
    requires Repeats(s, lo, mid, offset) && Multiple(dist, offset) && lo <= mid - dist + offset
    requires Repeats(s, mid, hi, dist)
    ensures Repeats(s, lo, hi, offset)
    decreases hi
  {
    if mid < hi {
      EchoContinues(s, lo, mid, hi - 1, offset, dist);
      var k := hi - 1;
      assert EchoAt(s, k, dist);
      if dist > offset {
        EchoMultiple(s, lo, k, offset, dist - offset, k - offset);
      }
    }
  }

  /** After the first eight bytes the source is `Distance(offset)` behind: at least eight. */
  function Distance(offset: nat): nat
  {
    if offset < STEPSIZE then offset + 4 + DEC[offset] + DEC2TABLE[offset] else offset
  }

  lemma DistanceIsMultiple(offset: nat)
    requires offset >= 1
    ensures Distance(offset) >= STEPSIZE && Multiple(Distance(offset), offset)
    ensures Distance(offset) <= offset + STEPSIZE
    ensures offset < STEPSIZE ==> 4 <= offset + DEC[offset] <= offset + 4 && Multiple(offset + DEC[offset], offset)
  {
    if offset < STEPSIZE {
      assert offset == 1 || offset == 2 || offset == 3 || offset == 4 || offset == 5 || offset == 6 || offset == 7;
    }
  }

  /** The first eight bytes of a match, which may be copied before it is known to be that long. */
  method FirstStep(dest: array<byte>, op: nat, offset: nat) returns (dist: nat)
    requires offset <= op && op + STEPSIZE <= dest.Length
    modifies dest
    ensures dist <= op + STEPSIZE
    ensures offset >= 1 ==> dist == Distance(offset)
    ensures dest[..op] == old(dest[..op]) && dest[op + STEPSIZE..] == old(dest[op + STEPSIZE..])
    ensures offset >= 1 ==> Repeats(dest[..], op, op + STEPSIZE, offset)
  {
    if offset < STEPSIZE {
      dist := ShortOffset(dest, op, offset);
    } else {
      ghost var before := dest[..];
      CopyWord(dest, op - offset, op, STEPSIZE);
      EchoWord(before, dest[..], op, op, offset);
      dist := offset;
    }
  }

  method ShortOffset(dest: array<byte>, op: nat, offset: nat) returns (dist: nat)
    requires offset < STEPSIZE && offset <= op && op + STEPSIZE <= dest.Length
    modifies dest
    ensures dist <= op + STEPSIZE
    ensures offset >= 1 ==> dist == Distance(offset)
    ensures dest[..op] == old(dest[..op]) && dest[op + STEPSIZE..] == old(dest[op + STEPSIZE..])
    ensures offset >= 1 ==> Repeats(dest[..], op, op + STEPSIZE, offset)
  {
    var dec2 := DEC2TABLE[offset];
    ByteCopyBack(dest, offset, op, op + 4);
    ghost var half := dest[..];
    var ref := op - offset + 4 - DEC[offset];
    CopyWord(dest, ref, op + 4, 4);
    assert dest[..op] == half[..op];
    assert dest[op + STEPSIZE..] == half[op + STEPSIZE..];
    if offset >= 1 {
      SecondHalf(half, dest[..], op, offset);
    }
    ref := ref - dec2;
    dist := op + STEPSIZE - ref;
  }

  lemma SecondHalf(half: seq<byte>, after: seq<byte>, op: nat, offset: nat)
    requires 1 <= offset < STEPSIZE && offset <= op && op + STEPSIZE <= |half| == |after|
    requires Repeats(half, op, op + 4, offset)
    requires half[..op + 4] == after[..op + 4]
    requires 4 <= offset + DEC[offset] <= op + 4
    requires after[op + 4..op + 8] == half[op - offset + 4 - DEC[offset]..op - offset + 8 - DEC[offset]]
    ensures Repeats(after, op, op + STEPSIZE, offset)
  {
    DistanceIsMultiple(offset);
    var shift := offset + DEC[offset];
    forall k | op <= k < op + 4
      ensures EchoAt(after, k, offset)
    {
      assert after[k] == after[..op + 4][k] == half[k] && EchoAt(half, k, offset);
      assert after[k - offset] == after[..op + 4][k - offset] == half[k - offset];
    }
    forall k | op + 4 <= k < op + 8
      ensures EchoAt(after, k, shift)
    {
      assert after[k] == after[op + 4..op + 8][k - op - 4];
      assert after[k - shift] == after[..op + 4][k - shift] == half[k - shift];
    }
    EchoContinues(after, op, op + 4, op + 8, offset, shift);
  }

  /**
   * The copy of one match. It fails, after its first eight bytes, exactly when the match does not fit;
   * otherwise it leaves what the byte-by-byte copy leaves, and never touches what lies behind `oend`.
   */
  method CopyMatch(dest: array<byte>, op: nat, offset: nat, length: nat, oend: nat) returns (ok: bool)
    requires offset <= op && op + COPYLENGTH <= oend <= dest.Length
    modifies dest
    ensures ok <==> op + length + MINMATCH <= oend
    ensures dest[..op] == old(dest[..op]) && dest[oend..] == old(dest[oend..])
    ensures ok && offset >= 1 ==>
              dest[..op + length + MINMATCH] == CopyBack(old(dest[..op]), offset, length + MINMATCH)
  {
    var dist := FirstStep(dest, op, offset);
    var at := op + STEPSIZE;
    var cpy := at + length - (STEPSIZE - 4);
    ghost var first := dest[..];
    if cpy > oend { return false; }
    CopyRest(dest, dist, at, cpy, oend);
    assert dest[..op] == dest[..at][..op] == first[..at][..op] == first[..op];
    assert dest[oend..] == first[oend..] == first[at..][oend - at..];
    if offset >= 1 {
      DistanceIsMultiple(offset);
      MatchCopied(first, dest[..], op, offset, cpy);
    }
    return true;
  }

  /** From the second step on; the last eight bytes of the output are filled byte by byte. */
  method CopyRest(dest: array<byte>, dist: nat, start: nat, cpy: nat, oend: nat)
    requires dist <= start <= oend <= dest.Length && COPYLENGTH <= oend && cpy <= oend
    modifies dest
    ensures dest[..start] == old(dest[..start]) && dest[oend..] == old(dest[oend..])
    ensures dist >= STEPSIZE && start <= cpy ==> Repeats(dest[..], start, cpy, dist)
  {
    var at := start;
    if cpy + COPYLENGTH > oend {
      if at + COPYLENGTH < oend {
        at := WildCopyBack(dest, dist, at, oend - COPYLENGTH);
      }
      ghost var wide := dest[..];
      assert wide[oend..] == wide[at..][oend - at..];
      ByteCopyBack(dest, dist, at, cpy);
      assert dest[oend..] == wide[oend..];
      assert dest[..start] == dest[..at][..start] == wide[..at][..start];
      if dist >= STEPSIZE && start <= cpy {
        EchoTail(wide, dest[..], start, at, cpy, dist);
      }
    } else if at < cpy {
      at := WildCopyBack(dest, dist, at, cpy);
      assert dest[oend..] == dest[at..][oend - at..];
    }
  }

  lemma EchoTail(a: seq<byte>, b: seq<byte>, lo: nat, mid: nat, hi: nat, dist: nat)
    requires 1 <= dist <= lo <= mid <= |a| == |b| && hi <= |b|
    requires a[..mid] == b[..mid] && Repeats(a, lo, mid, dist)
    requires mid <= hi ==> Repeats(b, mid, hi, dist)
    ensures Repeats(b, lo, hi, dist)
  {
    forall k | lo <= k < hi
      ensures EchoAt(b, k, dist)
    {
      if k < mid {
        assert EchoAt(a, k, dist);
        assert b[k] == b[..mid][k] == a[k] && b[k - dist] == b[..mid][k - dist] == a[k - dist];
      }
    }
  }

  lemma MatchCopied(first: seq<byte>, last: seq<byte>, op: nat, offset: nat, end: nat)
    requires 1 <= offset <= op && op + MINMATCH <= end <= |first| == |last| && op + STEPSIZE <= |first|
    requires Repeats(first, op, op + STEPSIZE, offset)
    requires first[..op + STEPSIZE] == last[..op + STEPSIZE]
    requires Distance(offset) <= op + STEPSIZE && Repeats(last, op + STEPSIZE, end, Distance(offset))
    ensures last[..end] == CopyBack(first[..op], offset, end - op)
  {
    hide Distance, Multiple, CopyBack;
    DistanceIsMultiple(offset);
    forall k | op <= k < op + STEPSIZE
      ensures EchoAt(last, k, offset)
    {
      assert EchoAt(first, k, offset);
      assert last[k] == last[..op + STEPSIZE][k] == first[k];
      assert last[k - offset] == last[..op + STEPSIZE][k - offset] == first[k - offset];
    }
    if op + STEPSIZE <= end {
      EchoContinues(last, op, op + STEPSIZE, end, offset, Distance(offset));
    }
    var r := last[..end];
    forall k | op <= k < end
      ensures EchoAt(r, k, offset)
    {
      assert EchoAt(last, k, offset);
    }
    assert r[..op] == last[..op + STEPSIZE][..op] == first[..op];
    CopyBackUnique(first[..op], offset, r);
  }

  // ---------------------------------------------------------------- lengths

  /** A length whose nibble is saturated goes on in bytes, 255 standing for "255 and more". */
  method ReadLength(src: seq<byte>, pos: nat, nibble: nat) returns (r: Option<D.Length>)
    ensures r == D.ReadLength(src, pos, nibble)
  {
    var length, ip := nibble, pos;
    if length >= RUN_MASK {
      length := RUN_MASK;
      while ip < |src| && src[ip] == 255
        invariant pos <= ip && length >= RUN_MASK
        invariant D.ReadRun(src, pos) == match D.ReadRun(src, ip)
                                         case None => None
                                         case Some(l) => Some(D.Length(l.value + length - RUN_MASK, l.next))
      {
        ip, length := ip + 1, length + 255;
      }
      if ip >= |src| { return None; }
      length, ip := length + src[ip], ip + 1;
    }
    return Some(D.Length(length, ip));
  }

  /** The same for the decoder that knows where its input ends, and stops there. */
  method ReadLengthBounded(src: seq<byte>, pos: nat, nibble: nat) returns (r: D.Length)
    requires pos <= |src|
    ensures r == D.ReadLengthBounded(src, pos, nibble)
  {
    var length, ip := nibble, pos;
    if length >= RUN_MASK {
      length := RUN_MASK;
      var s := 255;
      while ip < |src| && s == 255
        invariant pos <= ip <= |src| && length >= RUN_MASK
        invariant s == 255 ==>
                    var l := D.ReadRunBounded(src, ip);
                    D.ReadRunBounded(src, pos) == D.Length(l.value + length - RUN_MASK, l.next)
        invariant s != 255 ==> D.ReadRunBounded(src, pos) == D.Length(length - RUN_MASK, ip)
      {
        s := src[ip];
        ip, length := ip + 1, length + s;
      }
    }
    return D.Length(length, ip);
  }

  // ---------------------------------------------------------------- the decoders

  /** `op` bytes of output hold the text decoded so far, as far as it is defined. */
  ghost predicate Holds(dest: seq<byte>, text: seq<byte>, defined: bool) {
    |text| <= |dest| && (defined ==> dest[..|text|] == text)
  }

  ghost predicate KeepsBehind(dest: seq<byte>, size: nat, behind: seq<byte>) {
    size <= |dest| && dest[size..] == behind
  }

  lemma StartsHolding(dest: seq<byte>, size: nat)
    requires size <= |dest|
    ensures Holds(dest, [], true) && KeepsBehind(dest, size, dest[size..])
  {
  }

  /** `LZ4_uncompress` has returned what the byte-by-byte reading of the input prescribes. */
  ghost predicate RepliesWith(r: Reply, dest: seq<byte>, o: D.Outcome) {
    match o
    case Finished(consumed, text, defined) => r == Returns(consumed) && Holds(dest, text, defined)
    case Malformed(position) => r == Returns(0 - position)
    case Overread => r == ReadsPastInput
  }

  /** `memcpy(op, ip, length)` of the last literals. */
  method CopyLiterals(src: seq<byte>, ip: nat, dest: array<byte>, op: nat, length: nat, osize: nat,
                      ghost text: seq<byte>, ghost defined: bool, ghost behind: seq<byte>)
    requires ip + length <= |src| && op + length <= osize <= dest.Length
    requires op == |text| && Holds(dest[..], text, defined) && KeepsBehind(dest[..], osize, behind)
    modifies dest
    ensures KeepsBehind(dest[..], osize, behind)
    ensures Holds(dest[..], text + src[ip..ip + length], defined)
  {
    ghost var before := dest[..];
    forall i | 0 <= i < length {
      dest[op + i] := src[ip + i];
    }
    assert dest[..op] == before[..op];
    assert dest[osize..] == before[osize..];
    assert dest[..op + length] == dest[..op] + src[ip..ip + length];
  }

  method WildLiterals(src: seq<byte>, ip: nat, dest: array<byte>, op: nat, length: nat, osize: nat,
                      ghost text: seq<byte>, ghost defined: bool, ghost behind: seq<byte>)
    requires ip + WildSpan(length) <= |src| && op + length + COPYLENGTH <= osize <= dest.Length
    requires op == |text| && Holds(dest[..], text, defined) && KeepsBehind(dest[..], osize, behind)
    modifies dest
    ensures KeepsBehind(dest[..], osize, behind)
    ensures Holds(dest[..], text + src[ip..ip + length], defined)
  {
    ghost var before := dest[..];
    WildCopyIn(src, ip, dest, op, length);
    ghost var end := op + WildSpan(length);
    assert dest[osize..] == dest[end..][osize - end..] == before[end..][osize - end..] == before[osize..];
  }

  method DecodedMatch(dest: array<byte>, op: nat, offset: nat, length: nat, osize: nat,
                      ghost text: seq<byte>, ghost defined: bool, ghost behind: seq<byte>) returns (ok: bool)
    requires offset <= op && op + COPYLENGTH <= osize <= dest.Length
    requires op == |text| && Holds(dest[..], text, defined) && KeepsBehind(dest[..], osize, behind)
    modifies dest
    ensures ok <==> op + length + MINMATCH <= osize
    ensures KeepsBehind(dest[..], osize, behind)
    ensures ok ==> Holds(dest[..], D.CopyMatch(text, offset, length + MINMATCH), defined && offset > 0)
  {
    ok := CopyMatch(dest, op, offset, length, osize);
  }

  /** The first half of a round of `LZ4_uncompress`: token, run length and literals, or a reply. */
  method TakeLiterals(src: seq<byte>, dest: array<byte>, osize: nat, start: nat, at: nat,
                      ghost text: seq<byte>, ghost defined: bool, ghost behind: seq<byte>)
    returns (over: bool, r: Reply, ip: nat, op: nat, nibble: nat, ghost text': seq<byte>)
    requires at == |text| <= osize <= dest.Length && Holds(dest[..], text, defined)
    requires KeepsBehind(dest[..], osize, behind)
    modifies dest
    ensures KeepsBehind(dest[..], osize, behind)
    ensures var o := D.Uncompress(src, osize, start, text, defined);
            if over then RepliesWith(r, dest[..], o)
            else && at <= op == |text'| && op + COPYLENGTH <= osize && ip <= |src| && Holds(dest[..], text', defined)
                 && o == D.UncompressMatch(src, osize, ip, nibble, text', defined)
  {
    hide D.ReadRun, D.ReadLength, D.CopyMatch, D.UncompressMatch, WildSpan, CopyBack, Holds, KeepsBehind;
    over, r, ip, op, nibble, text' := true, ReadsPastInput, start, at, 0, text;
    if ip >= |src| { return; }
    var token: nat := src[ip];
    var run := ReadLength(src, ip + 1, token / 16);
    if run.None? { return; }
    var length := run.value.value;
    ip := run.value.next;
    if op + length + COPYLENGTH > osize {
      if op + length > osize {
        r := Returns(0 - ip);
        return;
      }
      if ip + length > |src| { return; }
      CopyLiterals(src, ip, dest, op, length, osize, text, defined, behind);
      r := Returns(ip + length);
      return;
    }
    if ip + WildSpan(length) > |src| { return; }
    WildLiterals(src, ip, dest, op, length, osize, text, defined, behind);
    text' := text + src[ip..ip + length];
    over, ip, op, nibble := false, ip + length, op + length, token % 16;
  }

  /** The second half: offset, match length and match, or a reply. */
  method TakeMatch(src: seq<byte>, dest: array<byte>, osize: nat, start: nat, at: nat, nibble: nat,
                   ghost text: seq<byte>, ghost defined: bool, ghost behind: seq<byte>)
    returns (over: bool, r: Reply, ip: nat, op: nat, ghost text': seq<byte>, ghost defined': bool)
    requires at == |text| && at + COPYLENGTH <= osize <= dest.Length && start <= |src| && Holds(dest[..], text, defined)
    requires KeepsBehind(dest[..], osize, behind)
    modifies dest
    ensures KeepsBehind(dest[..], osize, behind)
    ensures var o := D.UncompressMatch(src, osize, start, nibble, text, defined);
            if over then RepliesWith(r, dest[..], o)
            else && at < op == |text'| <= osize && Holds(dest[..], text', defined')
                 && o == D.Uncompress(src, osize, ip, text', defined')
  {
    hide D.ReadRun, D.ReadLength, D.CopyMatch, D.Uncompress, D.OffsetAt, CopyBack, Holds, KeepsBehind;
    over, r, ip, op, text', defined' := true, ReadsPastInput, start, at, text, defined;
    if ip + 2 > |src| { return; }
    var offset := D.OffsetAt(src, ip);
    ip := ip + 2;
    if offset > op {
      r := Returns(0 - ip);
      return;
    }
    var len := ReadLength(src, ip, nibble);
    if len.None? { return; }
    var length := len.value.value;
    ip := len.value.next;
    var ok := DecodedMatch(dest, op, offset, length, osize, text, defined, behind);
    if !ok {
      r := Returns(0 - ip);
      return;
    }
    text', defined' := D.CopyMatch(text, offset, length + MINMATCH), defined && offset > 0;
    op := op + length + MINMATCH;
    if op == osize {
      r := Returns(ip);
    } else {
      over := false;
    }
  }

  /** `LZ4_uncompress`: for every input it agrees with `Lz4Decode.Uncompress` and stays inside the output. */
  method Uncompress(src: seq<byte>, dest: array<byte>, osize: nat) returns (r: Reply)
    requires osize <= dest.Length
    modifies dest
    ensures KeepsBehind(dest[..], osize, old(dest[osize..]))
    ensures RepliesWith(r, dest[..], D.Uncompress(src, osize, 0, [], true))
  {
    hide *;
    var ip: nat, op: nat := 0, 0;
    ghost var text: seq<byte>, defined := [], true;
    ghost var behind := dest[osize..];
    StartsHolding(dest[..], osize);
    while true
      invariant op == |text| <= osize && Holds(dest[..], text, defined)
      invariant KeepsBehind(dest[..], osize, behind)
      invariant D.Uncompress(src, osize, 0, [], true) == D.Uncompress(src, osize, ip, text, defined)
      decreases osize - op
    {
      var over, nibble;
      over, r, ip, op, nibble, text := TakeLiterals(src, dest, osize, ip, op, text, defined, behind);
      if over { return; }
      over, r, ip, op, text, defined := TakeMatch(src, dest, osize, ip, op, nibble, text, defined, behind);
      if over { return; }
    }
  }

  /** The other decoder returns the length of the text, and has no undefined outcome. */
  ghost predicate CodeFor(code: int, dest: seq<byte>, o: D.Outcome) {
    match o
    case Finished(consumed, text, defined) => code == |text| && Holds(dest, text, defined)
    case Malformed(position) => code == 0 - position
    case Overread => false
  }

  /** The first half of a round of `LZ4_uncompress_unknownOutputSize`. */
  method TakeLiteralsBounded(src: seq<byte>, dest: array<byte>, max: nat, start: nat, at: nat,
                             ghost text: seq<byte>, ghost defined: bool, ghost behind: seq<byte>)
    returns (over: bool, code: int, ip: nat, op: nat, nibble: nat, ghost text': seq<byte>)
    requires start < |src| && at == |text| <= max <= dest.Length && Holds(dest[..], text, defined)
    requires KeepsBehind(dest[..], max, behind)
    modifies dest
    ensures KeepsBehind(dest[..], max, behind)
    ensures var o := D.UncompressUnknown(src, max, start, text, defined);
            if over then CodeFor(code, dest[..], o)
            else && at <= op == |text'| && op + COPYLENGTH <= max && ip + COPYLENGTH <= |src|
                 && Holds(dest[..], text', defined)
                 && o == D.UncompressUnknownMatch(src, max, ip, nibble, text', defined)
  {
    hide D.ReadRunBounded, D.ReadLengthBounded, D.CopyMatch, D.UncompressUnknownMatch, WildSpan, CopyBack;
    hide Holds, KeepsBehind;
    var token: nat := src[start];
    var run := ReadLengthBounded(src, start + 1, token / 16);
    var length := run.value;
    over, ip, op, nibble, text' := true, run.next, at, token % 16, text;
    if op + length + COPYLENGTH > max || ip + length + COPYLENGTH > |src| {
      code := 0 - ip;
      if op + length > max { return; }
      if ip + length > |src| { return; }
      CopyLiterals(src, ip, dest, op, length, max, text, defined, behind);
      ip, op := ip + length, op + length;
      code := if ip < |src| then 0 - ip else op;
      return;
    }
    WildSpanBound(length);
    WildLiterals(src, ip, dest, op, length, max, text, defined, behind);
    text' := text + src[ip..ip + length];
    over, code, ip, op := false, 0, ip + length, op + length;
  }

  lemma WildSpanBound(n: nat)
    ensures WildSpan(n) <= n + COPYLENGTH
  {
  }

  method TakeMatchBounded(src: seq<byte>, dest: array<byte>, max: nat, start: nat, at: nat, nibble: nat,
                          ghost text: seq<byte>, ghost defined: bool, ghost behind: seq<byte>)
    returns (over: bool, code: int, ip: nat, op: nat, ghost text': seq<byte>, ghost defined': bool)
    requires at == |text| && at + COPYLENGTH <= max <= dest.Length && start + COPYLENGTH <= |src|
    requires Holds(dest[..], text, defined) && KeepsBehind(dest[..], max, behind)
    modifies dest
    ensures KeepsBehind(dest[..], max, behind)
    ensures var o := D.UncompressUnknownMatch(src, max, start, nibble, text, defined);
            if over then CodeFor(code, dest[..], o)
            else && at < op == |text'| <= max && ip <= |src| && Holds(dest[..], text', defined')
                 && o == D.UncompressUnknown(src, max, ip, text', defined')
  {
    hide D.ReadRunBounded, D.ReadLengthBounded, D.CopyMatch, D.UncompressUnknown, D.OffsetAt, CopyBack;
    hide Holds, KeepsBehind;
    over, ip, op, text', defined' := true, start, at, text, defined;
    var offset := D.OffsetAt(src, ip);
    ip := ip + 2;
    code := 0 - ip;
    if offset > op { return; }
    var len := ReadLengthBounded(src, ip, nibble);
    var length := len.value;
    ip := len.next;
    code := 0 - ip;
    var ok := DecodedMatch(dest, op, offset, length, max, text, defined, behind);
    if !ok { return; }
    text', defined' := D.CopyMatch(text, offset, length + MINMATCH), defined && offset > 0;
    op := op + length + MINMATCH;
    code := op;
    over := op == max;
  }

  /** `LZ4_uncompress_unknownOutputSize`; it never reads past its input, so it always returns. */
  method UncompressUnknownOutputSize(src: seq<byte>, dest: array<byte>, max: nat) returns (code: int)
    requires max <= dest.Length
    modifies dest
    ensures KeepsBehind(dest[..], max, old(dest[max..]))
    ensures CodeFor(code, dest[..], D.UncompressUnknown(src, max, 0, [], true))
  {
    hide *;
    var ip: nat, op: nat := 0, 0;
    ghost var text: seq<byte>, defined := [], true;
    ghost var behind := dest[max..];
    StartsHolding(dest[..], max);
    while ip < |src|
      invariant ip <= |src| && op == |text| <= max && Holds(dest[..], text, defined)
      invariant KeepsBehind(dest[..], max, behind)
      invariant D.UncompressUnknown(src, max, 0, [], true) == D.UncompressUnknown(src, max, ip, text, defined)
      decreases max - op
    {
      var over, nibble;
      over, code, ip, op, nibble, text := TakeLiteralsBounded(src, dest, max, ip, op, text, defined, behind);
      if over { return; }
      over, code, ip, op, text, defined := TakeMatchBounded(src, dest, max, ip, op, nibble, text, defined, behind);
      if over { return; }
    }
    EndsHolding(src, dest[..], max, text, defined);
    return op;
  }

  lemma EndsHolding(src: seq<byte>, dest: seq<byte>, max: nat, text: seq<byte>, defined: bool)
    requires |text| <= max && Holds(dest, text, defined)
    ensures CodeFor(|text|, dest, D.UncompressUnknown(src, max, |src|, text, defined))
  {
  }
}
