/** Word-at-a-time reading and match counting (64-bit little-endian configuration). */
module Lz4Words {
  import opened Bits

  type byte = x: int | 0 <= x < 256

  const STEPSIZE := 8

  /** The little-endian word of `n` bytes at `p`: A16, A32 and A64 for `n` 2, 4 and 8. */
  function Load(s: seq<byte>, p: nat, n: nat): (w: nat)
    requires p + n <= |s|
    ensures w < Pow2(8 * n)
    decreases n
  {
    if n == 0 then 0
    else
      assert Pow2(8 * n) == 256 * Pow2(8 * (n - 1)) by { PowByte(n - 1); }
      s[p] + 256 * Load(s, p + 1, n - 1)
  }

  lemma PowByte(n: nat)
    ensures Pow2(8 * n + 8) == 256 * Pow2(8 * n)
  {
    var k := 8 * n;
    assert Pow2(k + 2) == 4 * Pow2(k);
    assert Pow2(k + 4) == 4 * Pow2(k + 2);
    assert Pow2(k + 6) == 4 * Pow2(k + 4);
    assert Pow2(k + 8) == 4 * Pow2(k + 6);
  }

  predicate SameBytes(s: seq<byte>, a: nat, b: nat, n: nat)
    requires a + n <= |s| && b + n <= |s|
    decreases n
  {
    n == 0 || (s[a] == s[b] && SameBytes(s, a + 1, b + 1, n - 1))
  }

  lemma {:induction false} SameBytesAt(s: seq<byte>, a: nat, b: nat, n: nat, i: nat)
    requires a + n <= |s| && b + n <= |s| && SameBytes(s, a, b, n) && i < n
    ensures s[a + i] == s[b + i]
    decreases n
  {
    if i > 0 {
      SameBytesAt(s, a + 1, b + 1, n - 1, i - 1);
    }
  }

  lemma {:induction false} SameBytesExtend(s: seq<byte>, a: nat, b: nat, n: nat)
    requires a + n < |s| && b + n < |s| && SameBytes(s, a, b, n)
    ensures SameBytes(s, a, b, n + 1) <==> s[a + n] == s[b + n]
    decreases n
  {
    if n > 0 {
      SameBytesExtend(s, a + 1, b + 1, n - 1);
    }
  }

  lemma {:induction false} LoadEqual(s: seq<byte>, a: nat, b: nat, n: nat)
    requires a + n <= |s| && b + n <= |s|
    ensures Load(s, a, n) == Load(s, b, n) <==> SameBytes(s, a, b, n)
    decreases n
  {
    if n > 0 {
      LoadEqual(s, a + 1, b + 1, n - 1);
    }
  }

  lemma ShiftedMod(b: byte, x: nat, h: nat)
    requires h > 0
    ensures (b + 256 * x) % (256 * h) == b + 256 * (x % h)
  {
    var q, r := x / h, x % h;
    assert (256 * h) * q == 256 * (h * q);
    ModUnique(b + 256 * x, 256 * h, q, b + 256 * r);
  }

  lemma {:induction false} LoadLow(s: seq<byte>, p: nat, n: nat, j: nat)
    requires p + n <= |s| && j <= n
    ensures Load(s, p, n) % Pow2(8 * j) == Load(s, p, j)
    decreases n
  {
    if j > 0 {
      hide Pow2;
      LoadLow(s, p + 1, n - 1, j - 1);
      PowByte(j - 1);
      ShiftedMod(s[p], Load(s, p + 1, n - 1), Pow2(8 * (j - 1)));
    }
  }

  /** `LZ4_NbCommonBytes` as compiled with hardware bit counting. */
  function NbCommonBytes(diff: nat): nat
    requires diff > 0
  {
    TrailingZeros(diff) / 8
  }

  /** Of two different words, `NbCommonBytes` of their exclusive or counts the leading equal bytes. */
  lemma NbCommonBytesCounts(s: seq<byte>, a: nat, b: nat)
    requires a + STEPSIZE <= |s| && b + STEPSIZE <= |s|
    requires Load(s, a, STEPSIZE) != Load(s, b, STEPSIZE)
    ensures Xor(Load(s, a, STEPSIZE), Load(s, b, STEPSIZE)) > 0
    ensures var n := NbCommonBytes(Xor(Load(s, a, STEPSIZE), Load(s, b, STEPSIZE)));
            n < STEPSIZE && SameBytes(s, a, b, n) && s[a + n] != s[b + n]
  {
    hide Load, Xor, TrailingZeros;
    var x, y := Load(s, a, STEPSIZE), Load(s, b, STEPSIZE);
    AgreeBytes(s, a, b, STEPSIZE);
    LoadEqual(s, a, b, STEPSIZE);
    var n := NbCommonBytes(Xor(x, y));
    AgreeBytes(s, a, b, n);
    AgreeBytes(s, a, b, n + 1);
    SameBytesExtend(s, a, b, n);
  }

  lemma AgreeBytes(s: seq<byte>, a: nat, b: nat, j: nat)
    requires a + STEPSIZE <= |s| && b + STEPSIZE <= |s| && j <= STEPSIZE
    requires Load(s, a, STEPSIZE) != Load(s, b, STEPSIZE)
    ensures Xor(Load(s, a, STEPSIZE), Load(s, b, STEPSIZE)) > 0
    ensures TrailingZeros(Xor(Load(s, a, STEPSIZE), Load(s, b, STEPSIZE))) >= 8 * j <==> SameBytes(s, a, b, j)
  {
    var x, y := Load(s, a, STEPSIZE), Load(s, b, STEPSIZE);
    XorTrailingZeros(x, y, 8 * j);
    LowBitsAgreeMod(x, y, 8 * j);
    LoadLow(s, a, STEPSIZE, j);
    LoadLow(s, b, STEPSIZE, j);
    LoadEqual(s, a, b, j);
  }

  /** The length of the longest match of the bytes at `a` with those at `b`, stopping at `limit`. */
  function CommonLength(s: seq<byte>, a: nat, b: nat, limit: nat): (n: nat)
    requires a <= b && limit <= |s|
    ensures b <= limit ==> b + n <= limit
    decreases |s| - b
  {
    if b < limit && s[a] == s[b] then 1 + CommonLength(s, a + 1, b + 1, limit) else 0
  }

  /** `CommonLength` is the greatest `n` for which the two stretches agree below the limit. */
  lemma {:induction false} CommonLengthIsLongest(s: seq<byte>, a: nat, b: nat, limit: nat, n: nat)
    requires a <= b && b + n <= limit <= |s|
    ensures SameBytes(s, a, b, n) <==> n <= CommonLength(s, a, b, limit)
    decreases n
  {
    if n > 0 && s[a] == s[b] {
      CommonLengthIsLongest(s, a + 1, b + 1, limit, n - 1);
    }
  }

  lemma {:induction false} CommonLengthSkip(s: seq<byte>, a: nat, b: nat, limit: nat, n: nat)
    requires a <= b && b + n <= limit <= |s| && SameBytes(s, a, b, n)
    ensures CommonLength(s, a, b, limit) == n + CommonLength(s, a + n, b + n, limit)
    decreases n
  {
    if n > 0 {
      CommonLengthSkip(s, a + 1, b + 1, limit, n - 1);
    }
  }

  /** The match counting loop: eight bytes at a time, then a tail of four, two and one. */
  method CountMatch(s: seq<byte>, start: nat, candidate: nat, matchlimit: nat) returns (end: nat)
    requires candidate < start && matchlimit <= |s|
    ensures end == start + CommonLength(s, candidate, start, matchlimit)
  {
    hide Load, Xor, TrailingZeros, SameBytes;
    var ip, ref := start, candidate;
    while ip + (STEPSIZE - 1) < matchlimit
      invariant start <= ip && ip - start == ref - candidate
      invariant start + CommonLength(s, candidate, start, matchlimit) == ip + CommonLength(s, ref, ip, matchlimit)
    {
      var x, y := Load(s, ref, STEPSIZE), Load(s, ip, STEPSIZE);
      LoadEqual(s, ref, ip, STEPSIZE);
      XorZero(x, y);
      var diff := Xor(x, y);
      if diff == 0 {
        CommonLengthSkip(s, ref, ip, matchlimit, STEPSIZE);
        ip, ref := ip + STEPSIZE, ref + STEPSIZE;
        continue;
      }
      NbCommonBytesCounts(s, ref, ip);
      CommonLengthSkip(s, ref, ip, matchlimit, NbCommonBytes(diff));
      return ip + NbCommonBytes(diff);
    }
    end := CountTail(s, ip, ref, matchlimit);
  }

  method CountTail(s: seq<byte>, start: nat, candidate: nat, matchlimit: nat) returns (end: nat)
    requires candidate < start && matchlimit <= |s| && matchlimit <= start + 7
    ensures end == start + CommonLength(s, candidate, start, matchlimit)
  {
    var ip, ref := start, candidate;
    if ip + 3 < matchlimit {
      LoadEqual(s, ref, ip, 4);
      CommonLengthIsLongest(s, ref, ip, matchlimit, 4);
      if Load(s, ref, 4) == Load(s, ip, 4) {
        CommonLengthSkip(s, ref, ip, matchlimit, 4);
        ip, ref := ip + 4, ref + 4;
      }
    }
    if ip + 1 < matchlimit {
      LoadEqual(s, ref, ip, 2);
      CommonLengthIsLongest(s, ref, ip, matchlimit, 2);
      if Load(s, ref, 2) == Load(s, ip, 2) {
        CommonLengthSkip(s, ref, ip, matchlimit, 2);
        ip, ref := ip + 2, ref + 2;
      }
    }
    if ip < matchlimit && s[ref] == s[ip] {
      ip := ip + 1;
    }
    end := ip;
  }
}
