/** Bitwise operations of C's unsigned integers, defined on mathematical integers. */
module Bits {

  /** `x & y` */
  function And(x: nat, y: nat): nat
    decreases x
  {
    if x == 0 || y == 0 then 0
    else 2 * And(x / 2, y / 2) + (if x % 2 == 1 && y % 2 == 1 then 1 else 0)
  }

  /** `x ^ y` */
  function Xor(x: nat, y: nat): nat
    decreases x + y
  {
    if x == 0 && y == 0 then 0
    else 2 * Xor(x / 2, y / 2) + (if x % 2 != y % 2 then 1 else 0)
  }

  function Pow2(k: nat): (p: nat)
    ensures p > 0
  {
    if k == 0 then 1 else 2 * Pow2(k - 1)
  }

  /** The number of trailing zero bits, the value of `__builtin_ctzll`. */
  function TrailingZeros(v: nat): nat
    requires v > 0
  {
    if v % 2 == 1 then 0 else 1 + TrailingZeros(v / 2)
  }

  lemma {:induction false} AndSymmetric(x: nat, y: nat)
    ensures And(x, y) == And(y, x)
    decreases x
  {
    if x != 0 && y != 0 {
      AndSymmetric(x / 2, y / 2);
    }
  }

  /** Masking with all ones below bit `k` is the remainder modulo two to the `k`. */
  lemma {:induction false} AndMask(x: nat, k: nat)
    ensures And(x, Pow2(k) - 1) == x % Pow2(k)
  {
    if k > 0 {
      var h := Pow2(k - 1);
      AndMask(x / 2, k - 1);
      HalfMod(x, h);
      assert (2 * h - 1) / 2 == h - 1;
    }
  }

  lemma {:induction false} HalfMod(x: nat, h: nat)
    requires h > 0
    ensures x % (2 * h) == 2 * (x / 2 % h) + x % 2
  {
    var q, r := x / 2 / h, x / 2 % h;
    assert x == (2 * h) * q + (2 * r + x % 2) by {
      assert x / 2 == h * q + r;
    }
    ModUnique(x, 2 * h, q, 2 * r + x % 2);
  }

  lemma {:induction false} ModUnique(x: int, d: int, q: int, r: int)
    requires d > 0 && 0 <= r < d && x == d * q + r
    ensures x / d == q && x % d == r
  {
    var e := x / d - q;
    assert d * (x / d) == d * q + d * e;
    assert d * e == r - x % d;
    assert e >= 1 ==> d * e >= d;
    assert e <= -1 ==> d * e <= -d;
  }

  /** Testing the single bit `k` tells the two halves of a doubled residue class apart. */
  lemma {:induction false} AndSingleBit(x: nat, k: nat)
    ensures And(x, Pow2(k)) == 0 || And(x, Pow2(k)) == Pow2(k)
    ensures x % Pow2(k + 1) == x % Pow2(k) + And(x, Pow2(k))
  {
    if k > 0 {
      AndSingleBit(x / 2, k - 1);
      HalfMod(x, Pow2(k));
      HalfMod(x, Pow2(k - 1));
    } else {
      AndOne(x);
    }
  }

  lemma {:induction false} AndOne(x: nat)
    ensures And(x, 1) == x % 2
  {
    assert x != 0 ==> And(x / 2, 0) == 0;
    assert Pow2(1) == 2;
  }

  lemma {:induction false} XorZero(x: nat, y: nat)
    ensures Xor(x, y) == 0 <==> x == y
    decreases x + y
  {
    if x != 0 || y != 0 {
      XorZero(x / 2, y / 2);
    }
  }

  /** One more equal low bit is one more trailing zero of the exclusive or. */
  lemma {:induction false} XorEqualBit(x: nat, y: nat)
    requires x != y && x % 2 == y % 2
    ensures x / 2 != y / 2 && Xor(x, y) > 0 && Xor(x / 2, y / 2) > 0
    ensures TrailingZeros(Xor(x, y)) == 1 + TrailingZeros(Xor(x / 2, y / 2))
  {
    XorZero(x, y);
    XorZero(x / 2, y / 2);
  }

  predicate LowBitsAgree(x: nat, y: nat, k: nat) {
    k == 0 || (x % 2 == y % 2 && LowBitsAgree(x / 2, y / 2, k - 1))
  }

  lemma {:induction false} LowBitsAgreeMod(x: nat, y: nat, k: nat)
    ensures LowBitsAgree(x, y, k) <==> x % Pow2(k) == y % Pow2(k)
  {
    if k > 0 {
      HalfMod(x, Pow2(k - 1));
      HalfMod(y, Pow2(k - 1));
      LowBitsAgreeMod(x / 2, y / 2, k - 1);
    }
  }

  /** The exclusive or of two words has at least `k` trailing zeros exactly when their low `k` bits agree. */
  lemma XorOddBit(x: nat, y: nat)
    requires x % 2 != y % 2
    ensures Xor(x, y) > 0 && TrailingZeros(Xor(x, y)) == 0
  {
  }

  lemma {:induction false} XorTrailingZeros(x: nat, y: nat, k: nat)
    requires x != y
    ensures Xor(x, y) > 0
    ensures TrailingZeros(Xor(x, y)) >= k <==> LowBitsAgree(x, y, k)
    decreases k
  {
    hide Xor, TrailingZeros;
    if x % 2 == y % 2 {
      XorEqualBit(x, y);
      if k > 0 {
        XorTrailingZeros(x / 2, y / 2, k - 1);
      }
    } else {
      XorOddBit(x, y);
    }
  }

  /** `v & -v` in `k`-bit arithmetic isolates the lowest set bit. */
  lemma {:induction false} IsolateLowest(v: nat, k: nat)
    requires 0 < v < Pow2(k)
    ensures TrailingZeros(v) < k
    ensures And(v, Pow2(k) - v) == Pow2(TrailingZeros(v))
  {
    var h := Pow2(k - 1);
    if v % 2 == 1 {
      AndComplement(v / 2, k - 1);
      assert (2 * h - v) / 2 == h - 1 - v / 2;
      assert (2 * h - v) % 2 == 1;
    } else {
      IsolateLowest(v / 2, k - 1);
      assert (2 * h - v) / 2 == h - v / 2;
    }
  }

  lemma {:induction false} AndComplement(v: nat, k: nat)
    requires v < Pow2(k)
    ensures And(v, Pow2(k) - 1 - v) == 0
  {
    if k > 0 {
      var h := Pow2(k - 1);
      AndComplement(v / 2, k - 1);
      assert (2 * h - 1 - v) / 2 == h - 1 - v / 2;
    }
  }
}
