/** The table form of `LZ4_NbCommonBytes`, for compilers without a bit-count intrinsic. */
module Lz4DeBruijn {
  import opened Bits
  import opened Lz4Words

  /** The table `DeBruijnBytePos`, in rows of eight. */
  function BytePos(index: nat): nat
    requires index < 64
  {
    var column := index % 8;
    match index / 8
    case 0 => [0, 0, 0, 0, 0, 1, 1, 2][column]
    case 1 => [0, 3, 1, 3, 1, 4, 2, 7][column]
    case 2 => [0, 2, 3, 6, 1, 5, 3, 5][column]
    case 3 => [1, 3, 4, 4, 2, 5, 6, 7][column]
    case 4 => [7, 0, 1, 2, 3, 3, 4, 6][column]
    case 5 => [2, 6, 5, 5, 3, 4, 5, 6][column]
    case 6 => [7, 1, 2, 4, 6, 4, 4, 5][column]
    case _ => [7, 2, 6, 5, 7, 6, 7, 7][column]
  }

  /** The top six bits of the 64-bit product with the De Bruijn constant. */
  function DeBruijnIndex(isolated: nat): (i: nat)
    ensures i < 64
  {
    isolated * 0x0218A392CDABBD3F % 0x1_0000_0000_0000_0000 / 0x0400_0000_0000_0000
  }

  /** `LZ4_NbCommonBytes` as compiled without hardware bit counting; `val & -val` is 64-bit arithmetic. */
  function NbCommonBytesTable(val: nat): nat
    requires 0 < val < 0x1_0000_0000_0000_0000
  {
    BytePos(DeBruijnIndex(And(val, 0x1_0000_0000_0000_0000 - val)))
  }

  /** The table maps the word `power`, a single set bit, to byte `j`. */
  predicate Finds(power: nat, j: nat) { BytePos(DeBruijnIndex(power)) == j }

  /** The table is right for all eight bits of byte `j`, whose lowest bit has the value `base`. */
  predicate FindsByte(base: nat, j: nat) {
    && Finds(base, j) && Finds(2 * base, j) && Finds(4 * base, j) && Finds(8 * base, j)
    && Finds(16 * base, j) && Finds(32 * base, j) && Finds(64 * base, j) && Finds(128 * base, j)
  }

  /** The quotient of the product by two to the 58 is `64 * wraps + index`. */
  lemma Entry(power: nat, wraps: nat, index: nat, j: nat)
    requires index < 64 && BytePos(index) == j
    requires 0 <= power * 0x0218A392CDABBD3F - (64 * wraps + index) * 0x0400_0000_0000_0000 < 0x0400_0000_0000_0000
    ensures Finds(power, j)
  {
    var low := power * 0x0218A392CDABBD3F - (64 * wraps + index) * 0x0400_0000_0000_0000;
    ModUnique(power * 0x0218A392CDABBD3F, 0x1_0000_0000_0000_0000, wraps, index * 0x0400_0000_0000_0000 + low);
    ModUnique(index * 0x0400_0000_0000_0000 + low, 0x0400_0000_0000_0000, index, low);
    assert DeBruijnIndex(power) == index;
  }

  lemma TableByte0(base: nat)
    requires base == 0x1
    ensures FindsByte(base, 0)
  {
    Entry(base, 0, 0, 0);
    Entry(2 * base, 0, 1, 0);
    Entry(4 * base, 0, 2, 0);
    Entry(8 * base, 0, 4, 0);
    Entry(16 * base, 0, 8, 0);
    Entry(32 * base, 0, 16, 0);
    Entry(64 * base, 0, 33, 0);
    Entry(128 * base, 1, 3, 0);
  }

  lemma TableByte1(base: nat)
    requires base == 0x100
    ensures FindsByte(base, 1)
  {
    Entry(base, 2, 6, 1);
    Entry(2 * base, 4, 12, 1);
    Entry(4 * base, 8, 24, 1);
    Entry(8 * base, 16, 49, 1);
    Entry(16 * base, 33, 34, 1);
    Entry(32 * base, 67, 5, 1);
    Entry(64 * base, 134, 10, 1);
    Entry(128 * base, 268, 20, 1);
  }

  lemma TableByte2(base: nat)
    requires base == 0x10000
    ensures FindsByte(base, 2)
  {
    Entry(base, 536, 40, 2);
    Entry(2 * base, 1073, 17, 2);
    Entry(4 * base, 2146, 35, 2);
    Entry(8 * base, 4293, 7, 2);
    Entry(16 * base, 8586, 14, 2);
    Entry(32 * base, 17172, 28, 2);
    Entry(64 * base, 34344, 57, 2);
    Entry(128 * base, 68689, 50, 2);
  }

  lemma TableByte3(base: nat)
    requires base == 0x1000000
    ensures FindsByte(base, 3)
  {
    Entry(base, 137379, 36, 3);
    Entry(2 * base, 274759, 9, 3);
    Entry(4 * base, 549518, 18, 3);
    Entry(8 * base, 1099036, 37, 3);
    Entry(16 * base, 2198073, 11, 3);
    Entry(32 * base, 4396146, 22, 3);
    Entry(64 * base, 8792292, 44, 3);
    Entry(128 * base, 17584585, 25, 3);
  }

  lemma TableByte4(base: nat)
    requires base == 0x100000000
    ensures FindsByte(base, 4)
  {
    Entry(base, 35169170, 51, 4);
    Entry(2 * base, 70338341, 38, 4);
    Entry(4 * base, 140676683, 13, 4);
    Entry(8 * base, 281353366, 27, 4);
    Entry(16 * base, 562706732, 54, 4);
    Entry(32 * base, 1125413465, 45, 4);
    Entry(64 * base, 2250826931, 26, 4);
    Entry(128 * base, 4501653862, 53, 4);
  }

  lemma TableByte5(base: nat)
    requires base == 0x10000000000
    ensures FindsByte(base, 5)
  {
    Entry(base, 9003307725, 42, 5);
    Entry(2 * base, 18006615451, 21, 5);
    Entry(4 * base, 36013230902, 43, 5);
    Entry(8 * base, 72026461805, 23, 5);
    Entry(16 * base, 144052923610, 46, 5);
    Entry(32 * base, 288105847221, 29, 5);
    Entry(64 * base, 576211694442, 59, 5);
    Entry(128 * base, 1152423388885, 55, 5);
  }

  lemma TableByte6(base: nat)
    requires base == 0x1000000000000
    ensures FindsByte(base, 6)
  {
    Entry(base, 2304846777771, 47, 6);
    Entry(2 * base, 4609693555543, 30, 6);
    Entry(4 * base, 9219387111086, 61, 6);
    Entry(8 * base, 18438774222173, 58, 6);
    Entry(16 * base, 36877548444347, 52, 6);
    Entry(32 * base, 73755096888695, 41, 6);
    Entry(64 * base, 147510193777391, 19, 6);
    Entry(128 * base, 295020387554782, 39, 6);
  }

  lemma TableByte7(base: nat)
    requires base == 0x100000000000000
    ensures FindsByte(base, 7)
  {
    Entry(base, 590040775109565, 15, 7);
    Entry(2 * base, 1180081550219130, 31, 7);
    Entry(4 * base, 2360163100438260, 63, 7);
    Entry(8 * base, 4720326200876521, 62, 7);
    Entry(16 * base, 9440652401753043, 60, 7);
    Entry(32 * base, 18881304803506087, 56, 7);
    Entry(64 * base, 37762609607012175, 48, 7);
    Entry(128 * base, 75525219214024351, 32, 7);
  }

  lemma TableForByte(j: nat)
    requires j < 8
    ensures FindsByte(Pow2(8 * j), j)
  {
    PowersOf256();
    var base := Pow2(8 * j);
    match j
    case 0 => TableByte0(base);
    case 1 => TableByte1(base);
    case 2 => TableByte2(base);
    case 3 => TableByte3(base);
    case 4 => TableByte4(base);
    case 5 => TableByte5(base);
    case 6 => TableByte6(base);
    case _ => TableByte7(base);
  }

  lemma PowersOf256()
    ensures Pow2(0) == 1 && Pow2(8) == 0x100 && Pow2(16) == 0x1_0000 && Pow2(24) == 0x100_0000
    ensures Pow2(32) == 0x1_0000_0000 && Pow2(40) == 0x100_0000_0000 && Pow2(48) == 0x1_0000_0000_0000
    ensures Pow2(56) == 0x100_0000_0000_0000 && Pow2(64) == 0x1_0000_0000_0000_0000
  {
    for j := 0 to 8
      invariant 0 < j ==> Pow2(8) == 0x100
      invariant 1 < j ==> Pow2(16) == 0x1_0000
      invariant 2 < j ==> Pow2(24) == 0x100_0000
      invariant 3 < j ==> Pow2(32) == 0x1_0000_0000
      invariant 4 < j ==> Pow2(40) == 0x100_0000_0000
      invariant 5 < j ==> Pow2(48) == 0x1_0000_0000_0000
      invariant 6 < j ==> Pow2(56) == 0x100_0000_0000_0000
      invariant 7 < j ==> Pow2(64) == 0x1_0000_0000_0000_0000
    {
      PowByte(j);
    }
  }

  lemma TableForBit(b: nat, j: nat, i: nat)
    requires FindsByte(Pow2(b), j) && i < 8
    ensures Finds(Pow2(b + i), j)
  {
    hide Finds;
    PowInByte(b);
    match i
    case 0 => assert Finds(Pow2(b), j);
    case 1 => assert Finds(2 * Pow2(b), j);
    case 2 => assert Finds(4 * Pow2(b), j);
    case 3 => assert Finds(8 * Pow2(b), j);
    case 4 => assert Finds(16 * Pow2(b), j);
    case 5 => assert Finds(32 * Pow2(b), j);
    case 6 => assert Finds(64 * Pow2(b), j);
    case _ => assert Finds(128 * Pow2(b), j);
  }

  lemma PowInByte(b: nat)
    ensures Pow2(b + 1) == 2 * Pow2(b) && Pow2(b + 2) == 4 * Pow2(b) && Pow2(b + 3) == 8 * Pow2(b)
    ensures Pow2(b + 4) == 16 * Pow2(b) && Pow2(b + 5) == 32 * Pow2(b) && Pow2(b + 6) == 64 * Pow2(b)
    ensures Pow2(b + 7) == 128 * Pow2(b)
  {
    assert Pow2(b + 2) == 2 * Pow2(b + 1);
    assert Pow2(b + 4) == 2 * Pow2(b + 3);
    assert Pow2(b + 6) == 2 * Pow2(b + 5);
  }

  lemma TableForAnyBit(k: nat)
    requires k < 64
    ensures Finds(Pow2(k), k / 8)
  {
    hide Finds, FindsByte, Pow2;
    TableForByte(k / 8);
    TableForBit(8 * (k / 8), k / 8, k % 8);
  }

  lemma LowestBit(val: nat)
    requires 0 < val < 0x1_0000_0000_0000_0000
    ensures TrailingZeros(val) < 64
    ensures And(val, 0x1_0000_0000_0000_0000 - val) == Pow2(TrailingZeros(val))
  {
    var width := 64;
    PowersOf256();
    IsolateLowest(val, width);
  }

  /** Both compilations of `LZ4_NbCommonBytes` agree on every nonzero 64-bit word. */
  lemma NbCommonBytesAgree(val: nat)
    requires 0 < val < 0x1_0000_0000_0000_0000
    ensures NbCommonBytesTable(val) == NbCommonBytes(val)
  {
    LowestBit(val);
    TableForAnyBit(TrailingZeros(val));
    assert Finds(And(val, 0x1_0000_0000_0000_0000 - val), TrailingZeros(val) / 8);
  }
}
