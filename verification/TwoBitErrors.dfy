/** Two wrong bits, at any distance. The order of x modulo the generators is computed by squaring and multiplying words;
    the checksums miss two wrong bits exactly when their distance is a multiple of it. */
module TwoBitErrors {
  import opened NumberTheory
  import opened CrcDivision
  import opened PowersOfX
  import opened Words
  import opened Crc

  // ---------- Multiplication of words ----------

  /** One more bit of the second factor, which is the lowest bit of `bit`. */
  function NextBit(r: bv32, a: bv32, bit: bv32, top: bv32, polynomial: bv32): bv32 {
    if Has(bit, 1) then Plus(Advance(r, top, polynomial), a) else Advance(r, top, polynomial)
  }

  function NextFour(r: bv32, a: bv32, b: bv32, top: bv32, polynomial: bv32): bv32 {
    var r1 := NextBit(r, a, Down(Down(Down(b))), top, polynomial);
    var r2 := NextBit(r1, a, Down(Down(b)), top, polynomial);
    var r3 := NextBit(r2, a, Down(b), top, polynomial);
    NextBit(r3, a, b, top, polynomial)
  }

  function DownFour(b: bv32): bv32 {
    Down(Down(Down(Down(b))))
  }

  function Product8(a: bv32, b: bv32): bv32 {
    LowByte(NextFour(NextFour(0, a, DownFour(b), 0x80, POLYNOMIAL8), a, b, 0x80, POLYNOMIAL8)) as bv32
  }

  function Product16(a: bv32, b: bv32): bv32 {
    var b3 := DownFour(b);
    var b2 := DownFour(b3);
    var b1 := DownFour(b2);
    var r1 := NextFour(0, a, b1, 0x8000, POLYNOMIAL16);
    var r2 := NextFour(r1, a, b2, 0x8000, POLYNOMIAL16);
    var r3 := NextFour(r2, a, b3, 0x8000, POLYNOMIAL16);
    Low16(NextFour(r3, a, b, 0x8000, POLYNOMIAL16))
  }

  /** The word holds the product of a with the top k bits of b. */
  ghost predicate Holds(r: bv32, a: bv32, b: bv32, k: nat, polynomial: bv32, n: nat)
    requires 0 < n <= 16 && k <= 16
  {
    LowBits(r, n) == Times(LowBits(polynomial, n), LowBits(a, n), LowBits(b, k))
  }

  lemma NextBitHolds(r: bv32, a: bv32, b: bv32, k: nat, polynomial: bv32, n: nat)
    requires 0 < n <= 16 && k < 16 && Holds(r, a, Down(b), k, polynomial, n)
    ensures Holds(NextBit(r, a, b, Mask(n - 1), polynomial), a, b, k + 1, polynomial, n)
  {
    var g, next := LowBits(polynomial, n), Advance(r, Mask(n - 1), polynomial);
    AdvanceIsShift(r, polynomial, n);
    DownBits(b, k);
    ByteMasks();
    var front := LowBits(Down(b), k);
    assert LowBits(b, k + 1)[..k] == front && LowBits(b, k + 1)[k] == Has(b, 1);
    PlusBits(next, a, n);
    assert Xor(LowBits(next, n), Zeros(n)) == LowBits(next, n);
    hide LowBits, Has, Advance, Plus, Mask, Shift;
  }

  lemma NextFourHolds(r: bv32, a: bv32, b: bv32, k: nat, polynomial: bv32, n: nat)
    requires 0 < n <= 16 && k <= 12 && Holds(r, a, DownFour(b), k, polynomial, n)
    ensures Holds(NextFour(r, a, b, Mask(n - 1), polynomial), a, b, k + 4, polynomial, n)
  {
    hide Holds, NextBit, Mask, Down;
    var top := Mask(n - 1);
    var b1, b2, b3 := Down(b), Down(Down(b)), Down(Down(Down(b)));
    var r1 := NextBit(r, a, b3, top, polynomial);
    NextBitHolds(r, a, b3, k, polynomial, n);
    var r2 := NextBit(r1, a, b2, top, polynomial);
    NextBitHolds(r1, a, b2, k + 1, polynomial, n);
    var r3 := NextBit(r2, a, b1, top, polynomial);
    NextBitHolds(r2, a, b1, k + 2, polynomial, n);
    NextBitHolds(r3, a, b, k + 3, polynomial, n);
  }

  lemma NothingHolds(a: bv32, b: bv32, polynomial: bv32, n: nat)
    requires 0 < n <= 16
    ensures Holds(0, a, b, 0, polynomial, n)
  {
    NoBits(n);
    hide Bit;
    assert LowBits(b, 0) == [];
  }

  lemma Product8Holds(a: bv32, b: bv32)
    ensures LowBits(Product8(a, b), 8) == Times(G8(), LowBits(a, 8), LowBits(b, 8))
  {
    hide Holds, NextFour, DownFour, LowBits, LowByte;
    var r := NextFour(0, a, DownFour(b), 0x80, POLYNOMIAL8);
    ByteMasks();
    NothingHolds(a, DownFour(DownFour(b)), POLYNOMIAL8, 8);
    NextFourHolds(0, a, DownFour(b), 0, POLYNOMIAL8, 8);
    NextFourHolds(r, a, b, 4, POLYNOMIAL8, 8);
    var p := NextFour(r, a, b, 0x80, POLYNOMIAL8);
    LowByteBits(p);
    HoldsAll(p, a, b, 8, POLYNOMIAL8, 8);
  }

  lemma HoldsAll(r: bv32, a: bv32, b: bv32, k: nat, polynomial: bv32, n: nat)
    requires 0 < n <= 16 && k <= 16 && Holds(r, a, b, k, polynomial, n)
    ensures LowBits(r, n) == Times(LowBits(polynomial, n), LowBits(a, n), LowBits(b, k))
  {
  }

  lemma Product16Holds(a: bv32, b: bv32)
    ensures LowBits(Product16(a, b), 16) == Times(G16(), LowBits(a, 16), LowBits(b, 16))
  {
    hide Holds, NextFour, DownFour, LowBits, Low16;
    WordMasks();
    var b3 := DownFour(b);
    var b2 := DownFour(b3);
    var b1 := DownFour(b2);
    NothingHolds(a, DownFour(b1), POLYNOMIAL16, 16);
    NextFourHolds(0, a, b1, 0, POLYNOMIAL16, 16);
    var r1 := NextFour(0, a, b1, 0x8000, POLYNOMIAL16);
    NextFourHolds(r1, a, b2, 4, POLYNOMIAL16, 16);
    var r2 := NextFour(r1, a, b2, 0x8000, POLYNOMIAL16);
    NextFourHolds(r2, a, b3, 8, POLYNOMIAL16, 16);
    var r3 := NextFour(r2, a, b3, 0x8000, POLYNOMIAL16);
    NextFourHolds(r3, a, b, 12, POLYNOMIAL16, 16);
    var p := NextFour(r3, a, b, 0x8000, POLYNOMIAL16);
    Low16Bits(p);
    HoldsAll(p, a, b, 16, POLYNOMIAL16, 16);
  }

  // ---------- Powers of x as words ----------

  ghost predicate IsPower8(c: bv32, n: nat) {
    LowBits(c, 8) == Power(G8(), n)
  }

  ghost predicate IsPower16(c: bv32, n: nat) {
    LowBits(c, 16) == Power(G16(), n)
  }

  lemma FirstPowers()
    ensures LowBits(1, 8) == One(8) && LowBits(1, 16) == One(16)
    ensures IsPower8(2, 1) && IsPower16(2, 1)
  {
    OneBits(8);
    OneBits(16);
    FirstPower(POLYNOMIAL8, 8);
    FirstPower(POLYNOMIAL16, 16);
  }

  lemma OneBits(n: nat)
    requires 0 < n <= 16
    ensures LowBits(1, n) == One(n)
  {
    ByteMasks();
    WordMasks();
    hide Mask;
    forall k: nat | k < 16
      ensures Bit(1, k) == (k == 0)
    {
      assert k < 8 || k >= 8;
    }
    hide Bit;
  }

  lemma FirstPower(polynomial: bv32, n: nat)
    requires 1 < n <= 16
    ensures LowBits(2, n) == Power(LowBits(polynomial, n), 1)
  {
    OneBits(n);
    UpBits(1, n);
    var g := LowBits(polynomial, n);
    assert 1 << 1 == 2 as bv32;
    assert !One(n)[0];
    assert Shifts(g, One(n), 1) == Shifts(g, Shift(g, One(n)), 0);
    hide LowBits;
  }

  lemma Multiply8(a: bv32, m: nat, b: bv32, n: nat)
    requires IsPower8(a, m) && IsPower8(b, n)
    ensures IsPower8(Product8(a, b), m + n)
  {
    hide Product8, Power, Times, LowBits;
    Product8Holds(a, b);
    PowersMultiply(G8(), m, n);
  }

  lemma Multiply16(a: bv32, m: nat, b: bv32, n: nat)
    requires IsPower16(a, m) && IsPower16(b, n)
    ensures IsPower16(Product16(a, b), m + n)
  {
    hide Product16, Power, Times, LowBits;
    Product16Holds(a, b);
    PowersMultiply(G16(), m, n);
  }

  lemma Squares8()
    ensures Product8(0x02, 0x02) == 0x04 && Product8(0x04, 0x04) == 0x10 && Product8(0x10, 0x10) == 0x07
    ensures Product8(0x07, 0x07) == 0x15 && Product8(0x15, 0x15) == 0x16 && Product8(0x16, 0x16) == 0x13
    ensures Product8(0x13, 0x13) == 0x02
  {
  }

  lemma LowSquares16()
    ensures Product16(0x0002, 0x0002) == 0x0004 && Product16(0x0004, 0x0004) == 0x0010
    ensures Product16(0x0010, 0x0010) == 0x0100 && Product16(0x0100, 0x0100) == 0x1021
    ensures Product16(0x1021, 0x1021) == 0x3730 && Product16(0x3730, 0x3730) == 0xb861
    ensures Product16(0xb861, 0xb861) == 0xaefc && Product16(0x0100, 0x0002) == 0x0200
  {
  }

  lemma HighSquares16()
    ensures Product16(0xaefc, 0xaefc) == 0x8e29 && Product16(0x8e29, 0x8e29) == 0x13fc
    ensures Product16(0x13fc, 0x13fc) == 0x36c4 && Product16(0x36c4, 0x36c4) == 0xfd50
    ensures Product16(0xfd50, 0xfd50) == 0xaa9e && Product16(0xaa9e, 0xaa9e) == 0x881c
    ensures Product16(0x881c, 0x881c) == 0x4458 && Product16(0x4458, 0x4458) == 0x0002
  {
  }

  lemma Products16()
    ensures Product16(0xaefc, 0xb861) == 0x650b && Product16(0x650b, 0x1021) == 0x45b4
    ensures Product16(0x45b4, 0x0200) == 0x48e3
    ensures Product16(0x36c4, 0x3730) == 0xf147 && Product16(0xf147, 0x0002) == 0xf2af
    ensures Product16(0xaa9e, 0x13fc) == 0x54a0 && Product16(0x54a0, 0xb861) == 0x0106
    ensures Product16(0x0106, 0x0200) == 0x2c42
  {
  }

  lemma Powers8()
    ensures IsPower8(0x02, 128)
  {
    FirstPowers();
    Squares8();
    hide *;
    Multiply8(0x02, 1, 0x02, 1);
    Multiply8(0x04, 2, 0x04, 2);
    Multiply8(0x10, 4, 0x10, 4);
    Multiply8(0x07, 8, 0x07, 8);
    Multiply8(0x15, 16, 0x15, 16);
    Multiply8(0x16, 32, 0x16, 32);
    Multiply8(0x13, 64, 0x13, 64);
  }

  lemma LowPowers16()
    ensures IsPower16(0x0002, 1) && IsPower16(0x0200, 9) && IsPower16(0x1021, 16)
    ensures IsPower16(0x3730, 32) && IsPower16(0xb861, 64) && IsPower16(0xaefc, 128)
  {
    FirstPowers();
    LowSquares16();
    hide *;
    Multiply16(0x0002, 1, 0x0002, 1);
    Multiply16(0x0004, 2, 0x0004, 2);
    Multiply16(0x0010, 4, 0x0010, 4);
    Multiply16(0x0100, 8, 0x0002, 1);
    Multiply16(0x0100, 8, 0x0100, 8);
    Multiply16(0x1021, 16, 0x1021, 16);
    Multiply16(0x3730, 32, 0x3730, 32);
    Multiply16(0xb861, 64, 0xb861, 64);
  }

  lemma HighPowers16()
    ensures IsPower16(0x13fc, 512) && IsPower16(0x36c4, 1024) && IsPower16(0xaa9e, 4096) && IsPower16(0x0002, 32768)
  {
    LowPowers16();
    HighSquares16();
    hide *;
    Multiply16(0xaefc, 128, 0xaefc, 128);
    Multiply16(0x8e29, 256, 0x8e29, 256);
    Multiply16(0x13fc, 512, 0x13fc, 512);
    Multiply16(0x36c4, 1024, 0x36c4, 1024);
    Multiply16(0xfd50, 2048, 0xfd50, 2048);
    Multiply16(0xaa9e, 4096, 0xaa9e, 4096);
    Multiply16(0x881c, 8192, 0x881c, 8192);
    Multiply16(0x4458, 16384, 0x4458, 16384);
  }

  /** The powers that would have to be 1 if the order were a proper divisor of 32767. */
  lemma EarlyPowers16()
    ensures IsPower16(0x48e3, 217) && IsPower16(0xf2af, 1057) && IsPower16(0x2c42, 4681)
  {
    LowPowers16();
    HighPowers16();
    Products16();
    hide *;
    Multiply16(0xaefc, 128, 0xb861, 64);
    Multiply16(0x650b, 192, 0x1021, 16);
    Multiply16(0x45b4, 208, 0x0200, 9);
    Multiply16(0x36c4, 1024, 0x3730, 32);
    Multiply16(0xf147, 1056, 0x0002, 1);
    Multiply16(0xaa9e, 4096, 0x13fc, 512);
    Multiply16(0x54a0, 4608, 0xb861, 64);
    Multiply16(0x0106, 4672, 0x0200, 9);
  }

  // ---------- The orders ----------

  /** A power whose second bit is set is not 1. */
  lemma NotOne(g: Generator, c: bv32, n: nat, w: nat)
    requires 1 < w <= 16 && |g| == w && LowBits(c, w) == Power(g, n) && Has(c, 2)
    ensures !Returns(g, n)
  {
    ByteMasks();
    hide Power, Has, Mask;
    assert LowBits(c, w)[w - 2] == Bit(c, 1);
    assert !One(w)[w - 2];
  }

  lemma ReturnsBefore(g: Generator, n: nat)
    requires HasConstantTerm(g) && Power(g, n + 1) == Power(g, 1)
    ensures Returns(g, n)
  {
    hide Shift, HasConstantTerm, One;
    ShiftsMore(g, One(|g|), n);
    ShiftsMore(g, One(|g|), 0);
    ShiftInjective(g, Power(g, n), One(|g|));
  }

  lemma FourPrimes()
    ensures Prime(7) && Prime(31) && Prime(127) && Prime(151)
  {
    forall d: nat | 2 <= d <= 12
      ensures d < 3 ==> 7 % d != 0
      ensures d < 6 ==> 31 % d != 0
      ensures d < 12 ==> 127 % d != 0
      ensures 151 % d != 0
    {
      assert d in {2, 3, 4, 5, 6, 7, 8, 9, 10, 11, 12};
    }
    hide Prime;
    PrimeByTrial(7, 2);
    PrimeByTrial(31, 5);
    PrimeByTrial(127, 11);
    PrimeByTrial(151, 12);
  }

  lemma Order8(n: nat)
    requires n == 127
    ensures IsOrder(G8(), n)
  {
    FirstPowers();
    Powers8();
    FourPrimes();
    GeneratorTerms();
    assert Has(2, 2);
    hide Power, Prime, HasConstantTerm, LowBits, Has, Returns, IsOrder;
    ReturnsBefore(G8(), n);
    NotOne(G8(), 2, 1, 8);
    PrimeOrder(G8(), n);
  }

  lemma Order16(n: nat)
    requires n == 32767
    ensures IsOrder(G16(), n)
  {
    FirstPowers();
    HighPowers16();
    EarlyPowers16();
    FourPrimes();
    GeneratorTerms();
    assert Has(0x48e3, 2) && Has(0xf2af, 2) && Has(0x2c42, 2);
    hide Power, Prime, HasConstantTerm, LowBits, Has, Returns, IsOrder;
    ReturnsBefore(G16(), n);
    NotOne(G16(), 0x48e3, 217, 16);
    NotOne(G16(), 0xf2af, 1057, 16);
    NotOne(G16(), 0x2c42, 4681, 16);
    ThreePrimesOrder(G16(), 7, 31, 151);
  }

  /** Two wrong bits escape CRC-8 exactly when their distance is a multiple of 127, and CRC-16 exactly when it is one of
      32767. */
  lemma TwoErrorsMissedIff(x: Message, y: Message, i: nat, j: nat)
    requires i < j < |MessageBits(x)|
    requires MessageBits(y) == MessageBits(x)[i := !MessageBits(x)[i]][j := !MessageBits(x)[j]]
    ensures Remainder8(y) == Remainder8(x) <==> (j - i) % 127 == 0
    ensures Remainder16(y) == Remainder16(x) <==> (j - i) % 32767 == 0
  {
    GeneratorTerms();
    Order8(127);
    Order16(32767);
    hide Divide, LowBits, HasConstantTerm, MessageBits, IsOrder;
    TwoErrorsMissed(G8(), 127, Zeros(8), MessageBits(x), i, j);
    TwoErrorsMissed(G16(), 32767, LowBits(0xffff, 16), MessageBits(x), i, j);
  }
}
