/** Words as bit strings: what `^`, `<< 1`, `<< 8` and the cast to a byte do to single bits, and from there to the
    low bits of a word taken together. */
module Words {
  import opened CrcDivision

  /** The word whose only bit is the k-th, counted from the least significant one. */
  function Mask(k: nat): bv32
    requires k < 16
    decreases 16 - k
  {
    if k == 15 then 0x8000 else Mask(k + 1) >> 1
  }

  predicate Has(c: bv32, mask: bv32) {
    c & mask != 0
  }

  predicate Bit(c: bv32, k: nat)
    requires k < 16
  {
    Has(c, Mask(k))
  }

  /** The low n bits of a word, most significant first. */
  function LowBits(c: bv32, n: nat): (bits: Bits)
    requires n <= 16
    ensures |bits| == n
  {
    seq(n, i requires 0 <= i < n => Bit(c, n - 1 - i))
  }

  function LowByte(c: bv32): bv8 {
    (c & 0xff) as bv8
  }

  function ByteBits(b: bv8): (bits: Bits)
    ensures |bits| == 8
  {
    LowBits(b as bv32, 8)
  }

  /** `x ^ y` */
  function Plus(x: bv32, y: bv32): bv32 {
    x ^ y
  }

  /** `c << 8` */
  function ByteUp(c: bv32): bv32 {
    c << 8
  }

  /** `c >> 8` */
  function ByteDown(c: bv32): bv32 {
    c >> 8
  }

  /** `c >> 1` */
  function Down(c: bv32): bv32 {
    c >> 1
  }

  /** `c & 0xffff` */
  function Low16(c: bv32): bv32 {
    c & 0xffff
  }

  function LowWord(c: bv32): bv16 {
    (c & 0xffff) as bv16
  }

  function Widened(w: bv16): bv32 {
    w as bv32
  }

  predicate OneBit(mask: bv32) {
    mask & (mask - 1) == 0
  }

  lemma HalfMask(mask: bv32)
    requires OneBit(mask)
    ensures OneBit(mask >> 1)
  {
  }

  lemma {:induction false} MaskIsOneBit(k: nat)
    requires k < 16
    ensures OneBit(Mask(k))
    decreases 16 - k
  {
    if k < 15 {
      MaskIsOneBit(k + 1);
      HalfMask(Mask(k + 1));
    }
  }

  lemma {:induction false} MaskInByte(k: nat)
    requires k < 8
    ensures Mask(k) <= 0x80 && Mask(k) << 8 == Mask(k + 8)
    decreases 8 - k
  {
    if k < 7 {
      MaskInByte(k + 1);
      var m, n := Mask(k + 1), Mask(k + 9);
      assert Mask(k + 8) == n >> 1;
      assert m <= 0x80 && m << 8 == n ==> m >> 1 <= 0x80 && (m >> 1) << 8 == n >> 1;
    } else {
      assert Mask(7) == 0x80;
    }
  }

  lemma ByteMasks()
    ensures Mask(7) == 0x80 && Mask(6) == 0x40 && Mask(5) == 0x20 && Mask(4) == 0x10
    ensures Mask(3) == 0x08 && Mask(2) == 0x04 && Mask(1) == 0x02 && Mask(0) == 0x01
  {
    assert Mask(7) == 0x80;
    assert Mask(3) == 0x08;
  }

  lemma WordMasks()
    ensures Mask(15) == 0x8000 && Mask(14) == 0x4000 && Mask(13) == 0x2000 && Mask(12) == 0x1000
    ensures Mask(11) == 0x0800 && Mask(10) == 0x0400 && Mask(9) == 0x0200 && Mask(8) == 0x0100
  {
    assert Mask(11) == 0x0800;
  }

  lemma NoBits(n: nat)
    requires n <= 16
    ensures LowBits(0, n) == Zeros(n)
  {
    assert forall k: nat :: k < n ==> !Bit(0, k);
  }

  lemma XorMasked(x: bv32, y: bv32, mask: bv32)
    requires mask & (mask - 1) == 0
    ensures ((x ^ y) & mask != 0) == ((x & mask != 0) != (y & mask != 0))
  {
  }

  lemma PlusHas(x: bv32, y: bv32, mask: bv32)
    requires OneBit(mask)
    ensures Has(Plus(x, y), mask) == (Has(x, mask) != Has(y, mask))
  {
    XorMasked(x, y, mask);
  }

  lemma PlusBits(x: bv32, y: bv32, n: nat)
    requires n <= 16
    ensures LowBits(Plus(x, y), n) == Xor(LowBits(x, n), LowBits(y, n))
  {
    hide Has;
    var z := Plus(x, y);
    forall k: nat | k < n
      ensures Bit(z, k) == (Bit(x, k) != Bit(y, k))
    {
      MaskIsOneBit(k);
      PlusHas(x, y, Mask(k));
    }
    hide Bit;
  }

  lemma UpHas(c: bv32, mask: bv32)
    ensures Has(c << 1, mask) == Has(c, mask >> 1)
  {
  }

  lemma LowestUp(c: bv32)
    ensures !Has(c << 1, 1)
  {
  }

  lemma UpBit(c: bv32, k: nat)
    requires k < 15
    ensures Bit(c << 1, k + 1) == Bit(c, k)
  {
    UpHas(c, Mask(k + 1));
    hide Has;
  }

  lemma NoLowestBit(c: bv32)
    ensures !Bit(c << 1, 0)
  {
    ByteMasks();
    LowestUp(c);
    hide Has, Mask;
  }

  lemma UpBits(c: bv32, n: nat)
    requires 0 < n <= 16
    ensures LowBits(c << 1, n) == LowBits(c, n)[1..] + [false]
  {
    hide Bit;
    var up := c << 1;
    NoLowestBit(c);
    forall k: nat | 0 < k < n
      ensures Bit(up, k) == Bit(c, k - 1)
    {
      UpBit(c, k - 1);
    }
  }

  lemma ByteUpHas(c: bv32, mask: bv32)
    requires mask <= 0x80
    ensures Has(ByteUp(c), mask << 8) == Has(c, mask) && !Has(ByteUp(c), mask)
  {
  }

  lemma ByteUpBits(c: bv32)
    ensures LowBits(ByteUp(c), 16) == LowBits(c, 8) + Zeros(8)
  {
    hide Bit;
    var up := ByteUp(c);
    forall k: nat | k < 16
      ensures Bit(up, k) == (k >= 8 && Bit(c, k - 8))
    {
      ByteUpBit(c, k);
    }
  }

  lemma ByteUpBit(c: bv32, k: nat)
    requires k < 16
    ensures Bit(ByteUp(c), k) == (k >= 8 && Bit(c, k - 8))
  {
    hide Has, Mask, ByteUp;
    var low := if k < 8 then k else k - 8;
    MaskInByte(low);
    ByteUpHas(c, Mask(low));
  }

  lemma DownMasked(c: bv32, mask: bv32)
    requires mask & 1 == 0
    ensures (c >> 1) & (mask >> 1) != 0 <==> c & mask != 0
  {
  }

  predicate IsHalf(half: bv32, mask: bv32) {
    half == mask >> 1 && mask & 1 == 0
  }

  lemma DownHas(c: bv32, mask: bv32, half: bv32)
    requires IsHalf(half, mask)
    ensures Has(Down(c), half) == Has(c, mask)
  {
    DownMasked(c, mask);
  }

  lemma MaskHalf(k: nat)
    requires k < 15
    ensures IsHalf(Mask(k), Mask(k + 1))
  {
    ByteMasks();
    WordMasks();
    hide Mask;
    assert IsHalf(0x1, 0x2) && IsHalf(0x2, 0x4) && IsHalf(0x4, 0x8) && IsHalf(0x8, 0x10);
    assert IsHalf(0x10, 0x20) && IsHalf(0x20, 0x40) && IsHalf(0x40, 0x80) && IsHalf(0x80, 0x100);
    assert IsHalf(0x100, 0x200) && IsHalf(0x200, 0x400) && IsHalf(0x400, 0x800) && IsHalf(0x800, 0x1000);
    assert IsHalf(0x1000, 0x2000) && IsHalf(0x2000, 0x4000) && IsHalf(0x4000, 0x8000);
    hide IsHalf;
    assert k in {0, 1, 2, 3, 4, 5, 6, 7, 8, 9, 10, 11, 12, 13, 14};
  }

  lemma DownBit(c: bv32, k: nat)
    requires k < 15
    ensures Bit(Down(c), k) == Bit(c, k + 1)
  {
    hide Has, Down, Mask, IsHalf;
    MaskHalf(k);
    DownHas(c, Mask(k + 1), Mask(k));
  }

  /** The bits above the lowest one. */
  lemma DownBits(c: bv32, n: nat)
    requires n < 16
    ensures LowBits(c, n + 1) == LowBits(Down(c), n) + [Bit(c, 0)]
  {
    hide Bit, Down;
    var down := Down(c);
    forall k: nat | 0 < k <= n
      ensures Bit(c, k) == Bit(down, k - 1)
    {
      DownBit(c, k - 1);
    }
  }

  lemma LowByteHas(c: bv32, mask: bv32)
    requires mask <= 0xff
    ensures Has(LowByte(c) as bv32, mask) == Has(c, mask)
    ensures Has(LowByte(ByteDown(c)) as bv32, mask) == Has(c, mask << 8)
  {
  }

  lemma LowByteBits(c: bv32)
    ensures ByteBits(LowByte(c)) == LowBits(c, 8)
    ensures LowBits(c, 16) == ByteBits(LowByte(ByteDown(c))) + ByteBits(LowByte(c))
  {
    hide Has, LowByte, ByteDown;
    forall k: nat | k < 8
      ensures Bit(LowByte(c) as bv32, k) == Bit(c, k)
    {
      MaskInByte(k);
      LowByteHas(c, Mask(k));
    }
    forall k: nat | 8 <= k < 16
      ensures Bit(c, k) == Bit(LowByte(ByteDown(c)) as bv32, k - 8)
    {
      MaskInByte(k - 8);
      LowByteHas(c, Mask(k - 8));
    }
    hide Bit;
  }

  lemma {:induction false} MaskInWord(k: nat)
    requires k < 16
    ensures Mask(k) <= 0x8000
    decreases 16 - k
  {
    if k < 15 {
      MaskInWord(k + 1);
      assert Mask(k + 1) >> 1 <= Mask(k + 1);
    }
  }

  lemma Masked16(c: bv32, mask: bv32)
    requires mask <= 0x8000
    ensures (c & 0xffff) & mask == c & mask
  {
  }

  lemma Low16Has(c: bv32, mask: bv32)
    requires mask <= 0x8000
    ensures Has(Low16(c), mask) == Has(c, mask)
  {
    Masked16(c, mask);
  }

  lemma Low16Bits(c: bv32)
    ensures LowBits(Low16(c), 16) == LowBits(c, 16)
  {
    hide Has, Low16;
    var low := Low16(c);
    forall k: nat | k < 16
      ensures Bit(low, k) == Bit(c, k)
    {
      MaskInWord(k);
      Low16Has(c, Mask(k));
    }
    hide Bit;
  }

  lemma WidenedLow(c: bv32)
    ensures Widened(LowWord(c)) == Low16(c)
  {
  }

  /** A word shifted up by a byte, with another one added. */
  lemma ByteUpPlusBits(c: bv32, e: bv32)
    ensures LowBits(Plus(ByteUp(c), e), 16) == Xor(LowBits(c, 16)[8..] + Zeros(8), LowBits(e, 16))
  {
    hide *;
    PlusBits(ByteUp(c), e, 16);
    ByteUpBits(c);
    LowByteBits(c);
  }

  lemma ByteBitsInjective(x: bv8, y: bv8)
    requires ByteBits(x) == ByteBits(y)
    ensures x == y
  {
    hide Has, Mask;
    ByteMasks();
    SameBit(x, y, 7);
    SameBit(x, y, 6);
    SameBit(x, y, 5);
    SameBit(x, y, 4);
    SameBit(x, y, 3);
    SameBit(x, y, 2);
    SameBit(x, y, 1);
    SameBit(x, y, 0);
    SameByte(x, y);
  }

  lemma SameBit(x: bv8, y: bv8, k: nat)
    requires k < 8 && ByteBits(x) == ByteBits(y)
    ensures Bit(x as bv32, k) == Bit(y as bv32, k)
  {
    hide Bit;
    assert ByteBits(x)[7 - k] == ByteBits(y)[7 - k];
  }

  lemma SameByte(x: bv8, y: bv8)
    requires Has(x as bv32, 0x80) == Has(y as bv32, 0x80) && Has(x as bv32, 0x40) == Has(y as bv32, 0x40)
    requires Has(x as bv32, 0x20) == Has(y as bv32, 0x20) && Has(x as bv32, 0x10) == Has(y as bv32, 0x10)
    requires Has(x as bv32, 0x08) == Has(y as bv32, 0x08) && Has(x as bv32, 0x04) == Has(y as bv32, 0x04)
    requires Has(x as bv32, 0x02) == Has(y as bv32, 0x02) && Has(x as bv32, 0x01) == Has(y as bv32, 0x01)
    ensures x == y
  {
  }
}
