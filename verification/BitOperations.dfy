/** `^` and `|` on bytes held as integers, bit by bit. */
module BitOperations {
  import opened ByteStrings
  import opened NumberTheory

  /** The lowest bit of `a ^ b`. */
  function XorBit(a: nat, b: nat): (bit: nat)
    ensures bit < 2
  {
    if a % 2 == b % 2 then 0 else 1
  }

  function XorBits(a: nat, b: nat, n: nat): (r: nat)
    ensures r < TwoTo(n)
    decreases n
  {
    if n == 0 then 0 else XorBit(a, b) + 2 * XorBits(a / 2, b / 2, n - 1)
  }

  function OrBits(a: nat, b: nat, n: nat): (r: nat)
    ensures r < TwoTo(n)
    decreases n
  {
    if n == 0 then 0 else (if a % 2 + b % 2 > 0 then 1 else 0) + 2 * OrBits(a / 2, b / 2, n - 1)
  }

  lemma {:induction false} XorCancelsBits(x: nat, y: nat, z: nat, n: nat)
    requires x < TwoTo(n) && y < TwoTo(n)
    ensures XorBits(x, z, n) == XorBits(y, z, n) <==> x == y
    ensures XorBits(z, x, n) == XorBits(z, y, n) <==> x == y
    decreases n
  {
    if n > 0 {
      XorCancelsBits(x / 2, y / 2, z / 2, n - 1);
      LowestBitCancels(x, y, z);
      hide XorBit;
      assert x == y <==> x / 2 == y / 2 && x % 2 == y % 2;
    }
  }

  lemma LowestBitCancels(x: nat, y: nat, z: nat)
    ensures XorBit(x, z) == XorBit(y, z) <==> x % 2 == y % 2
    ensures XorBit(z, x) == XorBit(z, y) <==> x % 2 == y % 2
  {
  }

  lemma {:induction false} XorZeroBits(x: nat, y: nat, n: nat)
    requires x < TwoTo(n) && y < TwoTo(n)
    ensures XorBits(x, y, n) == 0 <==> x == y
    decreases n
  {
    if n > 0 {
      XorZeroBits(x / 2, y / 2, n - 1);
    }
  }

  lemma {:induction false} OrZeroBits(x: nat, y: nat, n: nat)
    requires x < TwoTo(n) && y < TwoTo(n)
    ensures OrBits(x, y, n) == 0 <==> x == 0 && y == 0
    decreases n
  {
    if n > 0 {
      OrZeroBits(x / 2, y / 2, n - 1);
    }
  }

  lemma EightBits()
    ensures TwoTo(8) == 256
  {
  }

  function Xor(x: Byte, y: Byte): Byte {
    EightBits();
    XorBits(x, y, 8)
  }

  function Or(x: Byte, y: Byte): Byte {
    EightBits();
    OrBits(x, y, 8)
  }

  lemma XorCancels(x: Byte, y: Byte, z: Byte)
    ensures Xor(x, z) == Xor(y, z) <==> x == y
    ensures Xor(z, x) == Xor(z, y) <==> x == y
  {
    hide XorBits;
    EightBits();
    XorCancelsBits(x, y, z, 8);
  }

  lemma {:induction false} XorBitsAssociative(x: nat, y: nat, z: nat, n: nat)
    ensures XorBits(XorBits(x, y, n), z, n) == XorBits(x, XorBits(y, z, n), n)
    decreases n
  {
    if n > 0 {
      XorBitsAssociative(x / 2, y / 2, z / 2, n - 1);
      HalfOfXor(x, y, n);
      HalfOfXor(y, z, n);
      HalfOfXor(XorBits(x, y, n), z, n);
      HalfOfXor(x, XorBits(y, z, n), n);
      hide XorBits, XorBit;
      LowestAssociative(x, y, z, XorBits(x, y, n), XorBits(y, z, n));
    }
  }

  lemma LowestAssociative(x: nat, y: nat, z: nat, xy: nat, yz: nat)
    requires xy % 2 == XorBit(x, y) && yz % 2 == XorBit(y, z)
    ensures XorBit(xy, z) == XorBit(x, yz)
  {
  }

  lemma HalfOfXor(x: nat, y: nat, n: nat)
    requires n > 0
    ensures XorBits(x, y, n) == XorBit(x, y) + 2 * XorBits(x / 2, y / 2, n - 1)
    ensures XorBits(x, y, n) / 2 == XorBits(x / 2, y / 2, n - 1) && XorBits(x, y, n) % 2 == XorBit(x, y)
  {
  }

  lemma {:induction false} XorBitsCommutes(x: nat, y: nat, n: nat)
    ensures XorBits(x, y, n) == XorBits(y, x, n)
    ensures x < TwoTo(n) ==> XorBits(x, 0, n) == x
    decreases n
  {
    if n > 0 {
      XorBitsCommutes(x / 2, y / 2, n - 1);
    }
  }

  /** Exclusive-or is addition without carries. */
  lemma XorLaws(x: Byte, y: Byte, z: Byte)
    ensures Xor(Xor(x, y), z) == Xor(x, Xor(y, z)) && Xor(x, y) == Xor(y, x)
    ensures Xor(x, 0) == x && (Xor(x, y) == 0 <==> x == y)
  {
    hide XorBits;
    EightBits();
    XorBitsAssociative(x, y, z, 8);
    XorBitsCommutes(x, y, 8);
    XorZeroBits(x, y, 8);
  }

  /** Bit k of the result is 1 exactly where the operands differ there, or one of them has a 1. */
  lemma {:induction false} BitByBit(x: nat, y: nat, n: nat, k: nat)
    requires k < n
    ensures BitAt(XorBits(x, y, n), k) <==> BitAt(x, k) != BitAt(y, k)
    ensures BitAt(OrBits(x, y, n), k) <==> BitAt(x, k) || BitAt(y, k)
    decreases n
  {
    HalfOfXor(x, y, n);
    if k > 0 {
      BitByBit(x / 2, y / 2, n - 1, k - 1);
    }
  }

  predicate BitAt(x: nat, k: nat) {
    if k == 0 then x % 2 == 1 else BitAt(x / 2, k - 1)
  }

  lemma {:induction false} BitAtIs(x: nat, k: nat)
    ensures BitAt(x, k) <==> x / TwoTo(k) % 2 == 1
    decreases k
  {
    if k > 0 {
      BitAtIs(x / 2, k - 1);
      HalfQuotient(x, TwoTo(k - 1));
    }
  }

  lemma HalfQuotient(x: nat, t: nat)
    requires t > 0
    ensures x / (2 * t) == x / 2 / t
  {
    var q, r := x / 2 / t, x / 2 % t;
    assert x / 2 == t * q + r;
    assert x == q * (2 * t) + (r * 2 + x % 2);
    DivModUnique(x, q, r * 2 + x % 2, 2 * t);
  }

  lemma XorAndOrBits(x: Byte, y: Byte, k: nat)
    requires k < 8
    ensures Xor(x, y) / TwoTo(k) % 2 == 1 <==> x / TwoTo(k) % 2 != y / TwoTo(k) % 2
    ensures Or(x, y) / TwoTo(k) % 2 == 1 <==> x / TwoTo(k) % 2 == 1 || y / TwoTo(k) % 2 == 1
  {
    hide XorBits, OrBits, TwoTo, BitAt;
    BitAtIs(x, k);
    BitAtIs(y, k);
    BitAtIs(Xor(x, y), k);
    BitAtIs(Or(x, y), k);
    BitByBit(x, y, 8, k);
  }

  /** Collecting differences stays zero exactly while the bytes agree. */
  lemma DifferenceCollected(diff: Byte, x: Byte, y: Byte)
    ensures Or(diff, Xor(x, y)) == 0 <==> diff == 0 && x == y
  {
    hide XorBits, OrBits;
    EightBits();
    XorZeroBits(x, y, 8);
    OrZeroBits(diff, Xor(x, y), 8);
  }

  // ---------- The comparison loop ----------

  /** Accumulating differences finds one exactly when the bytes differ somewhere. */
  method Differs(a: Bytes, b: Bytes) returns (differs: bool)
    requires |a| == |b|
    ensures differs <==> a != b
  {
    hide Xor, Or;
    var diff: Byte := 0;
    var i := 0;
    while i < |a|
      invariant 0 <= i <= |a|
      invariant diff == 0 <==> a[..i] == b[..i]
    {
      DifferenceCollected(diff, a[i], b[i]);
      diff := Or(diff, Xor(a[i], b[i]));
      i := i + 1;
    }
    differs := diff != 0;
  }
}
