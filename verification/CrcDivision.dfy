/** Cyclic checksums as long division of a bit string by a generator polynomial over GF(2), one bit at a time, for
    generators of any degree, and the errors that the division cannot miss. The most significant bit comes first;
    the leading 1 of the generator is left out. */
module CrcDivision {
  type Bits = seq<bool>
  type Generator = g: Bits | |g| > 0 witness [true]

  function Zeros(n: nat): (z: Bits)
    ensures |z| == n
  {
    seq(n, _ => false)
  }

  /** Addition of polynomials. */
  function Xor(x: Bits, y: Bits): (z: Bits)
    requires |x| == |y|
    ensures |z| == |x|
  {
    seq(|x|, i requires 0 <= i < |x| => x[i] != y[i])
  }

  /** Multiplication by x: the bit that falls off the top comes back as the generator. */
  function Shift(g: Generator, c: Bits): (d: Bits)
    requires |c| == |g|
    ensures |d| == |g|
  {
    if c[0] then Xor(c[1..] + [false], g) else c[1..] + [false]
  }

  function Shifts(g: Generator, c: Bits, n: nat): (d: Bits)
    requires |c| == |g|
    ensures |d| == |g|
    decreases n
  {
    if n == 0 then c else Shifts(g, Shift(g, c), n - 1)
  }

  /** Brings down one message bit. */
  function Step(g: Generator, c: Bits, bit: bool): (d: Bits)
    requires |c| == |g|
    ensures |d| == |g|
  {
    Shift(g, [c[0] != bit] + c[1..])
  }

  function Divide(g: Generator, c: Bits, bits: Bits): (d: Bits)
    requires |c| == |g|
    ensures |d| == |g|
    decreases |bits|
  {
    if bits == [] then c else Divide(g, Step(g, c, bits[0]), bits[1..])
  }

  // ---------- The division is polynomial division ----------

  /** The product with the whole generator, [true] + g. */
  function Product(q: Bits, g: Generator): (p: Bits)
    ensures |p| == |q| + |g|
    decreases |q|
  {
    if q == [] then Zeros(|g|)
    else
      var first := (if q[0] then [true] + g else Zeros(|g| + 1)) + Zeros(|q| - 1);
      Xor(first, [false] + Product(q[1..], g))
  }

  /** The bits that fall off the top on the way. */
  function QuotientBits(g: Generator, c: Bits, bits: Bits): (q: Bits)
    requires |c| == |g|
    ensures |q| == |bits|
    decreases |bits|
  {
    if bits == [] then [] else [c[0] != bits[0]] + QuotientBits(g, Step(g, c, bits[0]), bits[1..])
  }

  /** What is divided: the message times x^w, with the start value added on top. */
  function Dividend(g: Generator, c: Bits, bits: Bits): (d: Bits)
    requires |c| == |g|
    ensures |d| == |bits| + |g|
  {
    Xor(bits + Zeros(|g|), c + Zeros(|bits|))
  }

  /** quotient times generator plus remainder */
  predicate LeavesRemainder(g: Generator, c: Bits, bits: Bits, q: Bits, r: Bits)
    requires |c| == |g|
  {
    |q| == |bits| && |r| == |g| && Dividend(g, c, bits) == Xor(Product(q, g), Zeros(|bits|) + r)
  }

  ghost predicate IsRemainder(g: Generator, c: Bits, bits: Bits, r: Bits)
    requires |c| == |g|
  {
    exists q :: LeavesRemainder(g, c, bits, q, r)
  }

  lemma {:induction false} DivisionIdentity(g: Generator, c: Bits, bits: Bits)
    requires |c| == |g|
    ensures LeavesRemainder(g, c, bits, QuotientBits(g, c, bits), Divide(g, c, bits))
    decreases |bits|
  {
    if bits != [] {
      var d, rest := Step(g, c, bits[0]), bits[1..];
      DivisionIdentity(g, d, rest);
      DividendStep(g, c, bits);
      var q, r := QuotientBits(g, d, rest), Divide(g, d, rest);
      var t := c[0] != bits[0];
      assert ([t] + q)[1..] == q;
      var first := (if t then [true] + g else Zeros(|g| + 1)) + Zeros(|rest|);
      assert Dividend(g, d, rest) == Xor(Product(q, g), Zeros(|rest|) + r);
      assert Product([t] + q, g) == Xor(first, [false] + Product(q, g));
      hide *;
      Regroup(first, Product(q, g), Zeros(|rest|) + r);
      assert [false] + (Zeros(|rest|) + r) == Zeros(|bits|) + r;
    }
  }

  lemma Regroup(x: Bits, y: Bits, z: Bits)
    requires |x| == |y| + 1 == |z| + 1
    ensures Xor(x, [false] + Xor(y, z)) == Xor(Xor(x, [false] + y), [false] + z)
  {
  }

  lemma DividendStep(g: Generator, c: Bits, bits: Bits)
    requires |c| == |g| && bits != []
    ensures var first := (if c[0] != bits[0] then [true] + g else Zeros(|g| + 1)) + Zeros(|bits| - 1);
            Dividend(g, c, bits) == Xor(first, [false] + Dividend(g, Step(g, c, bits[0]), bits[1..]))
  {
  }

  lemma {:induction false} ProductAdds(p: Bits, q: Bits, g: Generator)
    requires |p| == |q|
    ensures Product(Xor(p, q), g) == Xor(Product(p, g), Product(q, g))
    decreases |p|
  {
    if p != [] {
      assert Xor(p, q)[1..] == Xor(p[1..], q[1..]);
      ProductAdds(p[1..], q[1..], g);
    }
  }

  /** A multiple of the generator below its degree is zero. */
  lemma {:induction false} SmallMultipleIsZero(q: Bits, g: Generator)
    requires forall i :: 0 <= i < |q| ==> !Product(q, g)[i]
    ensures q == Zeros(|q|)
    decreases |q|
  {
    if q != [] {
      assert !Product(q, g)[0];
      forall i | 0 <= i < |q| - 1
        ensures !Product(q[1..], g)[i]
      {
        assert !Product(q, g)[i + 1];
      }
      SmallMultipleIsZero(q[1..], g);
    }
  }

  /** The checksum is the one remainder of the message polynomial: the only r below the generator's degree with
      message = quotient times generator + r. */
  lemma RemainderIff(g: Generator, c: Bits, bits: Bits, r: Bits)
    requires |c| == |g|
    ensures r == Divide(g, c, bits) <==> IsRemainder(g, c, bits, r)
  {
    var q0, r0 := QuotientBits(g, c, bits), Divide(g, c, bits);
    DivisionIdentity(g, c, bits);
    if q :| LeavesRemainder(g, c, bits, q, r) {
      ProductAdds(q0, q, g);
      var p0, p, z := Product(q0, g), Product(q, g), Zeros(|bits|);
      hide Product, QuotientBits, Divide, Dividend;
      forall i | 0 <= i < |bits|
        ensures !Product(Xor(q0, q), g)[i]
      {
        assert Xor(p0, z + r0)[i] == Xor(p, z + r)[i];
      }
      SmallMultipleIsZero(Xor(q0, q), g);
      forall i | 0 <= i < |q|
        ensures q0[i] == q[i]
      {
        assert !Xor(q0, q)[i];
      }
      assert q0 == q;
      forall i | 0 <= i < |g|
        ensures r0[i] == r[i]
      {
        assert Xor(p0, z + r0)[|bits| + i] == Xor(p, z + r)[|bits| + i];
      }
    }
  }

  // ---------- Linearity ----------

  lemma ShiftLinear(g: Generator, x: Bits, y: Bits)
    requires |x| == |y| == |g|
    ensures Shift(g, Xor(x, y)) == Xor(Shift(g, x), Shift(g, y))
  {
  }

  lemma {:induction false} ShiftsLinear(g: Generator, x: Bits, y: Bits, n: nat)
    requires |x| == |y| == |g|
    ensures Shifts(g, Xor(x, y), n) == Xor(Shifts(g, x, n), Shifts(g, y, n))
    decreases n
  {
    if n > 0 {
      ShiftLinear(g, x, y);
      hide Shift;
      ShiftsLinear(g, Shift(g, x), Shift(g, y), n - 1);
    }
  }

  lemma {:induction false} ShiftsMore(g: Generator, c: Bits, n: nat)
    requires |c| == |g|
    ensures Shifts(g, c, n + 1) == Shift(g, Shifts(g, c, n))
    decreases n
  {
    hide Shift;
    if n > 0 {
      ShiftsMore(g, Shift(g, c), n - 1);
    }
  }

  /** Below n zeros, bits reach the top without meeting the generator. */
  lemma {:induction false} ShiftsLow(g: Generator, low: Bits, n: nat)
    requires n + |low| == |g|
    ensures Shifts(g, Zeros(n) + low, n) == low + Zeros(n)
    decreases n
  {
    if n > 0 {
      assert Shift(g, Zeros(n) + low) == Zeros(n - 1) + (low + [false]);
      ShiftsLow(g, low + [false], n - 1);
      assert low + [false] + Zeros(n - 1) == low + Zeros(n);
    } else {
      assert Zeros(n) + low == low && low + Zeros(n) == low;
    }
  }

  /** Bringing down bits one at a time is adding them all first and then shifting. */
  lemma {:induction false} DivideWord(g: Generator, c: Bits, bits: Bits)
    requires |bits| <= |c| == |g|
    ensures Divide(g, c, bits) == Shifts(g, Xor(c, bits + Zeros(|g| - |bits|)), |bits|)
    decreases |bits|
  {
    var word := bits + Zeros(|g| - |bits|);
    if bits == [] {
      assert Xor(c, word) == c;
    } else {
      var rest := bits[1..];
      var top := [c[0] != bits[0]] + c[1..];
      var below := [false] + rest + Zeros(|g| - |bits|);
      DivideWord(g, Shift(g, top), rest);
      ShiftLinear(g, top, below);
      assert Shift(g, below) == rest + Zeros(|g| - |rest|);
      assert Xor(top, below) == Xor(c, word);
      hide Shift;
    }
  }

  /** Several bits at once: one lookup of the bits that fall off the top, and one addition. */
  lemma LookupStep(g: Generator, c: Bits, bits: Bits)
    requires |bits| <= |c| == |g|
    ensures var k := |bits|;
            Divide(g, c, bits) == Xor(c[k..] + Zeros(k), Shifts(g, Xor(c[..k], bits) + Zeros(|g| - k), k))
  {
    hide *;
    var k := |bits|;
    DivideWord(g, c, bits);
    SplitWord(c, bits);
    ShiftsLinear(g, Zeros(k) + c[k..], Xor(c[..k], bits) + Zeros(|g| - k), k);
    ShiftsLow(g, c[k..], k);
  }

  lemma SplitWord(c: Bits, bits: Bits)
    requires |bits| <= |c|
    ensures var k := |bits|;
            Xor(c, bits + Zeros(|c| - k)) == Xor(Zeros(k) + c[k..], Xor(c[..k], bits) + Zeros(|c| - k))
  {
  }

  lemma {:induction false} DivideConcat(g: Generator, c: Bits, x: Bits, y: Bits)
    requires |c| == |g|
    ensures Divide(g, c, x + y) == Divide(g, Divide(g, c, x), y)
    decreases |x|
  {
    hide Step;
    if x == [] {
      assert x + y == y;
    } else {
      DivideConcat(g, Step(g, c, x[0]), x[1..], y);
      assert (x + y)[1..] == x[1..] + y;
    }
  }

  // ---------- Burst errors ----------

  /** The generator has a constant term. */
  predicate HasConstantTerm(g: Generator) {
    g[|g| - 1]
  }

  lemma ShiftInjective(g: Generator, x: Bits, y: Bits)
    requires |x| == |y| == |g| && HasConstantTerm(g) && Shift(g, x) == Shift(g, y)
    ensures x == y
  {
    var s, t, last := Shift(g, x), Shift(g, y), |g| - 1;
    assert s[last] == x[0] && t[last] == y[0];
    forall i | 0 < i < |g|
      ensures x[i] == y[i]
    {
      assert s[i - 1] == t[i - 1];
    }
  }

  lemma {:induction false} ShiftsInjective(g: Generator, x: Bits, y: Bits, n: nat)
    requires |x| == |y| == |g| && HasConstantTerm(g) && Shifts(g, x, n) == Shifts(g, y, n)
    ensures x == y
    decreases n
  {
    hide Shift;
    if n > 0 {
      ShiftsInjective(g, Shift(g, x), Shift(g, y), n - 1);
      ShiftInjective(g, x, y);
    }
  }

  /** Equal tails cannot bring different remainders together. */
  lemma {:induction false} DivideInjective(g: Generator, x: Bits, y: Bits, bits: Bits)
    requires |x| == |y| == |g| && HasConstantTerm(g) && Divide(g, x, bits) == Divide(g, y, bits)
    ensures x == y
    decreases |bits|
  {
    hide Shift;
    if bits != [] {
      DivideInjective(g, Step(g, x, bits[0]), Step(g, y, bits[0]), bits[1..]);
      var tx, ty := [x[0] != bits[0]] + x[1..], [y[0] != bits[0]] + y[1..];
      ShiftInjective(g, tx, ty);
      assert tx[0] == ty[0] && tx[1..] == x[1..] && ty[1..] == y[1..];
      assert x == [x[0]] + x[1..] && y == [y[0]] + y[1..];
    }
  }

  /** No burst error within as many bits as the checksum has goes unnoticed, wherever it starts and whatever
      surrounds it. */
  lemma BurstDetected(g: Generator, c: Bits, before: Bits, sent: Bits, received: Bits, after: Bits)
    requires |c| == |g| && HasConstantTerm(g) && |sent| == |received| <= |g|
    ensures Divide(g, c, before + sent + after) == Divide(g, c, before + received + after) <==> sent == received
  {
    hide *;
    if Divide(g, c, before + sent + after) == Divide(g, c, before + received + after) {
      var d := Divide(g, c, before);
      DivideConcat(g, c, before + sent, after);
      DivideConcat(g, c, before + received, after);
      DivideConcat(g, c, before, sent);
      DivideConcat(g, c, before, received);
      DivideInjective(g, Divide(g, d, sent), Divide(g, d, received), after);
      WordDetected(g, d, sent, received);
    }
  }

  lemma WordDetected(g: Generator, c: Bits, sent: Bits, received: Bits)
    requires |c| == |g| && HasConstantTerm(g) && |sent| == |received| <= |g|
    requires Divide(g, c, sent) == Divide(g, c, received)
    ensures sent == received
  {
    hide *;
    var pad := Zeros(|g| - |sent|);
    DivideWord(g, c, sent);
    DivideWord(g, c, received);
    ShiftsInjective(g, Xor(c, sent + pad), Xor(c, received + pad), |sent|);
    XorCancels(c, sent + pad, received + pad);
    assert (sent + pad)[..|sent|] == sent && (received + pad)[..|sent|] == received;
  }

  lemma XorCancels(d: Bits, x: Bits, y: Bits)
    requires |d| == |x| == |y| && Xor(d, x) == Xor(d, y)
    ensures x == y
  {
    forall i | 0 <= i < |x|
      ensures x[i] == y[i]
    {
      assert Xor(d, x)[i] == Xor(d, y)[i];
    }
  }

  /** A checksum's worth of bits behind a remainder leaves zero exactly when they are the remainder itself. */
  lemma AppendedRemainder(g: Generator, c: Bits, bits: Bits)
    requires |bits| == |c| == |g| && HasConstantTerm(g)
    ensures Divide(g, c, bits) == Zeros(|g|) <==> bits == c
  {
    hide *;
    OwnRemainderVanishes(g, c);
    if Divide(g, c, bits) == Zeros(|g|) {
      WordDetected(g, c, bits, c);
    }
  }

  lemma OwnRemainderVanishes(g: Generator, c: Bits)
    requires |c| == |g|
    ensures Divide(g, c, c) == Zeros(|g|)
  {
    DivideWord(g, c, c);
    assert Xor(c, c + Zeros(0)) == Zeros(|g|) + [];
    hide *;
    ShiftsLow(g, [], |g|);
  }

  // ---------- Errors in an odd number of bits ----------

  predicate OddBits(bits: Bits)
    decreases |bits|
  {
    if bits == [] then false else bits[0] != OddBits(bits[1..])
  }

  /** The number of places where two bit strings differ. */
  function Distance(x: Bits, y: Bits): nat
    requires |x| == |y|
    decreases |x|
  {
    if x == [] then 0 else (if x[0] == y[0] then 0 else 1) + Distance(x[1..], y[1..])
  }

  lemma {:induction false} DistanceParity(x: Bits, y: Bits)
    requires |x| == |y|
    ensures (Distance(x, y) % 2 == 1) == (OddBits(x) != OddBits(y))
    decreases |x|
  {
    if x != [] {
      DistanceParity(x[1..], y[1..]);
    }
  }

  lemma {:induction false} OddXor(x: Bits, y: Bits)
    requires |x| == |y|
    ensures OddBits(Xor(x, y)) == (OddBits(x) != OddBits(y))
    decreases |x|
  {
    if x != [] {
      OddXor(x[1..], y[1..]);
      assert Xor(x, y)[1..] == Xor(x[1..], y[1..]);
    }
  }

  lemma {:induction false} OddConcat(x: Bits, y: Bits)
    ensures OddBits(x + y) == (OddBits(x) != OddBits(y))
    decreases |x|
  {
    if x == [] {
      assert x + y == y;
    } else {
      OddConcat(x[1..], y);
      assert (x + y)[1..] == x[1..] + y;
    }
  }

  lemma {:induction false} OddZeros(n: nat)
    ensures !OddBits(Zeros(n))
    decreases n
  {
    if n > 0 {
      OddZeros(n - 1);
      assert Zeros(n)[1..] == Zeros(n - 1);
    }
  }

  /** A generator with an even number of terms, its leading one included, keeps the parity. */
  lemma OddShift(g: Generator, c: Bits)
    requires |c| == |g| && OddBits(g)
    ensures OddBits(Shift(g, c)) == OddBits(c)
  {
    OddConcat(c[1..], [false]);
    OddXor(c[1..] + [false], g);
  }

  /** The parity of a remainder is the parity of the start value and the message together. */
  lemma {:induction false} DivideParity(g: Generator, c: Bits, bits: Bits)
    requires |c| == |g| && OddBits(g)
    ensures OddBits(Divide(g, c, bits)) == (OddBits(c) != OddBits(bits))
    decreases |bits|
  {
    hide Shift;
    if bits != [] {
      var top := [c[0] != bits[0]] + c[1..];
      OddShift(g, top);
      assert top[1..] == c[1..];
      DivideParity(g, Step(g, c, bits[0]), bits[1..]);
    }
  }

  /** No error that flips an odd number of bits goes unnoticed, however they are spread. */
  lemma OddErrorDetected(g: Generator, c: Bits, sent: Bits, received: Bits)
    requires |c| == |g| && OddBits(g) && |sent| == |received| && Distance(sent, received) % 2 == 1
    ensures Divide(g, c, sent) != Divide(g, c, received)
  {
    DivideParity(g, c, sent);
    DivideParity(g, c, received);
    DistanceParity(sent, received);
  }
}
