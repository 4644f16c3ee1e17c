/** The powers of x modulo a generator: when they return to 1, how they are multiplied, and what that says about two
    wrong bits at a distance. */
module PowersOfX {
  import opened NumberTheory
  import opened CrcDivision

  /** The polynomial 1. */
  function One(w: nat): (one: Bits)
    requires w > 0
    ensures |one| == w
  {
    Zeros(w - 1) + [true]
  }

  /** x^n modulo the generator. */
  function Power(g: Generator, n: nat): (c: Bits)
    ensures |c| == |g|
  {
    Shifts(g, One(|g|), n)
  }

  predicate Returns(g: Generator, n: nat) {
    Power(g, n) == One(|g|)
  }

  lemma {:induction false} ShiftsAdd(g: Generator, c: Bits, m: nat, n: nat)
    requires |c| == |g|
    ensures Shifts(g, c, m + n) == Shifts(g, Shifts(g, c, m), n)
    decreases m
  {
    hide Shift;
    if m > 0 {
      ShiftsAdd(g, Shift(g, c), m - 1, n);
    }
  }

  lemma {:induction false} ShiftsOfZeros(g: Generator, n: nat)
    ensures Shifts(g, Zeros(|g|), n) == Zeros(|g|)
    decreases n
  {
    if n > 0 {
      assert Shift(g, Zeros(|g|)) == Zeros(|g|);
      ShiftsOfZeros(g, n - 1);
    }
  }

  // ---------- Two wrong bits ----------

  lemma {:induction false} DivideLinear(g: Generator, c: Bits, d: Bits, x: Bits, y: Bits)
    requires |c| == |d| == |g| && |x| == |y|
    ensures Divide(g, Xor(c, d), Xor(x, y)) == Xor(Divide(g, c, x), Divide(g, d, y))
    decreases |x|
  {
    if x != [] {
      var tc, td := [c[0] != x[0]] + c[1..], [d[0] != y[0]] + d[1..];
      assert [Xor(c, d)[0] != Xor(x, y)[0]] + Xor(c, d)[1..] == Xor(tc, td);
      assert Xor(x, y)[1..] == Xor(x[1..], y[1..]) && Xor(x, y)[0] == (x[0] != y[0]);
      ShiftLinear(g, tc, td);
      hide Shift;
      DivideLinear(g, Step(g, c, x[0]), Step(g, d, y[0]), x[1..], y[1..]);
    }
  }

  lemma {:induction false} DivideZeros(g: Generator, c: Bits, n: nat)
    requires |c| == |g|
    ensures Divide(g, c, Zeros(n)) == Shifts(g, c, n)
    decreases n
  {
    if n > 0 {
      assert [c[0] != false] + c[1..] == c && Zeros(n)[1..] == Zeros(n - 1);
      hide Shift;
      DivideZeros(g, Shift(g, c), n - 1);
    }
  }

  /** One message bit is brought down as the leading power, x^w. */
  lemma BitBroughtDown(g: Generator, c: Bits)
    requires |c| == |g|
    ensures Step(g, c, true) == Xor(Shift(g, c), Power(g, |g|))
  {
    var w := |g|;
    var top := [true] + Zeros(w - 1);
    ShiftsLow(g, [true], w - 1);
    ShiftsMore(g, One(w), w - 1);
    ShiftLinear(g, c, top);
    assert [c[0] != true] + c[1..] == Xor(c, top);
    hide Shift, Shifts;
  }

  /** Two set bits at a distance d leave nothing exactly when x^d is 1. */
  lemma TwoBitsVanishIff(g: Generator, i: nat, d: nat, k: nat)
    requires HasConstantTerm(g) && d > 0
    ensures Divide(g, Zeros(|g|), Zeros(i) + [true] + (Zeros(d - 1) + [true] + Zeros(k))) == Zeros(|g|)
       <==> Returns(g, d)
  {
    hide *;
    var w, none := |g|, Zeros(|g|);
    var rest := Zeros(d - 1) + [true] + Zeros(k);
    DivideConcat(g, none, Zeros(i) + [true], rest);
    DivideConcat(g, none, Zeros(i), [true]);
    DivideZeros(g, none, i);
    ShiftsOfZeros(g, i);
    FirstBit(g);
    var first := Power(g, w);
    DivideConcat(g, first, Zeros(d - 1) + [true], Zeros(k));
    DivideConcat(g, first, Zeros(d - 1), [true]);
    DivideZeros(g, first, d - 1);
    var c := Shifts(g, first, d - 1);
    SecondBit(g, c);
    ShiftsMore(g, first, d - 1);
    var end := Xor(Shifts(g, first, d), first);
    DivideZeros(g, end, k);
    ShiftsOfZeros(g, k);
    if Shifts(g, end, k) == none {
      ShiftsInjective(g, end, none, k);
    }
    XorIsZero(Shifts(g, first, d), first);
    LateReturn(g, d);
  }

  lemma FirstBit(g: Generator)
    ensures Divide(g, Zeros(|g|), [true]) == Power(g, |g|)
  {
    BitBroughtDown(g, Zeros(|g|));
    ShiftsOfZeros(g, 1);
    assert Divide(g, Zeros(|g|), [true]) == Divide(g, Step(g, Zeros(|g|), true), []);
    assert Shifts(g, Zeros(|g|), 1) == Shifts(g, Shift(g, Zeros(|g|)), 0);
    var first := Power(g, |g|);
    assert Xor(Zeros(|g|), first) == first;
  }

  lemma SecondBit(g: Generator, c: Bits)
    requires |c| == |g|
    ensures Divide(g, c, [true]) == Xor(Shift(g, c), Power(g, |g|))
  {
    BitBroughtDown(g, c);
    hide Shift, Power, Step;
    assert Divide(g, c, [true]) == Divide(g, Step(g, c, true), []);
  }

  lemma XorIsZero(x: Bits, y: Bits)
    requires |x| == |y|
    ensures Xor(x, y) == Zeros(|x|) <==> x == y
  {
    if Xor(x, y) == Zeros(|x|) {
      forall i | 0 <= i < |x|
        ensures x[i] == y[i]
      {
        assert !Xor(x, y)[i];
      }
    }
  }

  /** It does not matter from which power on the way back is counted. */
  lemma LateReturn(g: Generator, d: nat)
    requires HasConstantTerm(g)
    ensures Shifts(g, Power(g, |g|), d) == Power(g, |g|) <==> Returns(g, d)
  {
    hide Shift, Shifts, One, HasConstantTerm;
    var one, w := One(|g|), |g|;
    ShiftsAdd(g, one, w, d);
    ShiftsAdd(g, one, d, w);
    assert w + d == d + w;
    if Shifts(g, Power(g, d), w) == Shifts(g, one, w) {
      ShiftsInjective(g, Power(g, d), one, w);
    }
  }

  /** Two wrong bits go unnoticed exactly when x returns to 1 over their distance. */
  lemma TwoErrorsIff(g: Generator, c: Bits, x: Bits, i: nat, j: nat)
    requires |c| == |g| && HasConstantTerm(g) && i < j < |x|
    ensures Divide(g, c, x[i := !x[i]][j := !x[j]]) == Divide(g, c, x) <==> Returns(g, j - i)
  {
    var y := x[i := !x[i]][j := !x[j]];
    var error := Zeros(i) + [true] + (Zeros(j - i - 1) + [true] + Zeros(|x| - j - 1));
    assert Xor(x, y) == error;
    assert Xor(c, c) == Zeros(|g|);
    hide *;
    DivideLinear(g, c, c, x, y);
    XorIsZero(Divide(g, c, x), Divide(g, c, y));
    TwoBitsVanishIff(g, i, j - i, |x| - j - 1);
  }

  // ---------- The order of x ----------

  lemma ReturnsSum(g: Generator, m: nat, n: nat)
    requires Returns(g, m)
    ensures Returns(g, m + n) <==> Returns(g, n)
  {
    hide Shift, Shifts, One;
    ShiftsAdd(g, One(|g|), m, n);
  }

  lemma ReturnsNone(g: Generator)
    ensures Returns(g, 0)
  {
  }

  lemma {:induction false} ReturnsMultiple(g: Generator, m: nat, k: nat)
    requires Returns(g, m)
    ensures m * k >= 0 && Returns(g, m * k)
    decreases k
  {
    hide Returns;
    if k == 0 {
      ReturnsNone(g);
    } else {
      ReturnsMultiple(g, m, k - 1);
      Distribute(m, k, 1);
      ReturnsSum(g, m, m * (k - 1));
    }
  }

  lemma {:induction false} ReturnsGcd(g: Generator, a: nat, b: nat)
    requires Returns(g, a) && Returns(g, b)
    ensures Returns(g, Gcd(a, b))
    decreases b
  {
    hide Returns;
    if b > 0 {
      ReturnsMultiple(g, b, a / b);
      ReturnsSum(g, b * (a / b), a % b);
      ReturnsGcd(g, b, a % b);
    }
  }

  /** x returns after n steps and not after any proper divisor of n. */
  ghost predicate IsOrder(g: Generator, n: nat) {
    n > 0 && Returns(g, n) && forall h: nat :: Divides(h, n) && Returns(g, h) ==> h == n
  }

  /** Then it returns exactly after the multiples of n. */
  lemma OrderIff(g: Generator, n: nat, d: nat)
    requires IsOrder(g, n)
    ensures Returns(g, d) <==> Divides(n, d)
  {
    hide Returns, Gcd;
    if Divides(n, d) {
      QuotientIsNatural(n, d);
      ReturnsMultiple(g, n, Quotient(n, d));
    }
    if Returns(g, d) {
      ReturnsGcd(g, d, n);
      GcdDividesBoth(d, n);
    }
  }

  /** A prime is the order if x does not return at once. */
  lemma PrimeOrder(g: Generator, p: nat)
    requires Prime(p) && Returns(g, p) && !Returns(g, 1)
    ensures IsOrder(g, p)
  {
  }

  /** A product of three primes is the order if x returns after none of the products of two. */
  lemma ThreePrimesOrder(g: Generator, p: nat, q: nat, r: nat)
    requires Prime(p) && Prime(q) && Prime(r) && Returns(g, p * q * r)
    requires !Returns(g, q * r) && !Returns(g, p * r) && !Returns(g, p * q)
    ensures IsOrder(g, p * q * r)
  {
    PositiveOrder(p, q, r);
    hide Returns, Prime;
    forall h: nat | Divides(h, p * q * r) && Returns(g, h)
      ensures h == p * q * r
    {
      NoProperDivisor(g, p, q, r, h);
    }
  }

  lemma PositiveOrder(p: nat, q: nat, r: nat)
    requires Prime(p) && Prime(q) && Prime(r)
    ensures p * q * r > 0
  {
    assert p > 0 && q > 0 && r > 0;
    hide Prime;
    assert p * q > 0;
  }

  lemma QuotientIsNatural(n: nat, d: nat)
    requires n > 0 && Divides(n, d)
    ensures Quotient(n, d) >= 0
  {
    var k := Quotient(n, d);
    assert k < 0 ==> n * k < 0;
  }

  lemma NoProperDivisor(g: Generator, p: nat, q: nat, r: nat, h: nat)
    requires Prime(p) && Prime(q) && Prime(r) && p * q * r > 0
    requires !Returns(g, q * r) && !Returns(g, p * r) && !Returns(g, p * q)
    requires Returns(g, h) && Divides(h, p * q * r)
    ensures h == p * q * r
  {
    assert p > 0 && q > 0 && r > 0;
    hide Returns, Prime, Gcd;
    var n := p * q * r;
    QuotientIsPositive(h, n);
    var k: nat := Quotient(h, n);
    DividesIntro(k, h, n);
    if k > 1 {
      PrimeFactor(k, p, q, r);
      Associate(p, q, r);
      if Divides(p, k) {
        ReturnsEarly(g, h, k, p, q * r);
      } else if Divides(q, k) {
        Associate(q, p, r);
        ReturnsEarly(g, h, k, q, p * r);
      } else {
        ReturnsEarly(g, h, k, r, p * q);
      }
    }
  }

  lemma QuotientIsPositive(h: nat, n: nat)
    requires Divides(h, n) && n > 0
    ensures Quotient(h, n) > 0
  {
    var k := Quotient(h, n);
    assert k <= 0 ==> h * k <= 0;
  }

  /** A return after h steps is one after n / p, if p divides n / h. */
  lemma ReturnsEarly(g: Generator, h: nat, k: nat, p: nat, m: nat)
    requires Returns(g, h) && Divides(p, k) && k > 0 && h * k == p * m && p > 0
    ensures Returns(g, m)
  {
    hide Returns;
    QuotientIsPositive(p, k);
    var l: nat := Quotient(p, k);
    Associate(h, p, l);
    SameProduct(p, h * l, m);
    ReturnsMultiple(g, h, l);
  }

  lemma SameProduct(p: nat, a: int, b: int)
    requires p > 0 && p * a == p * b
    ensures a == b
  {
    Distribute(p, a, b);
    assert a > b ==> p * (a - b) > 0;
    assert a < b ==> p * (b - a) > 0;
  }

  lemma PrimeFactor(k: nat, p: nat, q: nat, r: nat)
    requires Prime(p) && Prime(q) && Prime(r) && k > 1 && Divides(k, p * q * r)
    ensures Divides(p, k) || Divides(q, k) || Divides(r, k)
  {
    hide Prime, Gcd;
    if !Divides(p, k) && !Divides(q, k) && !Divides(r, k) {
      PrimeCoprime(p, k);
      PrimeCoprime(q, k);
      PrimeCoprime(r, k);
      Associate(p, q, r);
      CoprimeDivides(k, p, q * r);
      CoprimeDivides(k, q, r);
      CoprimeDivides(k, r, 1);
      DividesBound(k, 1);
    }
  }

  /** Two wrong bits go unnoticed exactly when their distance is a multiple of the order. */
  lemma TwoErrorsMissed(g: Generator, n: nat, c: Bits, x: Bits, i: nat, j: nat)
    requires IsOrder(g, n) && HasConstantTerm(g) && |c| == |g| && i < j < |x|
    ensures Divide(g, c, x[i := !x[i]][j := !x[j]]) == Divide(g, c, x) <==> (j - i) % n == 0
  {
    assert n > 0;
    hide *;
    TwoErrorsIff(g, c, x, i, j);
    OrderIff(g, n, j - i);
    DividesMod(n, j - i);
  }

  // ---------- Multiplication ----------

  /** The product of two polynomials modulo the generator, one bit of the second at a time. */
  function Times(g: Generator, a: Bits, b: Bits): (c: Bits)
    requires |a| == |g|
    ensures |c| == |g|
    decreases |b|
  {
    if b == [] then Zeros(|g|)
    else Xor(Shift(g, Times(g, a, b[..|b| - 1])), if b[|b| - 1] then a else Zeros(|g|))
  }

  lemma {:induction false} TimesShift(g: Generator, a: Bits, b: Bits)
    requires |a| == |g|
    ensures Times(g, Shift(g, a), b) == Shift(g, Times(g, a, b))
    decreases |b|
  {
    ShiftsOfZeros(g, 1);
    assert Shifts(g, Zeros(|g|), 1) == Shifts(g, Shift(g, Zeros(|g|)), 0) == Shift(g, Zeros(|g|));
    if b != [] {
      var init := b[..|b| - 1];
      TimesShift(g, a, init);
      ShiftLinear(g, Shift(g, Times(g, a, init)), if b[|b| - 1] then a else Zeros(|g|));
      hide Shift;
    }
  }

  lemma {:induction false} TimesShifts(g: Generator, a: Bits, b: Bits, n: nat)
    requires |a| == |g|
    ensures Times(g, Shifts(g, a, n), b) == Shifts(g, Times(g, a, b), n)
    decreases n
  {
    hide Shift, Times;
    if n > 0 {
      TimesShift(g, a, b);
      TimesShifts(g, Shift(g, a), b, n - 1);
    }
  }

  lemma {:induction false} TimesOne(g: Generator, b: Bits)
    requires |b| <= |g|
    ensures Times(g, One(|g|), b) == Zeros(|g| - |b|) + b
    decreases |b|
  {
    if b == [] {
      assert Zeros(|g|) + b == Zeros(|g|);
    } else {
      var init, last := b[..|b| - 1], b[|b| - 1];
      TimesOne(g, init);
      hide Shift, Xor, Zeros, One;
      OneMoreBit(g, init, last);
      assert b == init + [last];
    }
  }

  lemma OneMoreBit(g: Generator, init: Bits, last: bool)
    requires |init| < |g|
    ensures Xor(Shift(g, Zeros(|g| - |init|) + init), if last then One(|g|) else Zeros(|g|))
         == Zeros(|g| - |init| - 1) + (init + [last])
  {
    assert Shift(g, Zeros(|g| - |init|) + init) == Zeros(|g| - |init| - 1) + (init + [false]);
    hide Shift;
  }

  /** Exponents add. */
  lemma PowersMultiply(g: Generator, m: nat, n: nat)
    ensures Times(g, Power(g, m), Power(g, n)) == Power(g, m + n)
  {
    hide Times, Shifts;
    TimesShifts(g, One(|g|), Power(g, n), m);
    TimesOne(g, Power(g, n));
    assert Zeros(0) + Power(g, n) == Power(g, n);
    ShiftsAdd(g, One(|g|), n, m);
    assert n + m == m + n;
  }
}
