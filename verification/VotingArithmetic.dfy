/** The hand-written integer arithmetic of the voting service: modular powers, modular inverses,
    greatest common divisors and least common multiples. BigInt division truncates toward zero and
    throws on a zero divisor; both are written out. */
module VotingArithmetic {
  import opened NumberTheory
  import opened Results

  datatype ArithmeticError = DivisionByZero

  function Abs(a: int): nat {
    if a < 0 then -a else a
  }

  /** BigInt `a % m`: the remainder takes the sign of the dividend. */
  function Rem(a: int, m: int): (r: int)
    requires m != 0
  {
    if a >= 0 then a % Abs(m) else -((-a) % Abs(m))
  }

  /** BigInt `a / m`: truncation toward zero. */
  function Quo(a: int, m: int): (q: int)
    requires m != 0
  {
    var q := Abs(a) / Abs(m);
    if (a >= 0) == (m > 0) then q else -q
  }

  lemma RemCong(a: int, m: int)
    requires m != 0
    ensures Cong(Rem(a, m), a, Abs(m)) && Abs(Rem(a, m)) < Abs(m)
    ensures a >= 0 ==> Rem(a, m) >= 0
    ensures a <= 0 ==> Rem(a, m) <= 0
  {
    var n := Abs(m);
    if a >= 0 {
      CongMod(a, n);
    } else {
      hide Divides;
      CongMod(-a, n);
      CongRefl(0, n);
      CongAdd(0, 0, (-a) % n, -a, n);
    }
    if a == 0 { DivModUnique(0, 0, 0, n); }
  }

  /** The remainder is the one value of its sign and size in its residue class. */
  lemma RemUnique(a: int, r: int, m: int)
    requires m != 0 && Cong(r, a, Abs(m)) && Abs(r) < Abs(m)
    requires a >= 0 ==> r >= 0
    requires a <= 0 ==> r <= 0
    ensures r == Rem(a, m)
  {
    var n := Abs(m);
    RemCong(a, m);
    CongSym(r, a, n);
    CongTrans(Rem(a, m), a, r, n);
    if a >= 0 {
      CongUnique(Rem(a, m), r, n);
    } else {
      CongRefl(0, n);
      CongAdd(0, 0, Rem(a, m), r, n);
      CongUnique(-Rem(a, m), -r, n);
    }
  }

  /** Reducing a factor first does not change the remainder of a product. */
  lemma RemProduct(a: int, b: int, m: int)
    requires m != 0
    ensures Rem(Rem(a, m) * b, m) == Rem(a * b, m)
  {
    var n, r := Abs(m), Rem(a, m);
    RemCong(a, m);
    RemCong(r * b, m);
    CongRefl(b, n);
    CongMul(r, a, b, b, n);
    CongTrans(Rem(r * b, m), r * b, a * b, n);
    SameSign(a, r, b);
    RemUnique(a * b, Rem(r * b, m), m);
  }

  lemma SameSign(a: int, r: int, b: int)
    requires (a >= 0 ==> r >= 0) && (a <= 0 ==> r <= 0)
    ensures a * b >= 0 ==> r * b >= 0
    ensures a * b <= 0 ==> r * b <= 0
  {
    if a > 0 && b > 0 { assert a * b > 0; }
    if a < 0 && b < 0 { assert a * b > 0; }
    if a > 0 && b < 0 { assert a * b < 0; }
    if a < 0 && b > 0 { assert a * b < 0; }
  }

  // ---------- Modular powers ----------

  /** Square-and-multiply. The remainder has the sign of the power, as BigInt's `%` gives it. */
  method ModPow(b: int, e: int, m: int) returns (r: Result<int, ArithmeticError>)
    ensures m == 0 ==> r.Err?
    ensures m == 1 ==> r == Ok(0)
    ensures m != 0 && m != 1 && e <= 0 ==> r == Ok(1)
    ensures m != 0 && m != 1 && e > 0 ==> r == Ok(Rem(Pow(b, e), m))
  {
    if m == 1 { return Ok(0); }
    if m == 0 { return Err(DivisionByZero); }
    var result, base, exp := 1, Rem(b, m), e;
    if exp > 0 { ReduceBase(b, e, m); }
    while exp > 0
      invariant exp > 0 ==> Rem(result * Pow(base, exp), m) == Rem(Pow(b, e), m)
      invariant e <= 0 ==> exp == e && result == 1
      invariant e > 0 && exp <= 0 ==> result == Rem(Pow(b, e), m)
    {
      PowerStep(result, base, exp, m);
      if exp % 2 == 1 {
        result := Rem(result * base, m);
      }
      exp := exp / 2;
      base := Rem(base * base, m);
    }
    return Ok(result);
  }

  lemma ReduceBase(b: int, e: nat, m: int)
    requires m != 0
    ensures Rem(Pow(Rem(b, m), e), m) == Rem(Pow(b, e), m)
  {
    if e > 0 {
      var r := Rem(b, m);
      ReduceBase(b, e - 1, m);
      RemProduct(b, Pow(r, e - 1), m);
      RemProduct(Pow(r, e - 1), b, m);
      RemProduct(Pow(b, e - 1), b, m);
    }
  }

  /** One round of the loop: the pending product keeps its remainder. */
  lemma PowerStep(result: int, base: int, exp: nat, m: int)
    requires m != 0 && exp > 0
    ensures var result' := if exp % 2 == 1 then Rem(result * base, m) else result;
            Rem(result' * Pow(Rem(base * base, m), exp / 2), m) == Rem(result * Pow(base, exp), m)
    ensures exp == 1 ==> Rem(result * Pow(base, exp), m) == Rem(result * base, m)
  {
    var h := exp / 2;
    var sq := base * base;
    ReduceBase(sq, h, m);
    assert Pow(base, 2) == sq by { assert Pow(base, 1) == base * Pow(base, 0); }
    PowMul(base, 2, h);
    if exp % 2 == 1 {
      assert exp == 2 * h + 1;
      assert Pow(base, exp) == base * Pow(sq, h);
      Associate(result, base, Pow(sq, h));
      RemProduct(result * base, Pow(Rem(sq, m), h), m);
      RemProductRight(result * base, sq, h, m);
    } else {
      assert exp == 2 * h;
      RemProductRight(result, sq, h, m);
    }
  }

  lemma RemProductRight(a: int, sq: int, h: nat, m: int)
    requires m != 0
    ensures Rem(a * Pow(Rem(sq, m), h), m) == Rem(a * Pow(sq, h), m)
  {
    ReduceBase(sq, h, m);
    RemProduct(Pow(Rem(sq, m), h), a, m);
    RemProduct(Pow(sq, h), a, m);
  }

  // ---------- Greatest common divisor, least common multiple ----------

  method GcdLoop(x: int, y: int) returns (g: nat)
    ensures g == Gcd(Abs(x), Abs(y))
  {
    var a: nat, b: nat := Abs(x), Abs(y);
    while b != 0
      invariant Gcd(a, b) == Gcd(Abs(x), Abs(y))
      decreases b
    {
      a, b := b, a % b;
    }
    g := a;
  }

  /** A non-negative common divisor that every common divisor divides is the computed one. */
  lemma GcdCharacterised(x: int, y: int, g: nat)
    ensures g == Gcd(Abs(x), Abs(y)) <==>
            && Divides(g, x) && Divides(g, y)
            && forall d: int :: Divides(d, x) && Divides(d, y) ==> Divides(d, g)
  {
    var c := Gcd(Abs(x), Abs(y));
    GcdDividesBoth(Abs(x), Abs(y));
    DividesMul(c, Abs(x), -1);
    DividesMul(c, Abs(y), -1);
    forall d: int | Divides(d, x) && Divides(d, y) ensures Divides(d, c) {
      DividesMul(d, x, -1);
      DividesMul(d, y, -1);
      GcdGreatest(Abs(x), Abs(y), d);
    }
    if Divides(g, x) && Divides(g, y) && forall d: int :: Divides(d, x) && Divides(d, y) ==> Divides(d, g) {
      DividesAntisym(g, c);
    }
  }

  /** (a * b) / gcd(a, b); throws only for a = b = 0. */
  function Lcm(a: int, b: int): (r: Result<int, ArithmeticError>)
    ensures r.Err? <==> a == 0 && b == 0
  {
    var g := Gcd(Abs(a), Abs(b));
    if a == 0 && b == 0 then Err(DivisionByZero)
    else
      GcdPositive(Abs(a), Abs(b));
      Ok(Quo(a * b, g))
  }

  lemma ExactQuotient(a: int, g: int, k: int)
    requires g > 0 && a == g * k
    ensures Quo(a, g) == k
  {
    if a >= 0 {
      assert k < 0 ==> g * k < 0;
      DivModUnique(a, k, 0, g);
    } else {
      assert k >= 0 ==> g * k >= 0;
      DivModUnique(-a, -k, 0, g);
    }
  }

  /** What Lcm returns is a common multiple that divides every common multiple. */
  lemma LcmLeast(a: int, b: int)
    requires a != 0 || b != 0
    ensures Divides(a, Lcm(a, b).value) && Divides(b, Lcm(a, b).value)
    ensures forall c: int :: Divides(a, c) && Divides(b, c) ==> Divides(Lcm(a, b).value, c)
    ensures Lcm(a, b).value * Gcd(Abs(a), Abs(b)) == a * b
  {
    var g := Gcd(Abs(a), Abs(b));
    GcdCharacterised(a, b, g);
    GcdPositive(Abs(a), Abs(b));
    var k, l := Quotient(g, a), Quotient(g, b);
    assert a * b == g * (k * b) by { Associate(g, k, b); }
    ExactQuotient(a * b, g, k * b);
    var m := k * b;
    assert m == l * a by { Associate(k, g, l); Associate(g, k, l); }
    DividesIntro(a, l, m);
    DividesIntro(b, k, m);
    forall c: int | Divides(a, c) && Divides(b, c) ensures Divides(m, c) {
      LcmDividesCommonMultiple(a, b, g, k, l, c);
    }
  }

  lemma SignedBezout(a: int, b: int) returns (x: int, y: int)
    ensures Gcd(Abs(a), Abs(b)) == a * x + b * y
  {
    hide Gcd;
    x, y := Bezout(Abs(a), Abs(b));
    if a < 0 {
      NegateFactors(a, x);
      x := -x;
    }
    if b < 0 {
      NegateFactors(b, y);
      y := -y;
    }
  }

  lemma NegateFactors(a: int, x: int)
    ensures (-a) * x == a * (-x)
  {
  }

  lemma LcmDividesCommonMultiple(a: int, b: int, g: nat, k: int, l: int, c: int)
    requires g == Gcd(Abs(a), Abs(b)) && g > 0 && a == g * k && b == g * l
    requires Divides(a, c) && Divides(b, c)
    ensures Divides(k * b, c)
  {
    // with g == a*x + b*y, c*g == (a*b)*u == g*((k*b)*u) for u == (c/b)*x + (c/a)*y
    var x, y := SignedBezout(a, b);
    var s, t := Quotient(a, c), Quotient(b, c);
    hide *;
    CombineQuotients(a, b, x, y, s, t, c);
    var u := t * x + s * y;
    Associate(g, k, b);
    Associate(g, k * b, u);
    CancelFactor(g, c, (k * b) * u);
    DividesIntro(k * b, u, c);
  }

  lemma CombineQuotients(a: int, b: int, x: int, y: int, s: int, t: int, c: int)
    requires c == a * s && c == b * t
    ensures c * (a * x + b * y) == (a * b) * (t * x + s * y)
  {
    calc {
      c * (a * x + b * y);
      { Distribute(c, a * x, b * y); }
      (b * t) * (a * x) + (a * s) * (b * y);
      { Interchange(b, t, a, x); Interchange(a, s, b, y); }
      (b * a) * (t * x) + (a * b) * (s * y);
      { Distribute(a * b, t * x, s * y); }
      (a * b) * (t * x + s * y);
    }
  }

  lemma CancelFactor(g: int, x: int, y: int)
    requires g > 0 && g * x == g * y
    ensures x == y
  {
    assert x > y ==> g * (x - y) > 0;
    assert x < y ==> g * (y - x) > 0;
  }
}
