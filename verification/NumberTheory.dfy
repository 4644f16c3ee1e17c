/** Divisibility, congruences, powers, greatest common divisors and primes: the arithmetic that the
    voting keys rest on. Every operator is on unbounded integers; `%` and `/` are only applied to
    positive moduli, where Dafny's Euclidean operators and the mathematical ones coincide. */
module NumberTheory {

  // ---------- Division with remainder ----------

  lemma DivModUnique(a: int, q: int, r: int, m: int)
    requires 0 <= r < m && a == q * m + r
    ensures a % m == r && a / m == q
  {
    var d := a / m - q;
    assert m * d == r - a % m;
    assert d >= 1 ==> m * d >= m;
    assert d <= -1 ==> m * d <= -m;
  }

  lemma Interchange(a: int, b: int, x: int, y: int)
    ensures (a * b) * (x * y) == (a * x) * (b * y)
  {
    calc {
      (a * b) * (x * y);
      a * (b * (x * y));
      a * (x * (b * y));
      (a * x) * (b * y);
    }
  }

  lemma Associate(a: int, b: int, c: int)
    ensures (a * b) * c == a * (b * c) == b * (a * c)
  {
  }

  lemma Distribute(a: int, b: int, c: int)
    ensures a * (b + c) == a * b + a * c && (b + c) * a == b * a + c * a
    ensures a * (b - c) == a * b - a * c && (b - c) * a == b * a - c * a
  {
  }

  // ---------- Divisibility ----------

  predicate IsProduct(a: int, d: int, k: int) {
    a == d * k
  }

  ghost predicate Divides(d: int, a: int) {
    exists k: int :: IsProduct(a, d, k)
  }

  ghost function Quotient(d: int, a: int): (k: int)
    requires Divides(d, a)
    ensures a == d * k
  {
    var k :| IsProduct(a, d, k);
    k
  }

  lemma DividesIntro(d: int, k: int, a: int)
    requires a == d * k
    ensures Divides(d, a)
  {
    assert IsProduct(a, d, k);
  }

  lemma DividesMod(d: int, a: int)
    requires d > 0
    ensures Divides(d, a) <==> a % d == 0
  {
    if Divides(d, a) {
      DivModUnique(a, Quotient(d, a), 0, d);
    }
    if a % d == 0 {
      DividesIntro(d, a / d, a);
    }
  }

  lemma DividesSelf(d: int)
    ensures Divides(d, d) && Divides(d, 0) && Divides(1, d)
  {
    DividesIntro(d, 1, d);
    DividesIntro(d, 0, 0);
    DividesIntro(1, d, d);
  }

  lemma DividesAdd(d: int, a: int, b: int)
    requires Divides(d, a) && Divides(d, b)
    ensures Divides(d, a + b) && Divides(d, a - b)
  {
    var k, l := Quotient(d, a), Quotient(d, b);
    assert d * (k + l) == d * k + d * l;
    assert d * (k - l) == d * k - d * l;
    DividesIntro(d, k + l, a + b);
    DividesIntro(d, k - l, a - b);
  }

  lemma DividesMul(d: int, a: int, c: int)
    requires Divides(d, a)
    ensures Divides(d, a * c) && Divides(d, c * a)
  {
    var k := Quotient(d, a);
    assert d * (k * c) == a * c;
    DividesIntro(d, k * c, a * c);
  }

  lemma DividesTrans(d: int, a: int, b: int)
    requires Divides(d, a) && Divides(a, b)
    ensures Divides(d, b)
  {
    DividesMul(d, a, Quotient(a, b));
  }

  lemma DividesBound(d: int, a: int)
    requires Divides(d, a) && a > 0
    ensures d <= a
  {
    var k := Quotient(d, a);
    assert d > 0 && k <= 0 ==> d * k <= 0;
    assert d > 0 && k >= 1 ==> d * k >= d;
  }

  // ---------- Congruences ----------

  ghost predicate Cong(a: int, b: int, m: int) {
    Divides(m, a - b)
  }

  lemma CongIntro(a: int, b: int, m: int, k: int)
    requires a == b + m * k
    ensures Cong(a, b, m)
  {
    DividesIntro(m, k, a - b);
  }

  lemma CongRefl(a: int, m: int)
    ensures Cong(a, a, m)
  {
    CongIntro(a, a, m, 0);
  }

  lemma CongSym(a: int, b: int, m: int)
    requires Cong(a, b, m)
    ensures Cong(b, a, m)
  {
    DividesIntro(m, -Quotient(m, a - b), b - a);
  }

  lemma CongTrans(a: int, b: int, c: int, m: int)
    requires Cong(a, b, m) && Cong(b, c, m)
    ensures Cong(a, c, m)
  {
    DividesAdd(m, a - b, b - c);
    assert (a - b) + (b - c) == a - c;
  }

  lemma CongAdd(a: int, b: int, c: int, d: int, m: int)
    requires Cong(a, b, m) && Cong(c, d, m)
    ensures Cong(a + c, b + d, m) && Cong(a - c, b - d, m)
  {
    DividesAdd(m, a - b, c - d);
    assert (a - b) + (c - d) == (a + c) - (b + d);
    assert (a - b) - (c - d) == (a - c) - (b - d);
  }

  lemma CongMul(a: int, b: int, c: int, d: int, m: int)
    requires Cong(a, b, m) && Cong(c, d, m)
    ensures Cong(a * c, b * d, m)
  {
    DividesMul(m, a - b, c);
    DividesMul(m, c - d, b);
    DividesAdd(m, (a - b) * c, b * (c - d));
    assert (a - b) * c + b * (c - d) == a * c - b * d;
  }

  lemma CongMod(a: int, m: int)
    requires m > 0
    ensures Cong(a % m, a, m) && Cong(a, a % m, m)
  {
    CongIntro(a, a % m, m, a / m);
    CongSym(a, a % m, m);
  }

  /** Congruence is equality of canonical residues. */
  lemma CongResidues(a: int, b: int, m: int)
    requires m > 0
    ensures Cong(a, b, m) <==> a % m == b % m
  {
    if Cong(a, b, m) {
      var k := Quotient(m, a - b);
      assert a == (k + b / m) * m + b % m;
      DivModUnique(a, k + b / m, b % m, m);
    }
    if a % m == b % m {
      CongMod(a, m);
      CongMod(b, m);
      CongTrans(a, a % m, b, m);
    }
  }

  /** A value already in range is determined by its residue class. */
  lemma CongUnique(a: int, b: int, m: int)
    requires 0 <= a < m && 0 <= b < m && Cong(a, b, m)
    ensures a == b
  {
    CongResidues(a, b, m);
    DivModUnique(a, 0, a, m);
    DivModUnique(b, 0, b, m);
  }

  lemma CongWeaken(a: int, b: int, m: int, d: int)
    requires Cong(a, b, m) && Divides(d, m)
    ensures Cong(a, b, d)
  {
    DividesTrans(d, m, a - b);
  }

  // ---------- Powers ----------

  function Pow(b: int, e: nat): int {
    if e == 0 then 1 else b * Pow(b, e - 1)
  }

  lemma {:induction false} PowAdd(b: int, e: nat, f: nat)
    ensures Pow(b, e + f) == Pow(b, e) * Pow(b, f)
  {
    if e > 0 {
      PowAdd(b, e - 1, f);
      assert (e + f) - 1 == (e - 1) + f;
      assert b * (Pow(b, e - 1) * Pow(b, f)) == (b * Pow(b, e - 1)) * Pow(b, f);
    }
  }

  lemma {:induction false} PowMul(b: int, e: nat, f: nat)
    ensures e * f >= 0 && Pow(b, e * f) == Pow(Pow(b, e), f)
  {
    if f == 0 {
      assert e * f == 0;
    } else {
      PowMul(b, e, f - 1);
      assert e * f == e + e * (f - 1);
      PowAdd(b, e, e * (f - 1));
    }
  }

  lemma {:induction false} PowProduct(a: int, b: int, e: nat)
    ensures Pow(a * b, e) == Pow(a, e) * Pow(b, e)
  {
    if e > 0 {
      PowProduct(a, b, e - 1);
      Interchange(a, b, Pow(a, e - 1), Pow(b, e - 1));
    }
  }

  lemma {:induction false} PowOne(e: nat)
    ensures Pow(1, e) == 1
  {
    if e > 0 { PowOne(e - 1); }
  }

  lemma {:induction false} PowPositive(b: int, e: nat)
    requires b > 0
    ensures Pow(b, e) > 0
  {
    if e > 0 {
      PowPositive(b, e - 1);
      assert b * Pow(b, e - 1) > 0;
    }
  }

  lemma {:induction false} CongPow(a: int, b: int, e: nat, m: int)
    requires Cong(a, b, m)
    ensures Cong(Pow(a, e), Pow(b, e), m)
  {
    if e == 0 {
      CongRefl(1, m);
    } else {
      CongPow(a, b, e - 1, m);
      CongMul(a, b, Pow(a, e - 1), Pow(b, e - 1), m);
    }
  }

  // ---------- Greatest common divisors ----------

  function Gcd(a: nat, b: nat): nat
    decreases b
  {
    if b == 0 then a else Gcd(b, a % b)
  }

  lemma {:induction false} GcdDividesBoth(a: nat, b: nat)
    ensures Divides(Gcd(a, b), a) && Divides(Gcd(a, b), b)
    decreases b
  {
    if b == 0 {
      DividesSelf(a);
    } else {
      var g := Gcd(b, a % b);
      GcdDividesBoth(b, a % b);
      DividesMul(g, b, a / b);
      DividesAdd(g, (a / b) * b, a % b);
      assert a == (a / b) * b + a % b;
    }
  }

  /** Bezout coefficients for the greatest common divisor. */
  lemma {:induction false} Bezout(a: nat, b: nat) returns (x: int, y: int)
    ensures Gcd(a, b) == a * x + b * y
    decreases b
  {
    if b == 0 {
      x, y := 1, 0;
    } else {
      var u, v := Bezout(b, a % b);
      x, y := v, u - (a / b) * v;
      assert a % b == a - b * (a / b);
      assert b * u + (a - b * (a / b)) * v == a * v + b * (u - (a / b) * v);
    }
  }

  /** The greatest common divisor is the greatest in the divisibility order, hence unique. */
  lemma GcdGreatest(a: nat, b: nat, d: int)
    requires Divides(d, a) && Divides(d, b)
    ensures Divides(d, Gcd(a, b))
  {
    var x, y := Bezout(a, b);
    DividesMul(d, a, x);
    DividesMul(d, b, y);
    DividesAdd(d, a * x, b * y);
  }

  lemma GcdPositive(a: nat, b: nat)
    requires a > 0 || b > 0
    ensures Gcd(a, b) > 0
  {
    GcdDividesBoth(a, b);
    assert a == Gcd(a, b) * Quotient(Gcd(a, b), a);
    assert b == Gcd(a, b) * Quotient(Gcd(a, b), b);
  }

  lemma DividesAntisym(a: nat, b: nat)
    requires Divides(a, b) && Divides(b, a)
    ensures a == b
  {
    var k, l := Quotient(a, b), Quotient(b, a);
    assert b == a * k && a == b * l;
    if a > 0 && b > 0 {
      DividesBound(a, b);
      DividesBound(b, a);
    }
  }

  lemma GcdSym(a: nat, b: nat)
    ensures Gcd(a, b) == Gcd(b, a)
  {
    GcdDividesBoth(a, b);
    GcdDividesBoth(b, a);
    GcdGreatest(a, b, Gcd(b, a));
    GcdGreatest(b, a, Gcd(a, b));
    DividesAntisym(Gcd(a, b), Gcd(b, a));
  }

  /** Coprimality from a unit combination. */
  lemma CoprimeIntro(a: nat, b: nat, x: int, y: int)
    requires a * x + b * y == 1
    ensures Gcd(a, b) == 1
  {
    var g := Gcd(a, b);
    GcdDividesBoth(a, b);
    DividesMul(g, a, x);
    DividesMul(g, b, y);
    DividesAdd(g, a * x, b * y);
    DividesBound(g, 1);
    if a == 0 && b == 0 { assert false; }
    GcdPositive(a, b);
  }

  /** Euclid's lemma, for coprime numbers. */
  lemma CoprimeDivides(a: nat, b: nat, c: int)
    requires Gcd(a, b) == 1 && Divides(a, b * c)
    ensures Divides(a, c)
  {
    var x, y := Bezout(a, b);
    assert c == a * (x * c) + (b * c) * y by {
      assert (a * x + b * y) * c == a * (x * c) + (b * c) * y;
    }
    DividesIntro(a, x * c, a * (x * c));
    DividesMul(a, b * c, y);
    DividesAdd(a, a * (x * c), (b * c) * y);
  }

  lemma CoprimeProductDivides(a: nat, b: nat, c: int)
    requires Gcd(a, b) == 1 && Divides(a, c) && Divides(b, c)
    ensures Divides(a * b, c)
  {
    var k := Quotient(b, c);
    CoprimeDivides(a, b, k);
    var l := Quotient(a, k);
    Associate(a, b, l);
    DividesIntro(a * b, l, c);
  }

  lemma CoprimeProduct(a: nat, b: nat, c: nat)
    requires Gcd(a, c) == 1 && Gcd(b, c) == 1
    ensures Gcd(a * b, c) == 1
  {
    var x, y := Bezout(a, c);
    var u, v := Bezout(b, c);
    // b*u == 1 - c*v, so (a*b)*(x*u) == a*x - a*x*c*v == 1 - c*(y + a*x*v)
    Interchange(a, b, x, u);
    var s := a * x;
    assert s * (b * u) == s - c * (s * v) by {
      Distribute(s, 1, c * v);
      Associate(s, c, v);
    }
    Distribute(c, y, s * v);
    CoprimeIntro(a * b, c, x * u, y + s * v);
  }

  // ---------- Units ----------

  ghost predicate IsInverse(a: int, x: int, m: int) {
    Cong(a * x, 1, m)
  }

  ghost predicate Unit(a: int, m: int) {
    exists x: int :: IsInverse(a, x, m)
  }

  ghost function Inverse(a: int, m: int): (x: int)
    requires Unit(a, m)
    ensures IsInverse(a, x, m)
  {
    var x :| IsInverse(a, x, m);
    x
  }

  /** Invertible modulo m exactly when coprime to m. */
  lemma UnitCoprime(a: nat, m: nat)
    ensures Unit(a, m) <==> Gcd(a, m) == 1
  {
    if Unit(a, m) {
      var k := Quotient(m, a * Inverse(a, m) - 1);
      assert a * Inverse(a, m) + m * (-k) == 1;
      CoprimeIntro(a, m, Inverse(a, m), -k);
    }
    if Gcd(a, m) == 1 {
      var x, y := Bezout(a, m);
      CongIntro(a * x, 1, m, -y);
      assert IsInverse(a, x, m);
    }
  }

  lemma UnitProduct(a: int, b: int, m: int)
    requires Unit(a, m) && Unit(b, m)
    ensures Unit(a * b, m)
  {
    var x, y := Inverse(a, m), Inverse(b, m);
    CongMul(a * x, 1, b * y, 1, m);
    Interchange(a, b, x, y);
    assert IsInverse(a * b, x * y, m);
  }

  lemma {:induction false} UnitPow(a: int, e: nat, m: int)
    requires Unit(a, m)
    ensures Unit(Pow(a, e), m)
  {
    if e == 0 {
      CongRefl(1, m);
      assert IsInverse(1, 1, m);
    } else {
      UnitPow(a, e - 1, m);
      UnitProduct(a, Pow(a, e - 1), m);
    }
  }

  lemma UnitCong(a: int, b: int, m: int)
    requires Unit(a, m) && Cong(a, b, m)
    ensures Unit(b, m)
  {
    var x := Inverse(a, m);
    CongRefl(x, m);
    CongSym(a, b, m);
    CongMul(b, a, x, x, m);
    CongTrans(b * x, a * x, 1, m);
    assert IsInverse(b, x, m);
  }

  lemma UnitCancel(a: int, x: int, y: int, m: int)
    requires Unit(a, m) && Cong(a * x, a * y, m)
    ensures Cong(x, y, m)
  {
    var u := Inverse(a, m);
    CongRefl(u, m);
    CongMul(u, u, a * x, a * y, m);
    CancelOne(a, u, x, m);
    CancelOne(a, u, y, m);
    CongSym(u * (a * x), x, m);
    CongTrans(x, u * (a * x), u * (a * y), m);
    CongTrans(x, u * (a * y), y, m);
  }

  lemma CancelOne(a: int, u: int, x: int, m: int)
    requires IsInverse(a, u, m)
    ensures Cong(u * (a * x), x, m)
  {
    CongRefl(x, m);
    CongMul(a * u, 1, x, x, m);
    Associate(a, u, x);
  }

  // ---------- Primes ----------

  ghost predicate Prime(p: nat) {
    p >= 2 && forall d: nat :: Divides(d, p) ==> d == 1 || d == p
  }

  lemma PrimeCoprime(p: nat, a: nat)
    requires Prime(p)
    ensures Gcd(p, a) == 1 <==> !Divides(p, a)
    ensures Gcd(a, p) == 1 <==> !Divides(p, a)
  {
    var g := Gcd(p, a);
    GcdDividesBoth(p, a);
    GcdSym(a, p);
    if g == 1 && Divides(p, a) {
      DividesSelf(p);
      GcdGreatest(p, a, p);
      DividesBound(p, 1);
    }
  }

  lemma PrimeDividesProduct(p: nat, a: int, b: int)
    requires Prime(p) && Divides(p, a * b)
    ensures Divides(p, a) || Divides(p, b)
  {
    var c: nat := if a < 0 then -a else a;
    if a < 0 {
      DividesMul(p, a * b, -1);
      assert (a * b) * -1 == c * b;
    }
    PrimeCoprime(p, c);
    if Divides(p, c) {
      if a < 0 { DividesMul(p, c, -1); }
    } else {
      CoprimeDivides(p, c, b);
    }
  }

  lemma DistinctPrimesCoprime(p: nat, q: nat)
    requires Prime(p) && Prime(q) && p != q
    ensures Gcd(p, q) == 1
  {
    PrimeCoprime(p, q);
    if Divides(p, q) { assert false; }
  }

  /** The only square roots of 1 modulo a prime are 1 and -1. */
  lemma PrimeSquareRoots(p: nat, x: int)
    requires Prime(p) && Cong(x * x, 1, p)
    ensures Cong(x, 1, p) || Cong(x, -1, p)
  {
    assert x * x - 1 == (x + 1) * (x - 1);
    PrimeDividesProduct(p, x + 1, x - 1);
    assert x + 1 == x - (-1);
  }

  // ---------- Trial division ----------

  /** Without a divisor up to b, whose successor's square is larger, a number is prime. */
  lemma PrimeByTrial(p: nat, b: nat)
    requires 2 <= p < (b + 1) * (b + 1)
    requires forall d: nat :: 2 <= d <= b ==> p % d != 0
    ensures Prime(p)
  {
    forall d: nat | Divides(d, p)
      ensures d == 1 || d == p
    {
      var k := Quotient(d, p);
      Factors(p, d, k, b);
      if 2 <= d <= b {
        DividesMod(d, p);
      }
      if 2 <= k <= b {
        DividesIntro(k, d, p);
        DividesMod(k, p);
      }
    }
  }

  lemma Factors(p: nat, d: nat, k: int, b: nat)
    requires p > 0 && p == d * k && p < (b + 1) * (b + 1)
    ensures d > 0 && k > 0 && (d <= b || k <= b) && (k == 1 ==> d == p)
  {
    assert k <= 0 ==> d * k <= 0;
    LargeProduct(d, k, b + 1);
  }

  lemma LargeProduct(d: nat, k: int, m: nat)
    ensures d >= m && k >= m ==> d * k >= m * m
  {
    if d >= m && k >= m {
      Distribute(k, d, m);
      Distribute(m, k, m);
      assert (d - m) * k >= 0;
      assert m * (k - m) >= 0;
    }
  }
}
