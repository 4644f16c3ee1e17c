/** Fermat's little theorem, through the binomial theorem modulo a prime, and the lift of a
    congruence modulo p to its p-th power modulo p * p. */
module Fermat {
  import opened NumberTheory

  function Choose(n: nat, k: nat): nat {
    if k == 0 then 1
    else if n == 0 then 0
    else Choose(n - 1, k - 1) + Choose(n - 1, k)
  }

  /** The terms of (1 + a)^n below degree k. */
  function BinomialSum(a: int, n: nat, k: nat): int {
    if k == 0 then 0 else BinomialSum(a, n, k - 1) + Choose(n, k - 1) * Pow(a, k - 1)
  }

  lemma {:induction false} ChooseBeyond(n: nat, k: nat)
    requires k > n
    ensures Choose(n, k) == 0
  {
    if n > 0 {
      ChooseBeyond(n - 1, k - 1);
      ChooseBeyond(n - 1, k);
    }
  }

  lemma {:induction false} ChooseAll(n: nat)
    ensures Choose(n, n) == 1
  {
    if n > 0 {
      ChooseAll(n - 1);
      ChooseBeyond(n - 1, n);
    }
  }

  lemma PascalTerm(a: int, n: nat, k: nat)
    requires k > 0
    ensures Choose(n + 1, k) * Pow(a, k) == Choose(n, k) * Pow(a, k) + a * (Choose(n, k - 1) * Pow(a, k - 1))
  {
    var u, v, w := Choose(n, k - 1), Choose(n, k), Pow(a, k - 1);
    Distribute(a * w, u, v);
    Associate(u, a, w);
    Associate(a, u, w);
  }

  lemma {:induction false} PascalStep(a: int, n: nat, k: nat)
    ensures BinomialSum(a, n + 1, k + 1) == BinomialSum(a, n, k + 1) + a * BinomialSum(a, n, k)
  {
    if k > 0 {
      PascalStep(a, n, k - 1);
      PascalTerm(a, n, k);
      Distribute(a, BinomialSum(a, n, k - 1), Choose(n, k - 1) * Pow(a, k - 1));
    }
  }

  lemma BinomialSumEnd(a: int, n: nat)
    ensures BinomialSum(a, n, n + 2) == BinomialSum(a, n, n + 1)
  {
    ChooseBeyond(n, n + 1);
    assert 0 * Pow(a, n + 1) == 0;
  }

  lemma {:induction false} BinomialTheorem(a: int, n: nat)
    ensures Pow(1 + a, n) == BinomialSum(a, n, n + 1)
  {
    if n > 0 {
      var p := Pow(1 + a, n - 1);
      assert Pow(1 + a, n) == (1 + a) * p;
      hide Pow, BinomialSum, Choose;
      BinomialTheorem(a, n - 1);
      PascalStep(a, n - 1, n);
      BinomialSumEnd(a, n - 1);
      Distribute(p, 1, a);
    } else {
      assert BinomialSum(a, 0, 1) == BinomialSum(a, 0, 0) + Choose(0, 0) * Pow(a, 0);
    }
  }

  lemma {:induction false} ChooseAbsorb(n: nat, k: nat)
    requires n > 0 && k > 0
    ensures k * Choose(n, k) == n * Choose(n - 1, k - 1)
  {
    if n == 1 {
      if k > 1 {
        ChooseBeyond(1, k);
        ChooseBeyond(0, k - 1);
      }
    } else {
      ChooseAbsorb(n - 1, k);
      var u, v := Choose(n - 1, k - 1), Choose(n - 1, k);
      Distribute(k, u, v);
      if k > 1 {
        ChooseAbsorb(n - 1, k - 1);
        Distribute(n - 1, Choose(n - 2, k - 2), Choose(n - 2, k - 1));
        Distribute(u, k - 1, 1);
        Distribute(u, n - 1, 1);
      }
    }
  }

  lemma PrimeDividesChoose(p: nat, k: nat)
    requires Prime(p) && 0 < k < p
    ensures Divides(p, Choose(p, k))
  {
    ChooseAbsorb(p, k);
    DividesIntro(p, Choose(p - 1, k - 1), k * Choose(p, k));
    PrimeDividesProduct(p, k, Choose(p, k));
    if Divides(p, k) { DividesBound(p, k); }
  }

  lemma {:induction false} MiddleTermsVanish(a: int, p: nat, k: nat)
    requires Prime(p) && 1 <= k <= p
    ensures Cong(BinomialSum(a, p, k), 1, p)
  {
    if k == 1 {
      assert BinomialSum(a, p, 1) == BinomialSum(a, p, 0) + Choose(p, 0) * Pow(a, 0) == 1;
      CongRefl(1, p);
    } else {
      MiddleTermsVanish(a, p, k - 1);
      PrimeDividesChoose(p, k - 1);
      DividesMul(p, Choose(p, k - 1), Pow(a, k - 1));
      var t := Choose(p, k - 1) * Pow(a, k - 1);
      assert Divides(p, t - 0);
      CongAdd(BinomialSum(a, p, k - 1), 1, t, 0, p);
    }
  }

  /** The p-th power map is additive modulo p. */
  lemma FreshmansDream(a: int, p: nat)
    requires Prime(p)
    ensures Cong(Pow(1 + a, p), 1 + Pow(a, p), p)
  {
    BinomialTheorem(a, p);
    MiddleTermsVanish(a, p, p);
    ChooseAll(p);
    CongRefl(Pow(a, p), p);
    assert BinomialSum(a, p, p + 1) == BinomialSum(a, p, p) + Choose(p, p) * Pow(a, p);
    CongAdd(BinomialSum(a, p, p), 1, Pow(a, p), Pow(a, p), p);
  }

  lemma {:induction false} PowZero(e: nat)
    requires e > 0
    ensures Pow(0, e) == 0
  {
    assert Pow(0, e) == 0 * Pow(0, e - 1);
  }

  lemma {:induction false} FermatNat(a: nat, p: nat)
    requires Prime(p)
    ensures Cong(Pow(a, p), a, p)
  {
    if a == 0 {
      PowZero(p);
      CongRefl(0, p);
    } else {
      FermatNat(a - 1, p);
      FreshmansDream(a - 1, p);
      CongRefl(1, p);
      CongAdd(1, 1, Pow(a - 1, p), a - 1, p);
      CongTrans(Pow(a, p), 1 + Pow(a - 1, p), a, p);
    }
  }

  /** Fermat's little theorem. */
  lemma FermatLittle(a: int, p: nat)
    requires Prime(p) && !Divides(p, a)
    ensures Cong(Pow(a, p - 1), 1, p)
  {
    var b := a % p;
    CongMod(a, p);
    CongPow(b, a, p - 1, p);
    FermatNat(b, p);
    assert Pow(b, p) == b * Pow(b, p - 1);
    PrimeCoprime(p, b);
    assert b + (a - b) == a;
    if Divides(p, b) { DividesAdd(p, b, a - b); }
    CongRefl(b, p);
    assert Cong(b * Pow(b, p - 1), b * 1, p);
    UnitCoprime(b, p);
    UnitCancel(b, Pow(b, p - 1), 1, p);
    CongSym(Pow(b, p - 1), Pow(a, p - 1), p);
    CongTrans(Pow(a, p - 1), Pow(b, p - 1), 1, p);
  }

  // ---------- Lifting to the square of the modulus ----------

  /** 1 + x + ... + x^(n-1) */
  function GeometricSum(x: int, n: nat): int {
    if n == 0 then 0 else GeometricSum(x, n - 1) + Pow(x, n - 1)
  }

  lemma {:induction false} GeometricFactor(x: int, n: nat)
    ensures Pow(x, n) - 1 == (x - 1) * GeometricSum(x, n)
  {
    if n > 0 {
      GeometricFactor(x, n - 1);
      Distribute(x - 1, GeometricSum(x, n - 1), Pow(x, n - 1));
      Distribute(Pow(x, n - 1), x, 1);
    }
  }

  lemma {:induction false} GeometricCount(x: int, n: nat, m: int)
    requires Cong(x, 1, m)
    ensures Cong(GeometricSum(x, n), n, m)
  {
    if n == 0 {
      CongRefl(0, m);
    } else {
      GeometricCount(x, n - 1, m);
      CongPow(x, 1, n - 1, m);
      PowOne(n - 1);
      CongAdd(GeometricSum(x, n - 1), n - 1, Pow(x, n - 1), 1, m);
    }
  }

  /** A power that is 1 modulo m has its m-th power equal to 1 modulo m * m. */
  lemma LiftToSquare(x: int, m: nat)
    requires Cong(x, 1, m)
    ensures Cong(Pow(x, m), 1, m * m)
  {
    GeometricFactor(x, m);
    GeometricCount(x, m, m);
    var s := GeometricSum(x, m);
    DividesSelf(m);
    DividesAdd(m, s - m, m);
    assert (s - m) + m == s;
    var k, l := Quotient(m, x - 1), Quotient(m, s);
    Interchange(m, k, m, l);
    DividesIntro(m * m, k * l, Pow(x, m) - 1);
  }
}
