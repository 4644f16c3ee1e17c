/** The extended Euclidean inverse of the voting service. The code adds the modulus at most once, so
    its correctness needs the classical bound on the size of the Bezout coefficients. */
module ModularInverse {
  import opened NumberTheory
  import opened VotingArithmetic
  import opened Results

  predicate Opposite(x: int, y: int) {
    (x >= 0 && y <= 0) || (x <= 0 && y >= 0)
  }

  /** The state of the loop after its first round: both coefficients track their remainders, their
      signs alternate, and together with the remainders they add up to exactly the modulus. */
  ghost predicate Tracking(a: int, m0: int, a0: int, m: int, x0: int, x1: int) {
    && 0 <= m < a0 && m0 > 1
    && Cong(a * x1, a0, m0) && Cong(a * x0, m, m0)
    && Abs(x0) * a0 + Abs(x1) * m == m0
    && Abs(x1) <= Abs(x0)
    && Opposite(x0, x1)
  }

  lemma FirstRound(a: int, m0: int)
    requires a > 1 && m0 > 1
    ensures Tracking(a, m0, m0, a % m0, 1, 0)
  {
    CongMod(a, m0);
    CongIntro(a * 0, m0, m0, -1);
    assert Cong(a * 1, a % m0, m0);
  }

  lemma NextRound(a: int, m0: int, a0: int, m: int, x0: int, x1: int)
    requires Tracking(a, m0, a0, m, x0, x1) && m > 0
    ensures Tracking(a, m0, m, a0 % m, x1 - (a0 / m) * x0, x0)
  {
    var q := a0 / m;
    assert q >= 1 by { QuotientPositive(a0, m); }
    CoefficientSize(q, x0, x1);
    WeightedSum(Abs(x0), Abs(x1), q, m, a0 % m);
    assert a0 == q * m + a0 % m;
    NextCongruence(a, m0, a0, m, x0, x1, q);
  }

  lemma QuotientPositive(a0: int, m: int)
    requires a0 > m > 0
    ensures a0 / m >= 1
  {
    var q, r := a0 / m, a0 % m;
    assert a0 == m * q + r;
    assert q <= 0 ==> m * q <= 0;
  }

  lemma WeightedSum(u: int, v: int, q: int, m: int, r: int)
    ensures (v + q * u) * m + u * r == u * (q * m + r) + v * m
  {
    Distribute(m, v, q * u);
    Distribute(u, q * m, r);
    Associate(q, u, m);
    Associate(u, q, m);
  }

  lemma NextCongruence(a: int, m0: int, a0: int, m: int, x0: int, x1: int, q: int)
    requires Cong(a * x1, a0, m0) && Cong(a * x0, m, m0) && m > 0 && q == a0 / m
    ensures Cong(a * (x1 - q * x0), a0 % m, m0)
  {
    CongRefl(q, m0);
    CongMul(q, q, a * x0, m, m0);
    CongAdd(a * x1, a0, q * (a * x0), q * m, m0);
    Distribute(a, x1, q * x0);
    Associate(a, q, x0);
    assert a0 - q * m == a0 % m;
  }

  lemma CoefficientSize(q: int, x0: int, x1: int)
    requires q >= 1 && Opposite(x0, x1)
    ensures var y := x1 - q * x0;
            && Abs(y) == Abs(x1) + q * Abs(x0)
            && Abs(x0) <= Abs(y)
            && Opposite(y, x0)
  {
    assert q * Abs(x0) >= Abs(x0);
    assert x0 >= 0 ==> q * x0 == q * Abs(x0);
    assert x0 <= 0 ==> q * x0 == -(q * Abs(x0));
  }

  /** At the end one conditional addition of the modulus brings the coefficient into range. */
  lemma FinalCoefficient(a: int, m0: int, m: int, x0: int, x1: int)
    requires Tracking(a, m0, 1, m, x0, x1)
    ensures var x := if x1 < 0 then x1 + m0 else x1;
            0 < x < m0 && IsInverse(a, x, m0)
  {
    assert Abs(x1) <= m0;
    if x1 == 0 || Abs(x1) == m0 {
      NotOneMultiple(a, x1, m0);
    }
    if x1 < 0 {
      CongIntro(a * (x1 + m0), a * x1, m0, a);
      CongTrans(a * (x1 + m0), a * x1, 1, m0);
    }
  }

  lemma NotOneMultiple(a: int, x: int, m: int)
    requires m > 1 && (x == 0 || Abs(x) == m)
    ensures !Cong(a * x, 1, m)
  {
    var s := if x == 0 then 0 else if x > 0 then 1 else -1;
    assert x == m * s;
    if Cong(a * x, 1, m) {
      Associate(a, m, s);
      CongIntro(a * x, 0, m, a * s);
      CongSym(a * x, 0, m);
      CongTrans(0, a * x, 1, m);
      CongUnique(0, 1, m);
    }
  }

  /** For a > 0 and modulus m > 1 the result is the inverse in range, or a division by zero when there
      is none. */
  method ModInverse(a: int, modulus: int) returns (r: Result<int, ArithmeticError>)
    ensures modulus == 1 ==> r == Ok(0)
    ensures modulus != 1 && a <= 1 ==> r == Ok(1)
    ensures modulus > 1 && a > 1 && Gcd(a, modulus) == 1 ==>
              r.Ok? && 0 < r.value < modulus && IsInverse(a, r.value, modulus)
    ensures modulus > 1 && a > 1 && Gcd(a, modulus) != 1 ==> r == Err(DivisionByZero)
    ensures modulus == 0 && a > 1 ==> r == Err(DivisionByZero)
    ensures modulus < 0 && a > 1 ==> r == Ok(0)
  {
    if modulus == 1 { return Ok(0); }
    var m, m0, x0, x1, a0 := modulus, modulus, 0, 1, a;
    ghost var started := false;
    while a0 > 1
      invariant !started ==> m == modulus && x0 == 0 && x1 == 1 && a0 == a
      invariant started ==> a > 1 && modulus != 0
      invariant started && modulus > 1 ==> Tracking(a, m0, a0, m, x0, x1) && Gcd(a0, m) == Gcd(a, m0)
      invariant started && modulus < 0 ==> a0 < 0 && x1 == 0
      decreases Abs(m)
    {
      if m == 0 { return Err(DivisionByZero); }
      var q := Quo(a0, m);
      if modulus > 1 {
        if started {
          NextRound(a, m0, a0, m, x0, x1);
        } else {
          FirstRound(a, m0);
        }
      }
      RemCong(a0, m);
      a0, m, x0, x1 := m, Rem(a0, m), x1 - q * x0, x0;
      started := true;
    }
    if started && modulus > 1 {
      FinalCoefficient(a, m0, m, x0, x1);
    }
    if x1 < 0 { x1 := x1 + m0; }
    return Ok(x1);
  }

  /** Zero and negative arguments never enter the loop and always give 1. That is an inverse exactly
      when the argument is congruent to 1, so the function is only an inverse for positive arguments. */
  lemma NonPositiveArgument(a: int, m: int)
    requires a <= 0 && m > 1
    ensures IsInverse(a, 1, m) <==> a % m == 1
  {
    CongResidues(a * 1, 1, m);
    DivModUnique(1, 0, 1, m);
  }

  /** -1 is its own inverse modulo 3, but the result 1 is not. */
  lemma NegativeArgumentExample()
    ensures Unit(-1, 3) && !IsInverse(-1, 1, 3)
  {
    CongRefl(1, 3);
    assert IsInverse(-1, -1, 3);
    NonPositiveArgument(-1, 3);
  }

  /** The range pins the result down: there is one inverse between 0 and m. */
  lemma InverseUnique(a: int, x: int, y: int, m: int)
    requires 0 < x < m && 0 < y < m && IsInverse(a, x, m) && IsInverse(a, y, m)
    ensures x == y
  {
    CongSym(a * y, 1, m);
    CongTrans(a * x, 1, a * y, m);
    UnitCancel(a, x, y, m);
    CongUnique(x, y, m);
  }
}
