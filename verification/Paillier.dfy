/** The Paillier scheme with g = n + 1, as the voting keys use it (section 4 of Paillier's EUROCRYPT '99
    paper). Encrypt, Add, Multiply and Decrypt are the textbook definitions of the paillier-bigint
    package; the key arithmetic is the library's own. */
module Paillier {
  import opened NumberTheory
  import opened Fermat
  import opened VotingArithmetic
  import opened ModularInverse
  import opened Results

  datatype PublicKey = PublicKey(n: nat, g: nat)
  datatype PrivateKey = PrivateKey(lambda: nat, mu: nat, n: nat)
  datatype KeyPair = KeyPair(publicKey: PublicKey, privateKey: PrivateKey)
  datatype KeyError = IdenticalPrimes | PrimesTooClose | DegeneratePair | ValidationFailed

  // ---------- The scheme ----------

  function Add(pk: PublicKey, c1: nat, c2: nat): (c: nat)
    requires pk.n > 0
  {
    (c1 * c2) % (pk.n * pk.n)
  }

  /** A negative power is the inverse of the positive one; without an inverse there is none. */
  function Multiply(pk: PublicKey, c: nat, k: int): (d: Option<nat>)
    requires pk.n > 0
  {
    NaturalPower(c, if k < 0 then -k else k);
    if k >= 0 then Some(Pow(c, k) % (pk.n * pk.n)) else InverseModulo(Pow(c, -k), pk.n * pk.n)
  }

  /** g^m * r^n, for messages of either sign */
  function Encrypt(pk: PublicKey, m: int, r: nat): (c: Option<nat>)
    requires pk.n > 0
  {
    var power := Multiply(pk, pk.g, m);
    if power.None? then None else Some(Add(pk, power.value, Blinding(pk, r)))
  }

  /** r^n */
  function Blinding(pk: PublicKey, r: nat): nat
    requires pk.n > 0
  {
    NaturalPower(r, pk.n);
    Pow(r, pk.n) % (pk.n * pk.n)
  }

  predicate InverseAt(a: nat, x: nat, m: nat)
    requires m > 0
  {
    (a * x) % m == 1 % m
  }

  /** The inverse between 0 and m, if there is one. */
  function InverseModulo(a: nat, m: nat): (r: Option<nat>)
    requires m > 0
    ensures r.Some? ==> r.value < m && IsInverse(a, r.value, m)
    ensures r.None? ==> !Unit(a, m)
  {
    InverseInRange(a, m);
    if exists x :: 0 <= x < m && InverseAt(a, x, m) then
      OnlyInverse(a, m);
      var x :| 0 <= x < m && InverseAt(a, x, m);
      Some(x)
    else None
  }

  lemma InverseInRange(a: nat, m: nat)
    requires m > 0
    ensures Unit(a, m) ==> exists x :: 0 <= x < m && InverseAt(a, x, m)
    ensures forall x :: 0 <= x < m && InverseAt(a, x, m) ==> IsInverse(a, x, m)
  {
    forall x | 0 <= x < m && InverseAt(a, x, m)
      ensures IsInverse(a, x, m)
    {
      CongResidues(a * x, 1, m);
    }
    if Unit(a, m) {
      var y := Inverse(a, m);
      var x := y % m;
      CongMod(y, m);
      CongRefl(a, m);
      CongMul(a, a, x, y, m);
      CongTrans(a * x, a * y, 1, m);
      CongResidues(a * x, 1, m);
      assert InverseAt(a, x, m);
    }
  }

  lemma OnlyInverse(a: nat, m: nat)
    requires m > 0
    ensures forall x, y :: 0 <= x < m && 0 <= y < m && InverseAt(a, x, m) && InverseAt(a, y, m) ==> x == y
  {
    InverseInRange(a, m);
    forall x, y | 0 <= x < m && 0 <= y < m && InverseAt(a, x, m) && InverseAt(a, y, m)
      ensures x == y
    {
      if x > 0 && y > 0 {
        InverseUnique(a, x, y, m);
      } else {
        assert a * 0 == 0;
      }
    }
  }

  /** L(x) = (x - 1) / n */
  function L(x: int, n: nat): int
    requires n > 0
  {
    Quo(x - 1, n)
  }

  function Decrypt(sk: PrivateKey, c: nat): (m: nat)
    requires sk.n > 0
  {
    (L(Pow(c, sk.lambda) % (sk.n * sk.n), sk.n) * sk.mu) % sk.n
  }

  // ---------- Powers of g = n + 1 ----------

  /** (1 + n)^m is 1 + m * n modulo n * n. */
  lemma {:induction false} GeneratorPower(n: nat, m: nat)
    ensures Cong(Pow(1 + n, m), 1 + m * n, n * n)
  {
    if m == 0 {
      CongRefl(1, n * n);
    } else {
      GeneratorPower(n, m - 1);
      var t := 1 + (m - 1) * n;
      CongRefl(1 + n, n * n);
      CongMul(1 + n, 1 + n, Pow(1 + n, m - 1), t, n * n);
      GeneratorStep(n, m);
      CongIntro((1 + n) * t, 1 + m * n, n * n, m - 1);
      CongTrans(Pow(1 + n, m), (1 + n) * t, 1 + m * n, n * n);
    }
  }

  lemma GeneratorStep(n: int, m: int)
    ensures (1 + n) * (1 + (m - 1) * n) == 1 + m * n + (n * n) * (m - 1)
  {
    var u := (m - 1) * n;
    Distribute(1 + u, 1, n);
    Associate(n, m - 1, n);
    Distribute(n, m, 1);
    assert (1 + n) * (1 + u) == 1 + u + n + n * u;
  }

  lemma ReduceExponent(n: nat, m: nat)
    requires n > 0
    ensures Cong(1 + m * n, 1 + (m % n) * n, n * n)
  {
    var q, k := m / n, m % n;
    Distribute(n, n * q, k);
    Associate(n, n, q);
    CongIntro(1 + m * n, 1 + k * n, n * n, q);
  }

  lemma NonNegativeProduct(a: nat, b: nat)
    ensures a * b >= 0
  {
  }

  lemma BelowSquare(n: nat, k: nat)
    requires k < n
    ensures 0 <= k * n <= n * n - n
  {
    Distribute(n, n, 1 + k);
    Distribute(n, 1, k);
    NonNegativeProduct(n, n - 1 - k);
    NonNegativeProduct(n, k);
  }

  lemma SmallLogarithm(n: nat, k: nat)
    requires k < n
    ensures 0 <= 1 + k * n <= n * n && (n > 1 ==> 1 + k * n < n * n) && L(1 + k * n, n) == k
  {
    BelowSquare(n, k);
    ExactQuotient(n * k, n, k);
  }

  /** L recovers the exponent of g, reduced modulo n. */
  lemma LogarithmOfGenerator(n: nat, x: nat, m: nat)
    requires n > 1 && Cong(x, 1 + m * n, n * n)
    ensures L(x % (n * n), n) == m % n
  {
    var k, nn := m % n, n * n;
    ReduceExponent(n, m);
    SmallLogarithm(n, k);
    CongTrans(x, 1 + m * n, 1 + k * n, nn);
    CongMod(x, nn);
    CongTrans(x % nn, x, 1 + k * n, nn);
    CongUnique(x % nn, 1 + k * n, nn);
  }

  // ---------- The randomness disappears ----------

  lemma PowerOfOrder(r: int, p: nat, lambda: nat)
    requires Prime(p) && !Divides(p, r) && Divides(p - 1, lambda) && lambda > 0
    ensures Cong(Pow(r, lambda), 1, p)
  {
    var k := Quotient(p - 1, lambda);
    assert k >= 0 by { assert k < 0 ==> (p - 1) * k < 0; }
    FermatLittle(r, p);
    CongPow(Pow(r, p - 1), 1, k, p);
    PowMul(r, p - 1, k);
    PowOne(k);
  }

  /** Modulo the square of one prime factor. */
  lemma VanishesModuloSquare(x: int, p: nat, q: nat)
    requires Cong(x, 1, p)
    ensures p * q >= 0 && Cong(Pow(x, p * q), 1, p * p)
  {
    LiftToSquare(x, p);
    PowMul(x, p, q);
    CongPow(Pow(x, p), 1, q, p * p);
    PowOne(q);
  }

  /** For distinct primes p, q with n = p * q, every unit's n * lambda-th power is 1 modulo n * n. */
  lemma RandomnessVanishes(p: nat, q: nat, r: int, lambda: nat)
    requires Prime(p) && Prime(q) && p != q && lambda > 0
    requires Divides(p - 1, lambda) && Divides(q - 1, lambda) && Unit(r, p * q)
    ensures p * q > 0 && Cong(Pow(Pow(r, lambda), p * q), 1, (p * q) * (p * q))
  {
    var x := Pow(r, lambda);
    UnitAvoidsFactor(r, p, q);
    UnitAvoidsFactor(r, q, p);
    PowerOfOrder(r, p, lambda);
    PowerOfOrder(r, q, lambda);
    VanishesModuloSquare(x, p, q);
    VanishesModuloSquare(x, q, p);
    assert q * p == p * q;
    DistinctPrimesCoprime(p, q);
    CoprimeSquares(p, q);
    CoprimeProductDivides(p * p, q * q, Pow(x, p * q) - 1);
    Interchange(p, p, q, q);
  }

  lemma CoprimeSquares(p: nat, q: nat)
    requires Gcd(p, q) == 1
    ensures Gcd(p * p, q * q) == 1
  {
    hide Gcd;
    CoprimeProduct(p, p, q);
    GcdSym(p * p, q);
    CoprimeProduct(q, q, p * p);
    GcdSym(q * q, p * p);
  }

  lemma UnitAvoidsFactor(r: int, p: nat, q: nat)
    requires Prime(p) && Unit(r, p * q)
    ensures !Divides(p, r)
  {
    if Divides(p, r) {
      var x := Inverse(r, p * q);
      DividesMul(p, r, x);
      DividesIntro(p, q, p * q);
      DividesTrans(p, p * q, r * x - 1);
      DividesAdd(p, r * x, r * x - 1);
      DividesBound(p, 1);
    }
  }

  // ---------- Decryption ----------

  /** c is an encryption of m under g = n + 1 with some invertible randomness; only the residue of m matters. */
  ghost predicate EncryptionOf(c: int, m: int, n: nat) {
    n > 0 && exists r: int :: IsEncryption(c, m % n, r, n)
  }

  ghost predicate IsEncryption(c: int, m: nat, r: int, n: nat) {
    Unit(r, n) && Cong(c, Pow(1 + n, m) * Pow(r, n), n * n)
  }

  /** What the library's key generation establishes for its primes. */
  ghost predicate KeysFor(p: nat, q: nat, keys: KeyPair) {
    var n, lambda := keys.publicKey.n, keys.privateKey.lambda;
    && p > 1 && q > 1 && n == p * q && keys.publicKey.g == n + 1 && keys.privateKey.n == n
    && Lcm(p - 1, q - 1) == Ok(lambda) && 0 < lambda < n
    && 0 < keys.privateKey.mu < n && IsInverse(lambda, keys.privateKey.mu, n)
  }

  lemma PowerOfEncryption(c: int, m: nat, r: int, n: nat, lambda: nat)
    requires IsEncryption(c, m, r, n) && n > 1
    requires Cong(Pow(Pow(r, lambda), n), 1, n * n)
    ensures m * lambda >= 0 && Cong(Pow(c, lambda), 1 + (m * lambda) * n, n * n)
  {
    var nn := n * n;
    CongPow(c, Pow(1 + n, m) * Pow(r, n), lambda, nn);
    PowProduct(Pow(1 + n, m), Pow(r, n), lambda);
    PowMul(1 + n, m, lambda);
    PowMul(r, n, lambda);
    PowMul(r, lambda, n);
    assert lambda * n == n * lambda;
    GeneratorPower(n, m * lambda);
    CongMul(Pow(1 + n, m * lambda), 1 + (m * lambda) * n, Pow(Pow(r, lambda), n), 1, nn);
    CongTrans(Pow(c, lambda), Pow(1 + n, m * lambda) * Pow(Pow(r, lambda), n), 1 + (m * lambda) * n, nn);
  }

  lemma MuCancelsLambda(m: nat, lambda: nat, mu: nat, n: nat)
    requires n > 0 && IsInverse(lambda, mu, n)
    ensures ((m * lambda) % n * mu) % n == m % n
  {
    CongMod(m * lambda, n);
    CongRefl(mu, n);
    CongMul((m * lambda) % n, m * lambda, mu, mu, n);
    CongRefl(m, n);
    CongMul(m, m, lambda * mu, 1, n);
    Associate(m, lambda, mu);
    CongTrans((m * lambda) % n * mu, m * (lambda * mu), m, n);
    CongResidues((m * lambda) % n * mu, m, n);
  }

  lemma DecryptWithVanishing(sk: PrivateKey, c: nat, m: nat, r: int)
    requires sk.n > 1 && IsInverse(sk.lambda, sk.mu, sk.n) && IsEncryption(c, m, r, sk.n)
    requires Cong(Pow(Pow(r, sk.lambda), sk.n), 1, sk.n * sk.n)
    ensures Decrypt(sk, c) == m % sk.n
  {
    PowerOfEncryption(c, m, r, sk.n, sk.lambda);
    NaturalPower(c, sk.lambda);
    LogarithmOfGenerator(sk.n, Pow(c, sk.lambda), m * sk.lambda);
    MuCancelsLambda(m, sk.lambda, sk.mu, sk.n);
  }

  lemma LambdaIsMultiple(a: nat, b: nat, lambda: nat)
    requires a > 0 && Lcm(a, b) == Ok(lambda)
    ensures Divides(a, lambda) && Divides(b, lambda)
  {
    LcmLeast(a, b);
  }

  lemma ProductExceedsOne(p: nat, q: nat)
    requires p > 1 && q > 1
    ensures p * q > 1
  {
  }

  lemma KeyFacts(p: nat, q: nat, keys: KeyPair)
    requires KeysFor(p, q, keys)
    ensures var sk := keys.privateKey;
            && sk.n == keys.publicKey.n == p * q && sk.n > 1
            && sk.lambda > 0 && IsInverse(sk.lambda, sk.mu, sk.n)
            && Divides(p - 1, sk.lambda) && Divides(q - 1, sk.lambda)
  {
    LambdaIsMultiple(p - 1, q - 1, keys.privateKey.lambda);
    ProductExceedsOne(p, q);
  }

  /** Decryption inverts encryption for every message and every invertible randomness. */
  lemma DecryptionCorrect(p: nat, q: nat, keys: KeyPair, c: nat, m: int)
    requires Prime(p) && Prime(q) && p != q && KeysFor(p, q, keys)
    requires EncryptionOf(c, m, keys.publicKey.n)
    ensures keys.publicKey.n > 0 && Decrypt(keys.privateKey, c) == m % keys.publicKey.n
  {
    KeyFacts(p, q, keys);
    var sk := keys.privateKey;
    var k := m % sk.n;
    var r :| IsEncryption(c, k, r, sk.n);
    RandomnessVanishes(p, q, r, sk.lambda);
    DecryptWithVanishing(sk, c, k, r);
    DivModUnique(k, 0, k, sk.n);
  }

  lemma {:induction false} NaturalPower(c: nat, e: nat)
    ensures Pow(c, e) >= 0
  {
    if e > 0 { NaturalPower(c, e - 1); }
  }

  // ---------- Homomorphism ----------

  /** An exponent of g may be reduced modulo n. */
  lemma ReducedEncryption(c: int, k: nat, r: int, n: nat, m: int)
    requires n > 0 && IsEncryption(c, k, r, n) && Cong(k, m, n)
    ensures EncryptionOf(c, m, n)
  {
    var nn, b := n * n, Pow(r, n);
    CongResidues(k, m, n);
    var l := m % n;
    GeneratorPower(n, k);
    ReduceExponent(n, k);
    GeneratorPower(n, l);
    CongSym(Pow(1 + n, l), 1 + l * n, nn);
    CongTrans(Pow(1 + n, k), 1 + k * n, 1 + l * n, nn);
    CongTrans(Pow(1 + n, k), 1 + l * n, Pow(1 + n, l), nn);
    CongRefl(b, nn);
    CongMul(Pow(1 + n, k), Pow(1 + n, l), b, b, nn);
    CongTrans(c, Pow(1 + n, k) * b, Pow(1 + n, l) * b, nn);
    assert IsEncryption(c, l, r, n);
  }

  lemma AddIsEncryption(n: nat, c1: nat, m1: int, c2: nat, m2: int)
    requires n > 0 && EncryptionOf(c1, m1, n) && EncryptionOf(c2, m2, n)
    ensures EncryptionOf(Add(PublicKey(n, n + 1), c1, c2), m1 + m2, n)
  {
    var nn, k1, k2 := n * n, m1 % n, m2 % n;
    var r1 :| IsEncryption(c1, k1, r1, n);
    var r2 :| IsEncryption(c2, k2, r2, n);
    ProductOfEncryptions(n, c1, k1, r1, c2, k2, r2);
    CongMod(c1 * c2, nn);
    CongTrans((c1 * c2) % nn, c1 * c2, Pow(1 + n, k1 + k2) * Pow(r1 * r2, n), nn);
    CongMod(m1, n);
    CongMod(m2, n);
    CongAdd(k1, m1, k2, m2, n);
    ReducedEncryption((c1 * c2) % nn, k1 + k2, r1 * r2, n, m1 + m2);
  }

  lemma ProductOfEncryptions(n: nat, c1: int, m1: nat, r1: int, c2: int, m2: nat, r2: int)
    requires n > 0 && IsEncryption(c1, m1, r1, n) && IsEncryption(c2, m2, r2, n)
    ensures IsEncryption(c1 * c2, m1 + m2, r1 * r2, n)
  {
    var a1, b1, a2, b2 := Pow(1 + n, m1), Pow(r1, n), Pow(1 + n, m2), Pow(r2, n);
    CongMul(c1, a1 * b1, c2, a2 * b2, n * n);
    Interchange(a1, b1, a2, b2);
    PowAdd(1 + n, m1, m2);
    PowProduct(r1, r2, n);
    UnitProduct(r1, r2, n);
  }

  lemma PowerIsEncryption(n: nat, c: nat, m: nat, r: int, k: nat)
    requires n > 0 && IsEncryption(c, m, r, n)
    ensures m * k >= 0 && IsEncryption(Pow(c, k), m * k, Pow(r, k), n)
  {
    CongPow(c, Pow(1 + n, m) * Pow(r, n), k, n * n);
    PowProduct(Pow(1 + n, m), Pow(r, n), k);
    PowMul(1 + n, m, k);
    PowMul(r, n, k);
    PowMul(r, k, n);
    assert k * n == n * k;
    UnitPow(r, k, n);
  }

  /** An encryption of (n - 1) * m, which is one of -m: multiplied with the encryption of m it gives 1. */
  lemma Opposite(n: nat, c: nat, m: nat, r: int) returns (e: nat, s: int, x: int)
    requires n > 1 && IsEncryption(c, m, r, n)
    ensures Cong(e, 0 - m, n) && IsEncryption(x, e, s, n) && Cong(c * x, 1, n * n)
  {
    s := Inverse(r, n);
    Distribute(m, n, 1);
    assert m * n >= m;
    e := m * n - m;
    x := Pow(1 + n, e) * Pow(s, n);
    InverseSym(r, s, n);
    CongRefl(x, n * n);
    ProductOfEncryptions(n, c, m, r, x, e, s);
    TrivialEncryption(n, c * x, m, r * s);
    CongIntro(e, 0 - m, n, m);
  }

  /** The inverse of an encryption of m is one of -m. */
  lemma InverseIsEncryption(n: nat, c: nat, m: nat, r: int, d: int)
    requires n > 1 && IsEncryption(c, m, r, n) && IsInverse(c, d, n * n)
    ensures EncryptionOf(d, 0 - m, n)
  {
    var e, s, x := Opposite(n, c, m, r);
    CancelInverse(c, d, x, n * n);
    CongTrans(d, x, Pow(1 + n, e) * Pow(s, n), n * n);
    ReducedEncryption(d, e, s, n, 0 - m);
  }

  lemma InverseSym(r: int, s: int, n: nat)
    requires IsInverse(r, s, n)
    ensures Unit(s, n) && IsInverse(s, r, n)
  {
    assert s * r == r * s;
    assert IsInverse(s, r, n);
  }

  /** g^(m*n) is 1 and so is the n-th power of what is 1 modulo n. */
  lemma TrivialEncryption(n: nat, c: int, m: nat, t: int)
    requires n > 1 && m * n >= 0 && IsEncryption(c, m * n, t, n) && Cong(t, 1, n)
    ensures Cong(c, 1, n * n)
  {
    var nn := n * n;
    GeneratorPower(n, m * n);
    Associate(m, n, n);
    CongIntro(1 + (m * n) * n, 1, nn, m);
    CongTrans(Pow(1 + n, m * n), 1 + (m * n) * n, 1, nn);
    LiftToSquare(t, n);
    CongMul(Pow(1 + n, m * n), 1, Pow(t, n), 1, nn);
    CongTrans(c, Pow(1 + n, m * n) * Pow(t, n), 1, nn);
  }

  lemma CancelInverse(c: int, d: int, x: int, m: nat)
    requires IsInverse(c, d, m) && Cong(c * x, 1, m)
    ensures Cong(d, x, m)
  {
    assert Unit(c, m);
    CongSym(c * x, 1, m);
    CongTrans(c * d, 1, c * x, m);
    UnitCancel(c, d, x, m);
  }

  /** For every constant, negative ones included. */
  lemma MultiplyIsEncryption(n: nat, c: nat, m: int, k: int)
    requires n > 1 && EncryptionOf(c, m, n)
    ensures var d := Multiply(PublicKey(n, n + 1), c, k);
            d.Some? && EncryptionOf(d.value, m * k, n)
  {
    var nn, l := n * n, m % n;
    var r :| IsEncryption(c, l, r, n);
    var e := if k < 0 then -k else k;
    PowerIsEncryption(n, c, l, r, e);
    NaturalPower(c, e);
    CongMod(m, n);
    CongRefl(e, n);
    CongMul(l, m, e, e, n);
    if k >= 0 {
      CongMod(Pow(c, k), nn);
      CongTrans(Pow(c, k) % nn, Pow(c, k), Pow(1 + n, l * k) * Pow(Pow(r, k), n), nn);
      ReducedEncryption(Pow(c, k) % nn, l * k, Pow(r, k), n, m * k);
    } else {
      EncryptionIsUnit(Pow(c, e), l * e, Pow(r, e), n);
      var d := InverseModulo(Pow(c, e), nn).value;
      InverseIsEncryption(n, Pow(c, e), l * e, Pow(r, e), d);
      CongRefl(0, n);
      CongAdd(0, 0, l * e, m * e, n);
      CongResidues(0 - l * e, 0 - m * e, n);
      assert m * k == 0 - m * e;
    }
  }

  /** The generator encrypts 1, the mask 0. */
  lemma EncryptIsEncryption(n: nat, m: int, r: nat)
    requires n > 1 && Unit(r, n)
    ensures var c := Encrypt(PublicKey(n, n + 1), m, r);
            c.Some? && EncryptionOf(c.value, m, n)
  {
    var pk, nn := PublicKey(n, n + 1), n * n;
    CongRefl(1, n);
    assert IsInverse(1, 1, n);
    PowOne(n);
    assert Pow(1 + n, 1) == (1 + n) * Pow(1 + n, 0) == 1 + n;
    CongRefl(1 + n, nn);
    assert IsEncryption(1 + n, 1, 1, n);
    ReducedEncryption(1 + n, 1, 1, n, 1);
    MultiplyIsEncryption(n, 1 + n, 1, m);
    NaturalPower(r, n);
    CongMod(Pow(r, n), nn);
    assert Pow(1 + n, 0) * Pow(r, n) == Pow(r, n);
    assert IsEncryption(Blinding(pk, r), 0, r, n);
    CongRefl(0, n);
    ReducedEncryption(Blinding(pk, r), 0, r, n, 0);
    AddIsEncryption(n, Multiply(pk, 1 + n, m).value, m, Blinding(pk, r), 0);
  }

  lemma EncryptionIsUnit(c: nat, m: nat, r: int, n: nat)
    requires n > 1 && IsEncryption(c, m, r, n)
    ensures Unit(c, n * n)
  {
    var e, s, x := Opposite(n, c, m, r);
    assert IsInverse(c, x, n * n);
  }

  /** An encryption is never zero, so its text has at least one digit before the tag. */
  lemma EncryptionIsPositive(c: nat, m: int, n: nat)
    requires n > 1 && EncryptionOf(c, m, n)
    ensures c > 0
  {
    var k := m % n;
    var r :| IsEncryption(c, k, r, n);
    var a, b := Pow(1 + n, k), Pow(r, n);
    DividesIntro(n, n, n * n);
    CongWeaken(c, a * b, n * n, n);
    CongIntro(1 + n, 1, n, 1);
    CongPow(1 + n, 1, k, n);
    PowOne(k);
    CongRefl(b, n);
    CongMul(a, 1, b, b, n);
    CongTrans(c, a * b, b, n);
    UnitPow(r, n, n);
    if c == 0 {
      CongSym(0, b, n);
      UnitCong(b, 0, n);
      DividesBound(n, 1) by {
        DividesMul(n, 0 * Inverse(0, n) - 1, -1);
      }
    }
  }
}
