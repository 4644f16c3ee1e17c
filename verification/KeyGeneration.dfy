/** Paillier key generation from a seed: two drawn primes, the safety checks, and the key arithmetic. */
module KeyGeneration {
  import opened NumberTheory
  import opened ByteStrings
  import opened Hashing
  import opened Results
  import opened VotingArithmetic
  import opened ModularInverse
  import opened Drbg
  import opened PrimeGeneration
  import opened Paillier

  /** The randomness paillier-bigint picks for a modulus: some invertible number. */
  type UnitChoice = f: nat -> nat | ChoosesUnits(f) witness (n: nat) => UnitWitness(n)

  ghost predicate ChoosesUnits(f: nat -> nat) {
    forall n: nat :: Unit(f(n), n)
  }

  function UnitWitness(n: nat): (r: nat)
    ensures Unit(r, n)
  {
    CongRefl(1, n);
    assert IsInverse(1, 1, n);
    1
  }

  // ---------- lambda and the generator ----------

  lemma LambdaRange(p: nat, q: nat)
    requires p > 1 && q > 1
    ensures var lambda := Lcm(p - 1, q - 1);
            lambda.Ok? && 0 < lambda.value <= (p - 1) * (q - 1) < p * q
  {
    LambdaFactor(p - 1, q - 1);
    SmallerProduct(p, q);
  }

  lemma LambdaFactor(a: nat, b: nat)
    requires a > 0 && b > 0
    ensures Lcm(a, b).Ok? && 0 < Lcm(a, b).value <= a * b
  {
    hide Lcm, Gcd;
    LcmLeast(a, b);
    GcdPositive(a, b);
    PositiveProduct(a, b);
    FactorRange(Lcm(a, b).value, Gcd(a, b), a * b);
  }

  lemma SmallerProduct(p: nat, q: nat)
    requires p > 1 && q > 1
    ensures 0 < (p - 1) * (q - 1) < p * q
  {
    var a, b := p - 1, q - 1;
    PositiveProduct(a, b);
    assert (a + 1) * (b + 1) == a * b + a + b + 1;
  }

  lemma PositiveProduct(a: nat, b: nat)
    requires a > 0 && b > 0
    ensures a * b > 0
  {
  }

  lemma FactorRange(x: int, g: nat, product: int)
    requires g > 0 && product > 0 && x * g == product
    ensures 0 < x <= product
  {
    assert x <= 0 ==> x * g <= 0;
    assert x > 0 ==> x * g >= x;
  }

  /** g^lambda mod n^2 is exactly 1 + lambda * n, so L of it is lambda, which is lambda mod n. */
  lemma GeneratorLogarithm(n: nat, lambda: nat)
    requires n > 1 && lambda < n
    ensures n * n > 1 && Rem(Pow(n + 1, lambda), n * n) == 1 + lambda * n
    ensures L(1 + lambda * n, n) == lambda == lambda % n
  {
    var nn := n * n;
    SmallLogarithm(n, lambda);
    GeneratorPower(n, lambda);
    NaturalPower(n + 1, lambda);
    CongMod(Pow(1 + n, lambda), nn);
    CongTrans(Pow(1 + n, lambda) % nn, Pow(1 + n, lambda), 1 + lambda * n, nn);
    CongUnique(Pow(1 + n, lambda) % nn, 1 + lambda * n, nn);
    DivModUnique(lambda, 0, lambda, n);
  }

  // ---------- The outcome for a pair of primes ----------

  function Distance(p: nat, q: nat): nat {
    if p > q then p - q else q - p
  }

  predicate CoprimeToLambda(p: nat, q: nat) {
    p > 1 && q > 1
    && var lambda := Lcm(p - 1, q - 1); lambda.Ok? && lambda.value > 0 && Gcd(p * q, lambda.value) == 1
  }

  /** How the checks and the key arithmetic end for p and q. */
  ghost predicate Outcome(p: nat, q: nat, primeBits: nat, choice: UnitChoice, r: Result<KeyPair, KeyError>)
  {
    if p == q then r == Err(IdenticalPrimes)
    else if Distance(p, q) < TwoTo(primeBits / 2) then r == Err(PrimesTooClose)
    else if !CoprimeToLambda(p, q) then r == Err(DegeneratePair)
    else exists keys :: KeysFor(p, q, keys) && r == Validated(keys, choice)
  }

  /** The final test encryption of 42. */
  function Validated(keys: KeyPair, choice: UnitChoice): (r: Result<KeyPair, KeyError>) {
    var n := keys.publicKey.n;
    var test := if n > 0 then Encrypt(keys.publicKey, 42, choice(n)) else None;
    if test.Some? && keys.privateKey.n > 0 && Decrypt(keys.privateKey, test.value) == 42 then Ok(keys)
    else Err(ValidationFailed)
  }

  /** The value L(g^lambda mod n^2) and its inverse, computed as the code computes them. */
  method LambdaAndMu(n: nat, lambda: nat) returns (mu: nat)
    requires n > 1 && 0 < lambda < n && Gcd(n, lambda) == 1
    ensures 0 < mu < n && IsInverse(lambda, mu, n)
  {
    hide Gcd, Pow, Rem;
    GeneratorLogarithm(n, lambda);
    var gLambda := ModPow(n + 1, lambda, n * n);
    var l := L(gLambda.value, n);
    GcdSym(n, lambda);
    var inverse := ModInverse(l, n);
    CongRefl(1, n);
    mu := inverse.value;
  }

  method KeysFromPrimes(p: nat, q: nat, primeBits: nat, choice: UnitChoice) returns (r: Result<KeyPair, KeyError>)
    requires p > 1 && q > 1
    ensures Outcome(p, q, primeBits, choice, r)
  {
    hide Gcd, Lcm, IsInverse, Validated, TwoTo;
    if p == q { return Err(IdenticalPrimes); }
    var pqDiff := if p > q then p - q else q - p;
    if pqDiff < TwoTo(primeBits / 2) { return Err(PrimesTooClose); }
    LambdaRange(p, q);
    ProductExceedsOne(p, q);
    var n := p * q;
    var lambda := Lcm(p - 1, q - 1).value;
    var common := GcdLoop(n, lambda);
    if common != 1 { return Err(DegeneratePair); }
    var mu := LambdaAndMu(n, lambda);
    var keys := KeyPair(PublicKey(n, n + 1), PrivateKey(lambda, mu, n));
    assert KeysFor(p, q, keys);
    return Validated(keys, choice);
  }

  /** The primes determine the keys. */
  lemma KeysUnique(p: nat, q: nat, keys1: KeyPair, keys2: KeyPair)
    requires KeysFor(p, q, keys1) && KeysFor(p, q, keys2)
    ensures keys1 == keys2
  {
    InverseUnique(keys1.privateKey.lambda, keys1.privateKey.mu, keys2.privateKey.mu, keys1.privateKey.n);
  }

  // ---------- The degenerate pair ----------

  lemma PrimeDividesLambda(p: nat, q: nat)
    requires Prime(p) && q > 1 && Divides(p, Lcm(p - 1, q - 1).value)
    ensures Divides(p, q - 1)
  {
    LcmLeast(p - 1, q - 1);
    DividesMul(p, Lcm(p - 1, q - 1).value, Gcd(p - 1, q - 1));
    PrimeDividesProduct(p, p - 1, q - 1);
    if Divides(p, p - 1) { DividesBound(p, p - 1); }
  }

  /** A prime dividing q - 1 for another odd prime q is less than half of q. */
  lemma FactorOfPredecessor(p: nat, q: nat)
    requires Prime(p) && Prime(q) && p % 2 == 1 && q % 2 == 1 && Divides(p, q - 1)
    ensures q > 2 * p
  {
    PrimeExceedsOne(p);
    PrimeExceedsOne(q);
    hide Prime;
    ProductBounds(p, Quotient(p, q - 1));
  }

  lemma ProductBounds(p: nat, k: int)
    requires p > 0
    ensures k <= 0 ==> p * k <= 0
    ensures k >= 2 ==> p * k >= 2 * p
  {
    Distribute(p, k, 2);
    assert k >= 2 ==> p * (k - 2) >= 0;
  }

  lemma CommonFactorNotCoprime(p: nat, n: nat, lambda: nat)
    requires Prime(p) && n > 0 && Divides(p, n) && Divides(p, lambda)
    ensures Gcd(n, lambda) != 1
  {
    GcdGreatest(n, lambda, p);
    if Gcd(n, lambda) == 1 {
      DividesBound(p, 1);
    }
  }

  /** A pair of distinct primes passes the check exactly when neither divides the other's predecessor. */
  lemma DegenerateIff(p: nat, q: nat)
    requires Prime(p) && Prime(q) && p != q
    ensures CoprimeToLambda(p, q) <==> !Divides(p, q - 1) && !Divides(q, p - 1)
  {
    hide Prime, Gcd, Lcm;
    assert p > 1 && q > 1 by {
      PrimeExceedsOne(p);
      PrimeExceedsOne(q);
    }
    LambdaRange(p, q);
    var lambda := Lcm(p - 1, q - 1).value;
    LcmLeast(p - 1, q - 1);
    DividesIntro(p, q, p * q);
    DividesIntro(q, p, p * q);
    if Divides(p, q - 1) {
      DividesTrans(p, q - 1, lambda);
      CommonFactorNotCoprime(p, p * q, lambda);
    } else if Divides(q, p - 1) {
      DividesTrans(q, p - 1, lambda);
      CommonFactorNotCoprime(q, p * q, lambda);
    } else {
      if Divides(p, lambda) {
        PrimeDividesLambda(p, q);
      }
      if Divides(q, lambda) {
        LcmSymmetric(p - 1, q - 1);
        PrimeDividesLambda(q, p);
      }
      PrimeCoprime(p, lambda);
      PrimeCoprime(q, lambda);
      CoprimeProduct(p, q, lambda);
    }
  }

  lemma PrimeExceedsOne(p: nat)
    requires Prime(p)
    ensures p > 1
  {
  }

  /** For distinct odd primes of one bit length the product is coprime to lambda. */
  lemma EqualLengthPrimesCoprime(p: nat, q: nat, bits: nat)
    requires Prime(p) && Prime(q) && p != q && p % 2 == 1 && q % 2 == 1
    requires bits > 0 && HasBits(p, bits) && HasBits(q, bits)
    ensures CoprimeToLambda(p, q)
  {
    DegenerateIff(p, q);
    if Divides(p, q - 1) {
      FactorOfPredecessor(p, q);
    }
    if Divides(q, p - 1) {
      FactorOfPredecessor(q, p);
    }
  }

  lemma LcmSymmetric(a: nat, b: nat)
    requires a > 0 && b > 0
    ensures Lcm(a, b) == Lcm(b, a)
  {
    GcdSym(a, b);
    assert a * b == b * a;
  }

  /** Equal length matters: 3 and 7 are primes whose key pair the code rejects. */
  lemma DegeneratePairExample()
    ensures Lcm(3 - 1, 7 - 1) == Ok(6) && Gcd(3 * 7, 6) == 3
  {
    assert Gcd(2, 6) == Gcd(6, 2) == Gcd(2, 0) == 2;
    assert Gcd(21, 6) == Gcd(6, 3) == Gcd(3, 0) == 3;
  }

  // ---------- From the seed ----------

  datatype GenerationError =
    | SeedTooShort | KeyTooSmall | OddKeySize | TooFewIterations | NoPrime
    | Rejected(reason: KeyError)

  /** The default of generateDeterministicPrime, which key generation does not override. */
  const PRIME_ATTEMPTS: nat := 10000

  /** The two primes the seed leads to. */
  ghost function PrimePair(hmac512: Hmac, s: Search, seed: Bytes): (pair: Option<(nat, nat)>)
    requires s.numBits > 0 && HasLength(hmac512, 64)
  {
    var first := FirstGood(s, hmac512, 64, Instantiate(hmac512, 64, seed), s.attempts);
    if first.None? then None
    else
      var second := FirstGood(s, hmac512, 64, first.value.1, s.attempts);
      if second.None? then None
      else Some((first.value.0, second.value.0))
  }

  /** p and q are the primes drawn from the seed. */
  ghost predicate Drawn(hmac512: Hmac, s: Search, seed: Bytes, p: nat, q: nat) {
    s.numBits > 0 && HasLength(hmac512, 64) && PrimePair(hmac512, s, seed) == Some((p, q))
  }

  ghost predicate NothingDrawn(hmac512: Hmac, s: Search, seed: Bytes) {
    s.numBits > 0 && HasLength(hmac512, 64) && PrimePair(hmac512, s, seed) == None
  }

  /** The search for primes of half the key size. */
  function HalfSizePrimes(bits: nat, rounds: int, hmac256: Hmac256): Search {
    Search(bits / 2, rounds, PRIME_ATTEMPTS, hmac256)
  }

  /** How generation ends: the input checks in order, then the search, then the checks on the pair. */
  ghost predicate Generated(seed: Bytes, bits: int, rounds: int, hmac512: Hmac, hmac256: Hmac256,
                            choice: UnitChoice, r: Result<KeyPair, GenerationError>)
  {
    if |seed| < 32 then r == Err(SeedTooShort)
    else if bits < 2048 then r == Err(KeyTooSmall)
    else if bits % 2 != 0 then r == Err(OddKeySize)
    else if rounds < 64 then r == Err(TooFewIterations)
    else
      var s := HalfSizePrimes(bits, rounds, hmac256);
      || (NothingDrawn(hmac512, s, seed) && r == Err(NoPrime))
      || exists p, q, o :: Drawn(hmac512, s, seed, p, q) && Outcome(p, q, s.numBits, choice, o) && r == Lift(o)
  }

  method GenerateDeterministicKeyPair(seed: Bytes, bits: int, rounds: int, hmac512: Hmac, hmac256: Hmac256,
                                      choice: UnitChoice)
    returns (r: Result<KeyPair, GenerationError>)
    requires HasLength(hmac512, 64)
    ensures Generated(seed, bits, rounds, hmac512, hmac256, choice, r)
  {
    hide Drawn, NothingDrawn, Outcome;
    if |seed| < 32 { return Err(SeedTooShort); }
    if bits < 2048 { return Err(KeyTooSmall); }
    if bits % 2 != 0 { return Err(OddKeySize); }
    if rounds < 64 { return Err(TooFewIterations); }
    var s := HalfSizePrimes(bits, rounds, hmac256);
    var pair := DrawPair(seed, s, hmac512);
    if pair.None? { return Err(NoPrime); }
    var (p, q) := pair.value;
    var o := KeysFromPrimes(p, q, s.numBits, choice);
    return Lift(o);
  }

  /** A generator seeded with the seed, asked for two primes in turn. */
  method DrawPair(seed: Bytes, s: Search, hmac512: Hmac) returns (pair: Option<(nat, nat)>)
    requires s.numBits > 0 && HasLength(hmac512, 64)
    ensures pair.None? ==> NothingDrawn(hmac512, s, seed)
    ensures pair.Some? ==> Drawn(hmac512, s, seed, pair.value.0, pair.value.1)
    ensures pair.Some? ==> pair.value.0 > 1 && pair.value.1 > 1
  {
    hide FirstGood, Instantiate, Good;
    var drbg := new SecureDeterministicDrbg(seed, Sha512, hmac512);
    var p := GenerateDeterministicPrime(drbg, s);
    if p.Err? { return None; }
    var q := GenerateDeterministicPrime(drbg, s);
    if q.Err? { return None; }
    PairProperties(hmac512, s, seed, p.value, q.value);
    GoodExceedsOne(p.value, s.rounds, s.hmac256);
    GoodExceedsOne(q.value, s.rounds, s.hmac256);
    return Some((p.value, q.value));
  }

  function Lift(o: Result<KeyPair, KeyError>): Result<KeyPair, GenerationError> {
    if o.Ok? then Ok(o.value) else Err(Rejected(o.error))
  }

  /** The drawn pair: both passed the tests, both odd; of equal exact length when the key size is a
      multiple of sixteen. */
  lemma PairProperties(hmac512: Hmac, s: Search, seed: Bytes, p: nat, q: nat)
    requires Drawn(hmac512, s, seed, p, q)
    ensures Good(p, s.rounds, s.hmac256) && Good(q, s.rounds, s.hmac256)
    ensures s.numBits > 0 && SuitablePair(p, q, s.numBits)
  {
    hide FirstGood, Good, HasBits, TwoTo, Instantiate;
    var st := Instantiate(hmac512, 64, seed);
    FoundPrime(s, hmac512, 64, st, s.attempts);
    FoundPrime(s, hmac512, 64, FirstGood(s, hmac512, 64, st, s.attempts).value.1, s.attempts);
  }

  /** Odd numbers of at least the given length, and of exactly that length when it is whole bytes. */
  ghost predicate SuitablePair(p: nat, q: nat, numBits: nat)
    requires numBits > 0
  {
    && p % 2 == 1 && q % 2 == 1 && p >= TwoTo(numBits - 1) && q >= TwoTo(numBits - 1)
    && (numBits % 8 == 0 ==> HasBits(p, numBits) && HasBits(q, numBits))
  }

  /** The keys decrypt every encryption of every message, reduced modulo n. */
  ghost predicate DecryptsEverything(keys: KeyPair) {
    var n := keys.publicKey.n;
    && n > 0 && keys.privateKey.n == n
    && forall c: nat, m: int :: EncryptionOf(c, m, n) ==> Decrypt(keys.privateKey, c) == m % n
  }

  lemma KeysDecryptEverything(p: nat, q: nat, keys: KeyPair)
    requires Prime(p) && Prime(q) && p != q && KeysFor(p, q, keys)
    ensures DecryptsEverything(keys)
  {
    hide KeysFor, EncryptionOf, Decrypt, Prime;
    KeyFacts(p, q, keys);
    forall c: nat, m: int | EncryptionOf(c, m, keys.publicKey.n)
      ensures Decrypt(keys.privateKey, c) == m % keys.publicKey.n
    {
      DecryptionCorrect(p, q, keys, c, m);
    }
  }

  lemma LargeEnough(numBits: nat)
    requires numBits >= 1024
    ensures TwoTo(numBits - 1) > 42
  {
    TwoToMonotone(6, numBits - 1);
    assert TwoTo(6) == 64;
  }

  /** Working keys with a modulus above 42 pass the final test encryption. */
  lemma WorkingKeysValidate(keys: KeyPair, choice: UnitChoice)
    requires DecryptsEverything(keys) && keys.publicKey.g == keys.publicKey.n + 1 && keys.publicKey.n > 42
    ensures Validated(keys, choice) == Ok(keys)
  {
    hide Encrypt, Decrypt, EncryptionOf, Unit;
    var n := keys.publicKey.n;
    EncryptIsEncryption(n, 42, choice(n));
    DivModUnique(42, 0, 42, n);
  }

  lemma ModulusExceeds(p: nat, q: nat, keys: KeyPair)
    requires KeysFor(p, q, keys) && p > 42
    ensures keys.publicKey.n > 42 && keys.publicKey.g == keys.publicKey.n + 1
  {
    hide Lcm, IsInverse;
    assert p * q >= p;
  }

  lemma OutcomeForPrimes(p: nat, q: nat, primeBits: nat, choice: UnitChoice, o: Result<KeyPair, KeyError>)
    requires Prime(p) && Prime(q) && p > 42 && Outcome(p, q, primeBits, choice, o)
    ensures o != Err(ValidationFailed)
    ensures o.Ok? ==> DecryptsEverything(o.value)
  {
    hide KeysFor, Validated, DecryptsEverything, Prime, CoprimeToLambda, TwoTo;
    if o.Ok? || o == Err(ValidationFailed) {
      var keys :| KeysFor(p, q, keys) && o == Validated(keys, choice);
      KeysDecryptEverything(p, q, keys);
      ModulusExceeds(p, q, keys);
      WorkingKeysValidate(keys, choice);
    }
  }

  lemma CoprimeNotDegenerate(p: nat, q: nat, bits: nat, choice: UnitChoice, o: Result<KeyPair, KeyError>)
    requires Prime(p) && Prime(q) && p % 2 == 1 && q % 2 == 1
    requires bits > 0 && HasBits(p, bits) && HasBits(q, bits) && Outcome(p, q, bits, choice, o)
    ensures o != Err(DegeneratePair)
  {
    hide KeysFor, Prime, CoprimeToLambda, HasBits;
    if p != q { EqualLengthPrimesCoprime(p, q, bits); }
  }

  /** When the drawn numbers are primes, generation returns working keys or rejects the pair for being
      equal or too close; with a key size that is a multiple of sixteen the degenerate-pair error cannot
      happen either, and the final test encryption never fails. */
  lemma PrimesGiveWorkingKeys(p: nat, q: nat, numBits: nat, choice: UnitChoice, o: Result<KeyPair, KeyError>)
    requires Prime(p) && Prime(q) && numBits >= 1024 && SuitablePair(p, q, numBits)
    requires Outcome(p, q, numBits, choice, o)
    ensures o != Err(ValidationFailed)
    ensures numBits % 8 == 0 ==> o != Err(DegeneratePair)
    ensures o.Ok? ==> DecryptsEverything(o.value)
  {
    hide Outcome, DecryptsEverything, Prime, TwoTo, HasBits;
    LargeEnough(numBits);
    OutcomeForPrimes(p, q, numBits, choice, o);
    if numBits % 8 == 0 {
      CoprimeNotDegenerate(p, q, numBits, choice, o);
    }
  }

  /** The two numbers are at least this far apart. */
  predicate FarApart(p: nat, q: nat, distance: nat) {
    p >= q + distance || q >= p + distance
  }

  /** How generation ends for two long primes, in terms of the primes alone. */
  lemma OutcomeIff(p: nat, q: nat, primeBits: nat, choice: UnitChoice, o: Result<KeyPair, KeyError>)
    requires Prime(p) && Prime(q) && p > 42 && Outcome(p, q, primeBits, choice, o)
    ensures o == Err(IdenticalPrimes) <==> p == q
    ensures o == Err(PrimesTooClose) <==> p != q && !FarApart(p, q, TwoTo(primeBits / 2))
    ensures o == Err(DegeneratePair) <==>
      FarApart(p, q, TwoTo(primeBits / 2)) && (Divides(p, q - 1) || Divides(q, p - 1))
    ensures o.Ok? <==> FarApart(p, q, TwoTo(primeBits / 2)) && !Divides(p, q - 1) && !Divides(q, p - 1)
    ensures o.Ok? ==> KeysFor(p, q, o.value)
  {
    PowerPositive(primeBits / 2);
    OutcomeForPrimes(p, q, primeBits, choice, o);
    hide KeysFor, CoprimeToLambda, TwoTo, Prime, DecryptsEverything, Validated;
    if p != q {
      DegenerateIff(p, q);
    }
    if o.Ok? {
      var keys :| KeysFor(p, q, keys) && o == Validated(keys, choice);
      ValidatedKeys(keys, choice);
    }
  }

  lemma PowerPositive(n: nat)
    ensures TwoTo(n) > 0
  {
    TwoToMonotone(0, n);
  }

  lemma ValidatedKeys(keys: KeyPair, choice: UnitChoice)
    ensures Validated(keys, choice).Ok? ==> Validated(keys, choice).value == keys
  {
  }

  /** From the seed. For valid inputs, if the two numbers drawn are primes, generation returns keys that decrypt every
      encryption if and only if the primes are 2^(bits / 4) apart and neither divides the other's predecessor; otherwise
      it says which of the conditions fails. For key sizes that are multiples of sixteen the second condition always
      holds, and the modulus has the requested length, up to one bit. */
  lemma SeedGivesWorkingKeys(seed: Bytes, bits: nat, rounds: int, hmac512: Hmac, hmac256: Hmac256,
                             choice: UnitChoice, p: nat, q: nat, r: Result<KeyPair, GenerationError>)
    requires |seed| >= 32 && bits >= 2048 && bits % 2 == 0 && rounds >= 64
    requires Generated(seed, bits, rounds, hmac512, hmac256, choice, r)
    requires Drawn(hmac512, HalfSizePrimes(bits, rounds, hmac256), seed, p, q) && Prime(p) && Prime(q)
    ensures r.Ok? <==> FarApart(p, q, TwoTo(bits / 4)) && !Divides(p, q - 1) && !Divides(q, p - 1)
    ensures r == Err(Rejected(IdenticalPrimes)) <==> p == q
    ensures r == Err(Rejected(PrimesTooClose)) <==> p != q && !FarApart(p, q, TwoTo(bits / 4))
    ensures r == Err(Rejected(DegeneratePair)) <==>
      FarApart(p, q, TwoTo(bits / 4)) && (Divides(p, q - 1) || Divides(q, p - 1))
    ensures bits % 16 == 0 ==> r != Err(Rejected(DegeneratePair))
    ensures r.Ok? ==> DecryptsEverything(r.value) && r.value.publicKey.n == p * q
    ensures r.Ok? && bits % 16 == 0 ==> TwoTo(bits - 2) <= r.value.publicKey.n < TwoTo(bits)
  {
    hide DecryptsEverything, Prime, SuitablePair, Outcome, Generated, Drawn, HalfSizePrimes;
    var o := OutcomeOfDraw(seed, bits, rounds, hmac512, hmac256, choice, p, q, r);
    var half := bits / 2;
    assert half >= 1024 && half / 2 == bits / 4 && (bits % 16 == 0 ==> half % 8 == 0);
    PrimesGiveWorkingKeys(p, q, half, choice, o);
    LongPair(p, q, half);
    OutcomeIff(p, q, half, choice, o);
    hide FarApart, TwoTo, KeysFor;
    if o.Ok? {
      KeyFacts(p, q, o.value);
      ModulusLength(p, q, half);
    }
  }

  /** Only one pair can be drawn, so the result is the outcome for it. */
  lemma OutcomeOfDraw(seed: Bytes, bits: nat, rounds: int, hmac512: Hmac, hmac256: Hmac256, choice: UnitChoice,
                      p: nat, q: nat, r: Result<KeyPair, GenerationError>) returns (o: Result<KeyPair, KeyError>)
    requires |seed| >= 32 && bits >= 2048 && bits % 2 == 0 && rounds >= 64
    requires Generated(seed, bits, rounds, hmac512, hmac256, choice, r)
    requires Drawn(hmac512, HalfSizePrimes(bits, rounds, hmac256), seed, p, q)
    ensures Outcome(p, q, bits / 2, choice, o) && r == Lift(o) && SuitablePair(p, q, bits / 2)
  {
    hide PrimePair, Outcome, Good, SuitablePair;
    var s := HalfSizePrimes(bits, rounds, hmac256);
    var p', q', o' :| Drawn(hmac512, s, seed, p', q') && Outcome(p', q', s.numBits, choice, o') && r == Lift(o');
    o := o';
    PairProperties(hmac512, s, seed, p, q);
  }

  lemma LongPair(p: nat, q: nat, numBits: nat)
    requires numBits >= 1024 && SuitablePair(p, q, numBits)
    ensures p > 42 && q > 42
  {
    LargeEnough(numBits);
  }

  lemma ModulusLength(p: nat, q: nat, numBits: nat)
    requires numBits > 0 && SuitablePair(p, q, numBits)
    ensures numBits % 8 == 0 ==> TwoTo(2 * numBits - 2) <= p * q < TwoTo(2 * numBits)
  {
    if numBits % 8 == 0 {
      var low, high := TwoTo(numBits - 1), TwoTo(numBits);
      assert low <= p < high && low <= q < high;
      TwoToAdd(numBits - 1, numBits - 1);
      TwoToAdd(numBits, numBits);
      hide TwoTo;
      ProductRange(p, q, low, high);
    }
  }

  lemma ProductRange(p: nat, q: nat, low: nat, high: nat)
    requires low <= p < high && low <= q < high
    ensures low * low <= p * q < high * high
  {
    ScaleMonotone(low, q, low);
    ScaleMonotone(low, p, q);
    ScaleMonotone(p, high, q);
    ScaleMonotone(q + 1, high, high);
    Distribute(high, q, 1);
  }

  /** The input checks, in order, and nothing else, give these errors. */
  lemma InputChecks(seed: Bytes, bits: int, rounds: int, hmac512: Hmac, hmac256: Hmac256, choice: UnitChoice,
                    r: Result<KeyPair, GenerationError>)
    requires Generated(seed, bits, rounds, hmac512, hmac256, choice, r)
    ensures r == Err(SeedTooShort) <==> |seed| < 32
    ensures r == Err(KeyTooSmall) <==> |seed| >= 32 && bits < 2048
    ensures r == Err(OddKeySize) <==> |seed| >= 32 && bits >= 2048 && bits % 2 == 1
    ensures r == Err(TooFewIterations) <==> |seed| >= 32 && bits >= 2048 && bits % 2 == 0 && rounds < 64
  {
    hide Drawn, NothingDrawn, Outcome;
  }

  /** The i-th candidate after seeding is the first good one and the k-th the second, neither after more than `limit`
      attempts, and these are p and q. */
  ghost predicate TwoFound(hmac512: Hmac, s: Search, seed: Bytes, limit: nat, i: nat, k: nat, p: nat, q: nat)
    requires s.numBits > 0 && HasLength(hmac512, 64)
  {
    var st := Instantiate(hmac512, 64, seed);
    && i < limit && i < k <= i + limit
    && GoodAt(s, hmac512, 64, st, i) && GoodAt(s, hmac512, 64, st, k)
    && (forall j: nat :: j < k && j != i ==> !GoodAt(s, hmac512, 64, st, j))
    && p == CandidateAt(hmac512, 64, st, s.numBits, i) && q == CandidateAt(hmac512, 64, st, s.numBits, k)
  }

  ghost predicate FoundInTurn(hmac512: Hmac, s: Search, seed: Bytes, limit: nat, p: nat, q: nat)
    requires s.numBits > 0 && HasLength(hmac512, 64)
  {
    exists i, k :: TwoFound(hmac512, s, seed, limit, i, k, p, q)
  }

  /** The drawn numbers are the first two good candidates of the seeded generator: the second search goes on where the
      first one stopped, and each is given up after ten thousand attempts. */
  lemma DrawnIff(hmac512: Hmac, bits: nat, rounds: int, hmac256: Hmac256, seed: Bytes, p: nat, q: nat)
    requires HasLength(hmac512, 64) && bits >= 2
    ensures var s := HalfSizePrimes(bits, rounds, hmac256);
            && s.numBits == bits / 2 && s.rounds == rounds && s.hmac256 == hmac256
            && (Drawn(hmac512, s, seed, p, q) <==> FoundInTurn(hmac512, s, seed, 10000, p, q))
            && (NothingDrawn(hmac512, s, seed) ==> !FoundInTurn(hmac512, s, seed, 10000, p, q))
            && (NothingDrawn(hmac512, s, seed) || exists p', q' :: FoundInTurn(hmac512, s, seed, 10000, p', q'))
  {
    hide PrimePair, TwoFound, FoundInTurn, HalfSizePrimes;
    var s, limit := HalfSizePrimes(bits, rounds, hmac256), 10000;
    SearchLimits(bits, rounds, hmac256);
    FoundIffPair(hmac512, s, seed, limit, p, q);
    var pair := PrimePair(hmac512, s, seed);
    if pair.Some? {
      FoundIffPair(hmac512, s, seed, limit, pair.value.0, pair.value.1);
    }
  }

  lemma SearchLimits(bits: nat, rounds: int, hmac256: Hmac256)
    requires bits >= 2
    ensures var s := HalfSizePrimes(bits, rounds, hmac256);
            s.numBits == bits / 2 && s.numBits > 0 && s.rounds == rounds && s.hmac256 == hmac256 && s.attempts == 10000
  {
  }

  lemma FoundIffPair(hmac512: Hmac, s: Search, seed: Bytes, limit: nat, p: nat, q: nat)
    requires s.numBits > 0 && HasLength(hmac512, 64) && s.attempts == limit
    ensures PrimePair(hmac512, s, seed) == Some((p, q)) <==> FoundInTurn(hmac512, s, seed, limit, p, q)
  {
    hide PrimePair, TwoFound;
    if PrimePair(hmac512, s, seed) == Some((p, q)) {
      var i, k := PairIsFound(hmac512, s, seed, p, q);
    }
    if i, k :| TwoFound(hmac512, s, seed, limit, i, k, p, q) {
      FoundIsPair(hmac512, s, seed, i, k, p, q);
    }
  }

  /** Candidates counted from a later state. */
  lemma GoodLater(s: Search, hmac: Hmac, st: State, i: nat, j: nat)
    requires s.numBits > 0 && HasLength(hmac, 64)
    ensures var later := StateAt(hmac, 64, st, s.numBits, i);
            && GoodAt(s, hmac, 64, later, j) == GoodAt(s, hmac, 64, st, i + j)
            && CandidateAt(hmac, 64, later, s.numBits, j) == CandidateAt(hmac, 64, st, s.numBits, i + j)
  {
    hide StateAt, Good, GenerateOutput, Candidate;
    StatesAdd(hmac, 64, st, s.numBits, i, j);
  }

  lemma PairIsFound(hmac512: Hmac, s: Search, seed: Bytes, p: nat, q: nat) returns (i: nat, k: nat)
    requires s.numBits > 0 && HasLength(hmac512, 64) && PrimePair(hmac512, s, seed) == Some((p, q))
    ensures TwoFound(hmac512, s, seed, s.attempts, i, k, p, q)
  {
    hide FirstGood, Instantiate, GoodAt, CandidateAt, StateAt;
    var st := Instantiate(hmac512, 64, seed);
    var first := FirstGood(s, hmac512, 64, st, s.attempts).value;
    FirstGoodIff(s, hmac512, 64, st, s.attempts);
    i :| i < s.attempts && FoundAt(s, hmac512, 64, st, i, first);
    FirstGoodIff(s, hmac512, 64, first.1, s.attempts);
    var second := FirstGood(s, hmac512, 64, first.1, s.attempts).value;
    var j: nat :| j < s.attempts && FoundAt(s, hmac512, 64, first.1, j, second);
    k := i + 1 + j;
    GoodLater(s, hmac512, st, i + 1, j);
    forall l: nat | l < k && l != i
      ensures !GoodAt(s, hmac512, 64, st, l)
    {
      if l > i {
        GoodLater(s, hmac512, st, i + 1, l - i - 1);
      }
    }
  }

  lemma FoundIsPair(hmac512: Hmac, s: Search, seed: Bytes, i: nat, k: nat, p: nat, q: nat)
    requires s.numBits > 0 && HasLength(hmac512, 64) && TwoFound(hmac512, s, seed, s.attempts, i, k, p, q)
    ensures PrimePair(hmac512, s, seed) == Some((p, q))
  {
    hide FirstGood, Instantiate, GoodAt, CandidateAt, StateAt;
    var st := Instantiate(hmac512, 64, seed);
    FirstGoodIff(s, hmac512, 64, st, s.attempts);
    var first := FirstGood(s, hmac512, 64, st, s.attempts).value;
    var i': nat :| i' < s.attempts && FoundAt(s, hmac512, 64, st, i', first);
    assert i' == i;
    var j: nat := k - i - 1;
    GoodLater(s, hmac512, st, i + 1, j);
    FirstGoodIff(s, hmac512, 64, first.1, s.attempts);
    var second := FirstGood(s, hmac512, 64, first.1, s.attempts).value;
    var j': nat :| j' < s.attempts && FoundAt(s, hmac512, 64, first.1, j', second);
    GoodLater(s, hmac512, st, i + 1, j');
    assert j' == j;
  }
}
