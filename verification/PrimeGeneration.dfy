/** Deterministic prime generation: candidates drawn from the DRBG, sieved, then given to Miller-Rabin. */
module PrimeGeneration {
  import opened NumberTheory
  import opened ByteStrings
  import opened Hashing
  import opened Results
  import opened Drbg
  import opened MillerRabin

  datatype PrimeError = AttemptsExhausted

  type SievePrime = p: int | p > 1 witness 2

  const SMALL_PRIMES: seq<SievePrime> :=
    [2, 3, 5, 7, 11, 13, 17, 19, 23, 29, 31, 37, 41, 43] +
    [47, 53, 59, 61, 67, 71, 73, 79, 83, 89, 97, 101, 103, 107] +
    [109, 113, 127, 131, 137, 139, 149, 151, 157, 163, 167, 173, 179, 181] +
    [191, 193, 197, 199, 211, 223, 227, 229, 233, 239, 241, 251]

  // ---------- Candidates ----------

  function ByteCount(numBits: nat): (n: nat)
  {
    (numBits + 7) / 8
  }

  /** 1 << t */
  function Mask(t: nat): (m: nat)
    requires t < 8
    ensures m == TwoTo(t) && 1 <= m <= 128 && 256 % (2 * m) == 0
  {
    match t
    case 0 => 1 case 1 => 2 case 2 => 4 case 3 => 8
    case 4 => 16 case 5 => 32 case 6 => 64 case 7 => 128
  }

  lemma BitClear(x: Byte, t: nat)
    requires t < 8
    ensures (x / Mask(t)) % 2 == 1 ==> x >= Mask(t)
    ensures (x / Mask(t)) % 2 == 0 ==> x + Mask(t) < 256
  {
    match t
    case 0 => case 1 => case 2 => case 3 =>
    case 4 => case 5 => case 6 => case 7 =>
  }

  /** x | (1 << t) for a byte x. */
  function SetBit(x: Byte, t: nat): (y: Byte)
    requires t < 8
    ensures x <= y && Mask(t) <= y && (t == 0 ==> y % 2 == 1)
    ensures y == x || y == x + Mask(t)
  {
    BitClear(x, t);
    if (x / Mask(t)) % 2 == 1 then x else x + Mask(t)
  }

  function TopBit(numBits: nat): (t: nat)
    requires numBits > 0
    ensures t < 8
  {
    (numBits - 1) % 8
  }

  /** The drawn bytes with the top bit of the requested length and the lowest bit set. */
  function Marked(bytes: Bytes, numBits: nat): (marked: Bytes)
    requires numBits > 0 && |bytes| == ByteCount(numBits)
    ensures |marked| == |bytes|
  {
    var b := bytes[0 := SetBit(bytes[0], TopBit(numBits))];
    b[|b| - 1 := SetBit(b[|b| - 1], 0)]
  }

  /** The candidate the code parses back from the hexadecimal text of the marked bytes. */
  function Candidate(bytes: Bytes, numBits: nat): (c: nat)
    requires numBits > 0 && |bytes| == ByteCount(numBits)
  {
    HexValue(BytesToHex(Marked(bytes, numBits)))
  }

  ghost predicate HasBits(c: nat, bits: nat)
    requires bits > 0
  {
    TwoTo(bits - 1) <= c < TwoTo(bits)
  }

  lemma CandidateValue(bytes: Bytes, numBits: nat)
    requires numBits > 0 && |bytes| == ByteCount(numBits)
    ensures Candidate(bytes, numBits) == BigEndian(Marked(bytes, numBits))
  {
    BytesToHexField(Marked(bytes, numBits));
    HexFieldValue(BigEndian(Marked(bytes, numBits)), 2 * |bytes|);
  }

  lemma {:induction false} TwoToAdd(a: nat, b: nat)
    ensures TwoTo(a + b) == TwoTo(a) * TwoTo(b)
  {
    if a > 0 {
      TwoToAdd(a - 1, b);
      Associate(2, TwoTo(a - 1), TwoTo(b));
    }
  }

  lemma {:induction false} TwoToMonotone(a: nat, b: nat)
    requires a <= b
    ensures TwoTo(a) <= TwoTo(b)
  {
    if a < b { TwoToMonotone(a, b - 1); }
  }

  lemma {:induction false} ByteRangeIsPower(n: nat)
    ensures ByteRange(n) == TwoTo(8 * n)
  {
    if n > 0 {
      ByteRangeIsPower(n - 1);
      TwoToAdd(8, 8 * (n - 1));
      assert TwoTo(8) == 256;
    }
  }

  /** The first byte decides the magnitude. */
  lemma FirstByte(bs: Bytes)
    requires bs != []
    ensures bs[0] * ByteRange(|bs| - 1) <= BigEndian(bs) < (bs[0] + 1) * ByteRange(|bs| - 1)
  {
    BigEndianConcat(bs[..1], bs[1..]);
    assert bs[..1] + bs[1..] == bs;
    assert BigEndian(bs[..1]) == bs[0] by { assert BigEndian([]) == 0; }
    BigEndianBound(bs[1..]);
    Distribute(ByteRange(|bs| - 1), bs[0], 1);
  }

  lemma MarkedBytes(bytes: Bytes, numBits: nat)
    requires numBits > 0 && |bytes| == ByteCount(numBits)
    ensures var m := Marked(bytes, numBits);
            m[0] >= TwoTo(TopBit(numBits)) && m[|m| - 1] % 2 == 1
  {
  }

  lemma LowestByte(bs: Bytes)
    requires bs != [] && bs[|bs| - 1] % 2 == 1
    ensures BigEndian(bs) % 2 == 1
  {
    assert BigEndian(bs) == BigEndian(bs[..|bs| - 1]) * 256 + bs[|bs| - 1];
  }

  lemma AtLeast(bs: Bytes, t: nat)
    requires bs != [] && bs[0] >= TwoTo(t)
    ensures BigEndian(bs) >= TwoTo(t + 8 * (|bs| - 1))
  {
    var r := ByteRange(|bs| - 1);
    FirstByte(bs);
    ByteRangeIsPower(|bs| - 1);
    TwoToAdd(t, 8 * (|bs| - 1));
    ScaleMonotone(TwoTo(t), bs[0], r);
  }

  lemma ScaleMonotone(a: nat, b: nat, r: nat)
    requires a <= b
    ensures a * r <= b * r
  {
  }

  /** Every candidate is odd and has at least the requested number of bits, and at most a whole number
      of bytes. */
  lemma CandidateRange(bytes: Bytes, numBits: nat)
    requires numBits > 0 && |bytes| == ByteCount(numBits)
    ensures Candidate(bytes, numBits) % 2 == 1
    ensures TwoTo(numBits - 1) <= Candidate(bytes, numBits) < TwoTo(8 * ByteCount(numBits))
  {
    hide BigEndian, TwoTo, ByteRange;
    var m := Marked(bytes, numBits);
    CandidateValue(bytes, numBits);
    MarkedBytes(bytes, numBits);
    LowestByte(m);
    BigEndianBound(m);
    ByteRangeIsPower(|m|);
    AtLeast(m, TopBit(numBits));
    assert numBits - 1 == TopBit(numBits) + 8 * (|m| - 1);
  }

  lemma WholeBytes(numBits: nat)
    requires numBits > 0
    ensures numBits % 8 == 0 ==> 8 * ByteCount(numBits) == numBits
    ensures numBits % 8 != 0 ==> 8 * ByteCount(numBits) > numBits
  {
  }

  lemma LongCandidate(numBits: nat)
    requires numBits > 0 && numBits % 8 != 0
    ensures |Ones(ByteCount(numBits))| == ByteCount(numBits)
    ensures !HasBits(Candidate(Ones(ByteCount(numBits)), numBits), numBits)
  {
    var n := ByteCount(numBits);
    var m := Marked(Ones(n), numBits);
    assert m == Ones(n) by {
      assert SetBit(255, TopBit(numBits)) == 255;
    }
    CandidateValue(Ones(n), numBits);
    AllOnes(n);
    ByteRangeIsPower(n);
    WholeBytes(numBits);
    TwoToMonotone(numBits, 8 * n - 1);
  }

  function Ones(n: nat): (bs: Bytes)
    ensures |bs| == n
  {
    seq(n, i => 255)
  }

  /** A candidate can be as large as its bytes allow. */
  lemma {:induction false} AllOnes(n: nat)
    ensures BigEndian(Ones(n)) == ByteRange(n) - 1
  {
    if n > 0 {
      AllOnes(n - 1);
      assert Ones(n)[..n - 1] == Ones(n - 1);
    }
  }

  ghost predicate AlwaysExact(numBits: nat)
    requires numBits > 0
  {
    forall bytes: Bytes :: |bytes| == ByteCount(numBits) ==> HasBits(Candidate(bytes, numBits), numBits)
  }

  /** The promised bit length holds for every draw exactly when the length is a multiple of eight: the
      code sets the top bit but never clears the bits above it. */
  lemma ExactLengthIff(numBits: nat)
    requires numBits > 0
    ensures AlwaysExact(numBits) <==> numBits % 8 == 0
  {
    if numBits % 8 == 0 {
      forall bytes: Bytes | |bytes| == ByteCount(numBits) ensures HasBits(Candidate(bytes, numBits), numBits) {
        CandidateRange(bytes, numBits);
        WholeBytes(numBits);
      }
    } else {
      LongCandidate(numBits);
    }
  }

  /** v | bit, for a power of two */
  function WithBit(v: nat, bit: nat): nat
    requires bit > 0
  {
    if (v / bit) % 2 == 1 then v else v + bit
  }

  /** Of the drawn number only two bits are changed: the top one of the requested length and the lowest one are set. */
  lemma CandidateBits(bytes: Bytes, numBits: nat)
    requires numBits > 0 && |bytes| == ByteCount(numBits)
    ensures TwoTo(numBits - 1) > 0
    ensures Candidate(bytes, numBits) == WithBit(WithBit(BigEndian(bytes), TwoTo(numBits - 1)), 1)
  {
    hide *;
    MarkedTwice(bytes, numBits);
    var t := TopBit(numBits);
    var first := bytes[0 := SetBit(bytes[0], t)];
    CandidateValue(bytes, numBits);
    TopBitSet(bytes, t);
    LowestBitSet(first);
  }

  lemma MarkedTwice(bytes: Bytes, numBits: nat)
    requires numBits > 0 && |bytes| == ByteCount(numBits)
    ensures bytes != [] && 8 * (|bytes| - 1) + TopBit(numBits) == numBits - 1
    ensures var first := bytes[0 := SetBit(bytes[0], TopBit(numBits))];
            Marked(bytes, numBits) == first[|first| - 1 := SetBit(first[|first| - 1], 0)]
  {
    hide SetBit;
  }

  lemma LowestBitSet(bs: Bytes)
    requires bs != []
    ensures BigEndian(bs[|bs| - 1 := SetBit(bs[|bs| - 1], 0)]) == WithBit(BigEndian(bs), 1)
  {
    LastByteSet(bs, SetBit(bs[|bs| - 1], 0));
    LastParity(bs);
    hide BigEndian;
  }

  /** Setting bit t of the first byte sets the bit with the weight 2^(8 * others + t) of the number. */
  lemma TopBitSet(bs: Bytes, t: nat)
    requires bs != [] && t < 8
    ensures var top := TwoTo(8 * (|bs| - 1) + t);
            top > 0 && BigEndian(bs[0 := SetBit(bs[0], t)]) == WithBit(BigEndian(bs), top)
  {
    var r, m, v := ByteRange(|bs| - 1), Mask(t), BigEndian(bs);
    FirstByteSet(bs, SetBit(bs[0], t));
    FirstByte(bs);
    ByteRangeIsPower(|bs| - 1);
    TwoToAdd(8 * (|bs| - 1), t);
    hide BigEndian, ByteRange, TwoTo;
    Distribute(r, bs[0], 1);
    RangePositive(v, bs[0], r);
    BitOfFront(v, bs[0], m, r);
    FrontRaised(bs[0], t, r);
  }

  lemma FrontRaised(b: Byte, t: nat, r: nat)
    requires t < 8
    ensures (SetBit(b, t) - b) * r == if (b / Mask(t)) % 2 == 1 then 0 else r * Mask(t)
  {
    var d, m := SetBit(b, t) - b, Mask(t);
    assert d == if (b / m) % 2 == 1 then 0 else m;
    hide *;
    ScaledBit(d, m, r);
  }

  lemma ScaledBit(d: int, m: nat, r: nat)
    requires d == 0 || d == m
    ensures d * r == if d == 0 then 0 else r * m
  {
  }

  lemma RangePositive(v: nat, b: nat, r: nat)
    requires b * r <= v < b * r + r
    ensures r > 0
  {
  }

  /** The bits above r are those of the front part. */
  lemma BitOfFront(v: nat, b: nat, m: nat, r: nat)
    requires m > 0 && r > 0 && b * r <= v < b * r + r
    ensures r * m > 0 && v / (r * m) == b / m
  {
    var q, s := b / m, b % m;
    assert b == m * q + s;
    PositiveFactors(r, m);
    Distribute(r, m * q, s);
    Associate(r, m, q);
    FrontRest(s, m, r);
    DivModUnique(v, q, v - q * (r * m), r * m);
  }

  lemma PositiveFactors(a: nat, b: nat)
    requires a > 0 && b > 0
    ensures a * b > 0
  {
  }

  lemma FrontRest(s: nat, m: nat, r: nat)
    requires s < m
    ensures 0 <= s * r && s * r + r <= r * m
  {
    ScaleMonotone(s + 1, m, r);
    Distribute(r, s, 1);
  }

  lemma LastParity(bs: Bytes)
    requires bs != []
    ensures BigEndian(bs) % 2 == bs[|bs| - 1] % 2
  {
    var front := BigEndian(bs[..|bs| - 1]);
    assert BigEndian(bs) == front * 256 + bs[|bs| - 1];
    hide BigEndian;
  }

  /** Raising the first byte raises the number by as many ranges of the others. */
  lemma FirstByteSet(bs: Bytes, b: Byte)
    requires bs != []
    ensures BigEndian(bs[0 := b]) == BigEndian(bs) + (b - bs[0]) * ByteRange(|bs| - 1)
  {
    BigEndianConcat(bs[..1], bs[1..]);
    BigEndianConcat([b], bs[1..]);
    assert bs == bs[..1] + bs[1..] && bs[0 := b] == [b] + bs[1..];
    OneByteValue(bs[..1]);
    OneByteValue([b]);
    Distribute(ByteRange(|bs| - 1), b, bs[0]);
  }

  lemma OneByteValue(bs: Bytes)
    requires |bs| == 1
    ensures BigEndian(bs) == bs[0]
  {
    assert BigEndian(bs[..0]) == 0;
  }

  lemma LastByteSet(bs: Bytes, b: Byte)
    requires bs != []
    ensures BigEndian(bs[|bs| - 1 := b]) == BigEndian(bs) + b - bs[|bs| - 1]
  {
    var last := |bs| - 1;
    assert bs[last := b][..last] == bs[..last];
  }

  // ---------- The search ----------

  predicate PassesSieve(c: nat) {
    forall i :: 0 <= i < |SMALL_PRIMES| && c % SMALL_PRIMES[i] == 0 ==> c == SMALL_PRIMES[i]
  }

  ghost predicate Good(c: nat, rounds: int, hmac256: Hmac256) {
    PassesSieve(c) && Accepted(c, rounds, hmac256)
  }

  /** What is searched for: the length in bits, the number of test rounds and of attempts. */
  datatype Search = Search(numBits: nat, rounds: int, attempts: nat, hmac256: Hmac256)

  /** The first good candidate among the next draws, with the state after its draw. */
  ghost function FirstGood(s: Search, hmac: Hmac, outLen: nat, st: State, attempts: nat): (found: Option<(nat, State)>)
    requires s.numBits > 0 && outLen > 0 && HasLength(hmac, outLen)
    decreases attempts
  {
    if attempts == 0 then None
    else
      var n := ByteCount(s.numBits);
      var c := Candidate(GenerateOutput(hmac, outLen, st, n), s.numBits);
      var st' := GenerateState(hmac, outLen, st, n);
      if Good(c, s.rounds, s.hmac256) then Some((c, st'))
      else FirstGood(s, hmac, outLen, st', attempts - 1)
  }

  method Sieve(candidate: nat) returns (isComposite: bool)
    ensures isComposite <==> !PassesSieve(candidate)
  {
    hide SMALL_PRIMES;
    isComposite := false;
    var i := 0;
    while i < |SMALL_PRIMES|
      invariant 0 <= i <= |SMALL_PRIMES| && !isComposite
      invariant forall j :: 0 <= j < i ==> candidate % SMALL_PRIMES[j] == 0 ==> candidate == SMALL_PRIMES[j]
    {
      if candidate % SMALL_PRIMES[i] == 0 && candidate != SMALL_PRIMES[i] {
        isComposite := true;
        break;
      }
      i := i + 1;
    }
  }

  method DrawCandidate(drbg: SecureDeterministicDrbg, numBits: nat) returns (candidate: nat)
    requires drbg.Valid() && numBits > 0
    modifies drbg
    ensures drbg.Valid()
    ensures var st := old(drbg.Abstract());
            && candidate == Candidate(GenerateOutput(drbg.hmac, drbg.outLen, st, ByteCount(numBits)), numBits)
            && drbg.Abstract() == GenerateState(drbg.hmac, drbg.outLen, st, ByteCount(numBits))
  {
    var bytes := drbg.Generate(ByteCount(numBits));
    bytes := bytes[0 := SetBit(bytes[0], TopBit(numBits))];
    bytes := bytes[|bytes| - 1 := SetBit(bytes[|bytes| - 1], 0)];
    return HexValue(BytesToHex(bytes));
  }

  method TestCandidate(candidate: nat, s: Search) returns (good: bool)
    ensures good <==> Good(candidate, s.rounds, s.hmac256)
  {
    var isComposite := Sieve(candidate);
    if isComposite { return false; }
    good := MillerRabinTest(candidate, s.rounds, s.hmac256);
  }

  method GenerateDeterministicPrime(drbg: SecureDeterministicDrbg, s: Search)
    returns (r: Result<nat, PrimeError>)
    requires drbg.Valid() && s.numBits > 0
    modifies drbg
    ensures drbg.Valid()
    ensures var found := FirstGood(s, drbg.hmac, drbg.outLen, old(drbg.Abstract()), s.attempts);
            if found.Some? then r == Ok(found.value.0) && drbg.Abstract() == found.value.1
            else r == Err(AttemptsExhausted)
  {
    hide GenerateOutput, GenerateState, Candidate, Good, HasLength, ByteCount;
    ghost var st := drbg.Abstract();
    var attempt := 0;
    while attempt < s.attempts
      invariant attempt <= s.attempts && drbg.Valid()
      invariant FirstGood(s, drbg.hmac, drbg.outLen, st, s.attempts)
             == FirstGood(s, drbg.hmac, drbg.outLen, drbg.Abstract(), s.attempts - attempt)
    {
      var candidate := DrawCandidate(drbg, s.numBits);
      attempt := attempt + 1;
      var good := TestCandidate(candidate, s);
      if good { return Ok(candidate); }
    }
    return Err(AttemptsExhausted);
  }

  /** What the search guarantees about its result. */
  lemma {:induction false} FoundPrime(s: Search, hmac: Hmac, outLen: nat, st: State, attempts: nat)
    requires s.numBits > 0 && outLen > 0 && HasLength(hmac, outLen)
    requires FirstGood(s, hmac, outLen, st, attempts).Some?
    ensures var c := FirstGood(s, hmac, outLen, st, attempts).value.0;
            && Good(c, s.rounds, s.hmac256) && c % 2 == 1
            && TwoTo(s.numBits - 1) <= c < TwoTo(8 * ByteCount(s.numBits))
            && (s.numBits % 8 == 0 ==> HasBits(c, s.numBits))
    decreases attempts
  {
    hide GenerateOutput, GenerateState, Candidate, Good, HasLength, TwoTo;
    var n := ByteCount(s.numBits);
    var c := Candidate(GenerateOutput(hmac, outLen, st, n), s.numBits);
    if Good(c, s.rounds, s.hmac256) {
      CandidateRange(GenerateOutput(hmac, outLen, st, n), s.numBits);
      WholeBytes(s.numBits);
    } else {
      FoundPrime(s, hmac, outLen, GenerateState(hmac, outLen, st, n), attempts - 1);
    }
  }

  lemma GoodExceedsOne(c: nat, rounds: int, hmac256: Hmac256)
    requires Good(c, rounds, hmac256)
    ensures c > 1
  {
  }

  /** A prime that is drawn is always taken. */
  lemma PrimeIsGood(c: nat, rounds: int, hmac256: Hmac256)
    requires Prime(c)
    ensures Good(c, rounds, hmac256)
  {
    PrimeAccepted(c, rounds, hmac256);
    forall i | 0 <= i < |SMALL_PRIMES| && c % SMALL_PRIMES[i] == 0 ensures c == SMALL_PRIMES[i] {
      DividesMod(SMALL_PRIMES[i], c);
    }
  }

  /** The sieve removes every number with one of its primes as a proper divisor, whatever else it is. */
  lemma SieveSound(c: nat, rounds: int, hmac256: Hmac256, i: nat)
    requires Good(c, rounds, hmac256) && i < |SMALL_PRIMES| && Divides(SMALL_PRIMES[i], c)
    ensures c == SMALL_PRIMES[i]
  {
    DividesMod(SMALL_PRIMES[i], c);
  }

  /** The sieve consists of exactly the primes below 257. */
  lemma SieveIsComplete(c: nat)
    requires c < 257
    ensures c in SMALL_PRIMES <==> Prime(c)
  {
    InList(c);
    if Listed(c) {
      NoSmallFactor(c);
      hide Prime, Listed;
      if c < 4 {
        PrimeByTrial(c, 1);
      } else if c < 16 {
        PrimeByTrial(c, 3);
      } else {
        PrimeByTrial(c, 15);
      }
    } else if c > 1 {
      DividesMod(2, c);
      DividesMod(3, c);
      DividesMod(5, c);
      DividesMod(7, c);
      DividesMod(11, c);
      DividesMod(13, c);
      if Prime(c) {
        assert c >= 7;
        hide Listed;
        NoFactorListed(c);
      }
    }
  }

  /** So a candidate passes it exactly when no prime below 257 divides it properly. */
  lemma SievePassesIff(c: nat)
    ensures PassesSieve(c) <==> forall p: nat :: p < 257 && Prime(p) && Divides(p, c) ==> c == p
  {
    if PassesSieve(c) {
      forall p: nat | p < 257 && Prime(p) && Divides(p, c)
        ensures c == p
      {
        SieveIsComplete(p);
        hide Prime, SMALL_PRIMES;
        DividesMod(p, c);
        var i :| 0 <= i < |SMALL_PRIMES| && SMALL_PRIMES[i] == p;
      }
    }
    if forall p: nat :: p < 257 && Prime(p) && Divides(p, c) ==> c == p {
      forall i | 0 <= i < |SMALL_PRIMES| && c % SMALL_PRIMES[i] == 0
        ensures c == SMALL_PRIMES[i]
      {
        var p := SMALL_PRIMES[i];
        InList(p);
        NoSmallFactor(p);
        SieveIsComplete(p);
        hide Prime, SMALL_PRIMES, Listed;
        DividesMod(p, c);
      }
    }
  }

  lemma LowEntries()
    ensures |SMALL_PRIMES| == 54
    ensures SMALL_PRIMES[0] == 2 && SMALL_PRIMES[1] == 3 && SMALL_PRIMES[2] == 5 && SMALL_PRIMES[3] == 7
    ensures SMALL_PRIMES[4] == 11 && SMALL_PRIMES[5] == 13 && SMALL_PRIMES[6] == 17 && SMALL_PRIMES[7] == 19
    ensures SMALL_PRIMES[8] == 23 && SMALL_PRIMES[9] == 29 && SMALL_PRIMES[10] == 31 && SMALL_PRIMES[11] == 37
    ensures SMALL_PRIMES[12] == 41 && SMALL_PRIMES[13] == 43 && SMALL_PRIMES[14] == 47 && SMALL_PRIMES[15] == 53
    ensures SMALL_PRIMES[16] == 59 && SMALL_PRIMES[17] == 61 && SMALL_PRIMES[18] == 67 && SMALL_PRIMES[19] == 71
    ensures SMALL_PRIMES[20] == 73 && SMALL_PRIMES[21] == 79 && SMALL_PRIMES[22] == 83 && SMALL_PRIMES[23] == 89
    ensures SMALL_PRIMES[24] == 97 && SMALL_PRIMES[25] == 101 && SMALL_PRIMES[26] == 103
  {
  }

  lemma HighEntries()
    ensures |SMALL_PRIMES| == 54
    ensures SMALL_PRIMES[27] == 107 && SMALL_PRIMES[28] == 109 && SMALL_PRIMES[29] == 113 && SMALL_PRIMES[30] == 127
    ensures SMALL_PRIMES[31] == 131 && SMALL_PRIMES[32] == 137 && SMALL_PRIMES[33] == 139 && SMALL_PRIMES[34] == 149
    ensures SMALL_PRIMES[35] == 151 && SMALL_PRIMES[36] == 157 && SMALL_PRIMES[37] == 163 && SMALL_PRIMES[38] == 167
    ensures SMALL_PRIMES[39] == 173 && SMALL_PRIMES[40] == 179 && SMALL_PRIMES[41] == 181 && SMALL_PRIMES[42] == 191
    ensures SMALL_PRIMES[43] == 193 && SMALL_PRIMES[44] == 197 && SMALL_PRIMES[45] == 199 && SMALL_PRIMES[46] == 211
    ensures SMALL_PRIMES[47] == 223 && SMALL_PRIMES[48] == 227 && SMALL_PRIMES[49] == 229 && SMALL_PRIMES[50] == 233
    ensures SMALL_PRIMES[51] == 239 && SMALL_PRIMES[52] == 241 && SMALL_PRIMES[53] == 251
  {
  }

  predicate Listed(c: nat) {
    c in {
      2, 3, 5, 7, 11, 13, 17, 19, 23, 29, 31, 37, 41, 43, 47, 53, 59, 61,
      67, 71, 73, 79, 83, 89, 97, 101, 103, 107, 109, 113, 127, 131, 137, 139, 149, 151,
      157, 163, 167, 173, 179, 181, 191, 193, 197, 199, 211, 223, 227, 229, 233, 239, 241, 251
    }
  }

  lemma InList(c: nat)
    ensures c in SMALL_PRIMES <==> Listed(c)
  {
    LowEntries();
    HighEntries();
    if c in SMALL_PRIMES {
      var i :| 0 <= i < |SMALL_PRIMES| && SMALL_PRIMES[i] == c;
      assert i in {
        0, 1, 2, 3, 4, 5, 6, 7, 8, 9, 10, 11, 12, 13, 14, 15, 16, 17, 18, 19, 20, 21, 22, 23, 24, 25, 26,
        27, 28, 29, 30, 31, 32, 33, 34, 35, 36, 37, 38, 39, 40, 41, 42, 43, 44, 45, 46, 47, 48, 49, 50, 51, 52, 53
      };
    }
  }

  lemma NoSmallFactor(c: nat)
    requires Listed(c)
    ensures 2 <= c < 256
    ensures c >= 4 ==> c % 2 != 0 && c % 3 != 0
    ensures c >= 16 ==> forall d: nat :: 2 <= d <= 15 ==> c % d != 0
  {
    if c >= 16 {
      assert c % 2 != 0 && c % 3 != 0 && c % 5 != 0 && c % 7 != 0 && c % 11 != 0 && c % 13 != 0;
      hide Listed;
      forall d: nat | 2 <= d <= 15
        ensures c % d != 0
      {
        assert d in {2, 3, 4, 5, 6, 7, 8, 9, 10, 11, 12, 13, 14, 15};
      }
    }
  }

  predicate NoFactor(c: nat) {
    && c % 2 != 0 && c % 3 != 0 && c % 5 != 0
    && (c % 7 != 0 || c == 7) && (c % 11 != 0 || c == 11) && (c % 13 != 0 || c == 13)
  }

  /** Without a factor 2, 3 or 5 there are eight residues modulo 30. */
  lemma NoFactorListed(c: nat)
    requires 7 <= c < 257 && NoFactor(c)
    ensures Listed(c)
  {
    var q, r := c / 30, c % 30;
    hide Listed;
    Residue(c);
    hide NoFactor;
    if q < 4 {
      LowListed(q, r);
    } else {
      HighListed(q, r);
    }
  }

  lemma Residue(c: nat)
    requires c % 2 != 0 && c % 3 != 0 && c % 5 != 0
    ensures c % 30 in {1, 7, 11, 13, 17, 19, 23, 29}
  {
    var q, r := c / 30, c % 30;
    DivModUnique(c, 15 * q + r / 2, r % 2, 2);
    DivModUnique(c, 10 * q + r / 3, r % 3, 3);
    DivModUnique(c, 6 * q + r / 5, r % 5, 5);
    ResidueListed(r);
  }

  lemma ResidueListed(r: nat)
    requires r < 30 && r % 2 != 0 && r % 3 != 0 && r % 5 != 0
    ensures r in {1, 7, 11, 13, 17, 19, 23, 29}
  {
  }

  lemma LowListed(q: nat, r: nat)
    requires q < 4 && r in {1, 7, 11, 13, 17, 19, 23, 29} && 30 * q + r >= 7 && NoFactor(30 * q + r)
    ensures Listed(30 * q + r)
  {
    assert q in {0, 1, 2, 3};
  }

  lemma HighListed(q: nat, r: nat)
    requires 4 <= q < 9 && r in {1, 7, 11, 13, 17, 19, 23, 29} && 30 * q + r < 257 && NoFactor(30 * q + r)
    ensures Listed(30 * q + r)
  {
    assert q in {4, 5, 6, 7, 8};
  }

  // ---------- The draws ----------

  /** The i-th candidate that a generator in this state leads to, when it is asked again and again. */
  function CandidateAt(hmac: Hmac, outLen: nat, st: State, numBits: nat, i: nat): nat
    requires numBits > 0 && outLen > 0 && HasLength(hmac, outLen)
  {
    Candidate(GenerateOutput(hmac, outLen, StateAt(hmac, outLen, st, numBits, i), ByteCount(numBits)), numBits)
  }

  /** The state before the i-th request. */
  function StateAt(hmac: Hmac, outLen: nat, st: State, numBits: nat, i: nat): State
    requires outLen > 0
    decreases i
  {
    if i == 0 then st else StateAt(hmac, outLen, GenerateState(hmac, outLen, st, ByteCount(numBits)), numBits, i - 1)
  }

  lemma {:induction false} StatesAdd(hmac: Hmac, outLen: nat, st: State, numBits: nat, i: nat, j: nat)
    requires outLen > 0
    ensures StateAt(hmac, outLen, StateAt(hmac, outLen, st, numBits, i), numBits, j)
         == StateAt(hmac, outLen, st, numBits, i + j)
    decreases i
  {
    hide GenerateState;
    if i > 0 {
      StatesAdd(hmac, outLen, GenerateState(hmac, outLen, st, ByteCount(numBits)), numBits, i - 1, j);
    }
  }

  ghost predicate GoodAt(s: Search, hmac: Hmac, outLen: nat, st: State, i: nat)
    requires s.numBits > 0 && outLen > 0 && HasLength(hmac, outLen)
  {
    Good(CandidateAt(hmac, outLen, st, s.numBits, i), s.rounds, s.hmac256)
  }

  /** The i-th candidate is the first good one, and this is it, with the state after its request. */
  ghost predicate FoundAt(s: Search, hmac: Hmac, outLen: nat, st: State, i: nat, found: (nat, State))
    requires s.numBits > 0 && outLen > 0 && HasLength(hmac, outLen)
  {
    && GoodAt(s, hmac, outLen, st, i) && (forall j: nat :: j < i ==> !GoodAt(s, hmac, outLen, st, j))
    && found == (CandidateAt(hmac, outLen, st, s.numBits, i), StateAt(hmac, outLen, st, s.numBits, i + 1))
  }

  /** The search finds the first good one of the allowed number of candidates, if there is one, and leaves the
      generator in the state after that request. */
  lemma {:induction false} FirstGoodIff(s: Search, hmac: Hmac, outLen: nat, st: State, attempts: nat)
    requires s.numBits > 0 && outLen > 0 && HasLength(hmac, outLen)
    ensures var found := FirstGood(s, hmac, outLen, st, attempts);
            && (found.None? <==> forall i: nat :: i < attempts ==> !GoodAt(s, hmac, outLen, st, i))
            && (found.Some? ==> exists i: nat :: i < attempts && FoundAt(s, hmac, outLen, st, i, found.value))
    decreases attempts
  {
    hide GenerateOutput, GenerateState, Candidate, Good, HasLength, ByteCount;
    if attempts > 0 {
      var next := GenerateState(hmac, outLen, st, ByteCount(s.numBits));
      Later(s, hmac, outLen, st);
      if GoodAt(s, hmac, outLen, st, 0) {
        assert FoundAt(s, hmac, outLen, st, 0, FirstGood(s, hmac, outLen, st, attempts).value);
      } else {
        FirstGoodIff(s, hmac, outLen, next, attempts - 1);
        assert FirstGood(s, hmac, outLen, st, attempts) == FirstGood(s, hmac, outLen, next, attempts - 1);
        hide FirstGood, CandidateAt, StateAt, GoodAt;
        var found := FirstGood(s, hmac, outLen, st, attempts);
        if found.Some? {
          var i: nat :| i < attempts - 1 && FoundAt(s, hmac, outLen, next, i, found.value);
          LaterFound(s, hmac, outLen, st, i, found.value);
        }
        if i: nat :| i < attempts && GoodAt(s, hmac, outLen, st, i) {
          assert i > 0 && GoodAt(s, hmac, outLen, st, (i - 1) + 1);
          assert GoodAt(s, hmac, outLen, next, i - 1);
        }
      }
    }
  }

  /** The candidates after the first are those that the next state leads to. */
  lemma Later(s: Search, hmac: Hmac, outLen: nat, st: State)
    requires s.numBits > 0 && outLen > 0 && HasLength(hmac, outLen)
    ensures var next := GenerateState(hmac, outLen, st, ByteCount(s.numBits));
            && (forall i: nat :: GoodAt(s, hmac, outLen, st, i + 1) <==> GoodAt(s, hmac, outLen, next, i))
            && StateAt(hmac, outLen, st, s.numBits, 1) == next
  {
    hide GenerateOutput, GenerateState, Candidate, Good, HasLength, ByteCount;
    var next := GenerateState(hmac, outLen, st, ByteCount(s.numBits));
    forall i: nat
      ensures GoodAt(s, hmac, outLen, st, i + 1) <==> GoodAt(s, hmac, outLen, next, i)
    {
      assert StateAt(hmac, outLen, st, s.numBits, i + 1) == StateAt(hmac, outLen, next, s.numBits, i);
    }
    assert StateAt(hmac, outLen, st, s.numBits, 1) == StateAt(hmac, outLen, next, s.numBits, 0);
  }

  lemma LaterFound(s: Search, hmac: Hmac, outLen: nat, st: State, i: nat, found: (nat, State))
    requires s.numBits > 0 && outLen > 0 && HasLength(hmac, outLen) && !GoodAt(s, hmac, outLen, st, 0)
    requires FoundAt(s, hmac, outLen, GenerateState(hmac, outLen, st, ByteCount(s.numBits)), i, found)
    ensures FoundAt(s, hmac, outLen, st, i + 1, found)
  {
    var next := GenerateState(hmac, outLen, st, ByteCount(s.numBits));
    Later(s, hmac, outLen, st);
    assert StateAt(hmac, outLen, st, s.numBits, i + 1) == StateAt(hmac, outLen, next, s.numBits, i);
    assert StateAt(hmac, outLen, st, s.numBits, i + 2) == StateAt(hmac, outLen, next, s.numBits, i + 1);
    hide GenerateOutput, GenerateState, Candidate, Good, HasLength, ByteCount, StateAt;
    assert CandidateAt(hmac, outLen, st, s.numBits, i + 1) == CandidateAt(hmac, outLen, next, s.numBits, i);
    hide GoodAt, CandidateAt;
    forall j: nat | j < i + 1
      ensures !GoodAt(s, hmac, outLen, st, j)
    {
      if j > 0 {
        assert !GoodAt(s, hmac, outLen, next, j - 1);
        assert GoodAt(s, hmac, outLen, st, (j - 1) + 1) <==> GoodAt(s, hmac, outLen, next, j - 1);
      }
    }
  }
}
