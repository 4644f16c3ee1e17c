/** The deterministic Miller-Rabin test of the voting service: twelve fixed witnesses, reduced by the
    code into [2, n-1], then witnesses derived from the candidate with HMAC-SHA-256. */
module MillerRabin {
  import opened NumberTheory
  import opened Fermat
  import opened ByteStrings
  import opened Hashing
  import opened VotingArithmetic

  const WITNESSES: seq<nat> := [2, 3, 5, 7, 11, 13, 17, 19, 23, 29, 31, 37]

  // ---------- What one round decides ----------

  /** The odd part of n and the number of halvings that reach it. */
  function Halvings(n: nat): (r: nat)
    requires n > 0
  {
    if n % 2 == 0 then 1 + Halvings(n / 2) else 0
  }

  function OddPart(n: nat): (d: nat)
    requires n > 0
    ensures d % 2 == 1
  {
    if n % 2 == 0 then OddPart(n / 2) else n
  }

  lemma {:induction false} Decomposed(n: nat)
    requires n > 0
    ensures n == OddPart(n) * TwoTo(Halvings(n))
    ensures n % 2 == 0 <==> Halvings(n) > 0
  {
    if n % 2 == 0 {
      Decomposed(n / 2);
      Associate(2, OddPart(n), TwoTo(Halvings(n / 2)));
    }
  }

  /** x squared j times. */
  function Squared(x: int, j: nat): int {
    if j == 0 then x else Squared(x, j - 1) * Squared(x, j - 1)
  }

  lemma {:induction false} SquaredIsPower(a: int, d: nat, j: nat)
    ensures Squared(Pow(a, d), j) == Pow(a, d * TwoTo(j))
  {
    if j > 0 {
      SquaredIsPower(a, d, j - 1);
      Associate(2, d, TwoTo(j - 1));
      PowAdd(a, d * TwoTo(j - 1), d * TwoTo(j - 1));
    }
  }

  /** a^(n-1), reached from the odd power by squaring. */
  lemma FullPower(a: int, n: nat)
    requires n > 1
    ensures Squared(Pow(a, OddPart(n - 1)), Halvings(n - 1)) == Pow(a, n - 1)
  {
    Decomposed(n - 1);
    SquaredIsPower(a, OddPart(n - 1), Halvings(n - 1));
  }

  /** n is a strong probable prime to base a. The disjunct j = 0 is tried even when n - 1 is odd. */
  ghost predicate StrongProbablePrime(n: nat, a: int)
    requires n > 3
  {
    var x, r := Pow(a, OddPart(n - 1)), Halvings(n - 1);
    Cong(x, 1, n) || exists j: nat :: (j < r || j == 0) && Cong(Squared(x, j), -1, n)
  }

  /** Once a square is 1 it stays 1. */
  lemma {:induction false} StaysOne(x: int, i: nat, j: nat, n: nat)
    requires i <= j && Cong(Squared(x, i), 1, n)
    ensures Cong(Squared(x, j), 1, n)
    decreases j - i
  {
    if i < j {
      StaysOne(x, i, j - 1, n);
      CongMul(Squared(x, j - 1), 1, Squared(x, j - 1), 1, n);
    }
  }

  lemma OneIsNotMinusOne(x: int, n: nat)
    requires n > 2 && Cong(x, 1, n)
    ensures !Cong(x, -1, n)
  {
    if Cong(x, -1, n) {
      CongSym(x, 1, n);
      CongTrans(1, x, -1, n);
      DividesBound(n, 2);
    }
  }

  lemma NoMinusOneAfterOne(x: int, i: nat, n: nat)
    requires n > 2 && Cong(Squared(x, i), 1, n)
    ensures forall j: nat :: i <= j ==> !Cong(Squared(x, j), -1, n)
  {
    forall j: nat | i <= j ensures !Cong(Squared(x, j), -1, n) {
      StaysOne(x, i, j, n);
      OneIsNotMinusOne(Squared(x, j), n);
    }
  }

  /** A residue is 1 or n - 1 exactly when the value is congruent to 1 or -1. */
  lemma ResidueTests(x: int, y: int, n: nat)
    requires n > 2 && x == y % n
    ensures x == 1 <==> Cong(y, 1, n)
    ensures x == n - 1 <==> Cong(y, -1, n)
  {
    CongResidues(y, 1, n);
    CongResidues(y, -1, n);
    DivModUnique(1, 0, 1, n);
    DivModUnique(-1, -1, n - 1, n);
  }

  lemma SquareResidue(x: int, y: int, n: nat)
    requires n > 2 && x == y % n
    ensures (x * x) % n == (y * y) % n
  {
    CongMod(y, n);
    CongMul(x, y, x, y, n);
    CongResidues(x * x, y * y, n);
  }

  method WitnessLoop(a: nat, d: nat, r: nat, n: nat) returns (pass: bool)
    requires n > 3 && d == OddPart(n - 1) && r == Halvings(n - 1)
    ensures pass <==> StrongProbablePrime(n, a)
  {
    ghost var y := Pow(a, d);
    var power := ModPow(a, d, n);
    var x := power.value;
    PowNonNegative(a, d);
    ResidueTests(x, y, n);
    if x == 1 || x == n - 1 {
      assert x == n - 1 ==> Cong(Squared(y, 0), -1, n);
      return true;
    }
    var i := 1;
    while i < r
      invariant 1 <= i && x == Squared(y, i - 1) % n
      invariant i <= r || i == 1
      invariant forall j: nat :: j < i ==> !Cong(Squared(y, j), -1, n)
    {
      SquareResidue(x, Squared(y, i - 1), n);
      x := (x * x) % n;
      ResidueTests(x, Squared(y, i), n);
      if x == 1 {
        NoMinusOneAfterOne(y, i, n);
        return false;
      }
      if x == n - 1 { return true; }
      i := i + 1;
    }
    return false;
  }

  lemma PowNonNegative(a: nat, e: nat)
    ensures Pow(a, e) >= 0
  {
    if a == 0 {
      if e > 0 { PowZero(e); }
    } else {
      PowPositive(a, e);
    }
  }

  // ---------- The witnesses ----------

  /** The 32-byte HMAC of the round number under the candidate, both as hexadecimal text. */
  function Digest(n: nat, round: nat, hmac: Hmac256): (b: Bytes)
    ensures |b| == 32
  {
    HexIsAscii(ToHex(n));
    HexIsAscii(ToHex(round));
    hmac(Encode(ToHex(n)), Encode(ToHex(round)))
  }

  /** The base the code tries in round i. */
  function Base(n: nat, i: nat, hmac: Hmac256): (a: nat)
    requires n > 3
    ensures 2 <= a < n
  {
    if i < 12 then WITNESSES[i] % (n - 2) + 2
    else BigEndian(Digest(n, i, hmac)) % (n - 3) + 2
  }

  /** The bases themselves. For a candidate above 39 the first twelve are the small primes plus two; the others come
      from the HMAC of the round number under the candidate. Small candidates are decided without any. */
  lemma BasesTried(n: nat, i: nat, hmac: Hmac256)
    requires n > 39
    ensures Base(n, 0, hmac) == 4 && Base(n, 1, hmac) == 5 && Base(n, 2, hmac) == 7 && Base(n, 3, hmac) == 9
    ensures Base(n, 4, hmac) == 13 && Base(n, 5, hmac) == 15 && Base(n, 6, hmac) == 19 && Base(n, 7, hmac) == 21
    ensures Base(n, 8, hmac) == 25 && Base(n, 9, hmac) == 31 && Base(n, 10, hmac) == 33 && Base(n, 11, hmac) == 39
    ensures IsAscii(ToHex(n)) && IsAscii(ToHex(i))
    ensures i >= 12 ==> Base(n, i, hmac) == BigEndian(hmac(Encode(ToHex(n)), Encode(ToHex(i)))) % (n - 3) + 2
  {
    HexIsAscii(ToHex(n));
    HexIsAscii(ToHex(i));
    hide ToHex, BigEndian;
    SmallRemainder(2, n - 2);
    SmallRemainder(3, n - 2);
    SmallRemainder(5, n - 2);
    SmallRemainder(7, n - 2);
    SmallRemainder(11, n - 2);
    SmallRemainder(13, n - 2);
    SmallRemainder(17, n - 2);
    SmallRemainder(19, n - 2);
    SmallRemainder(23, n - 2);
    SmallRemainder(29, n - 2);
    SmallRemainder(31, n - 2);
    SmallRemainder(37, n - 2);
  }

  lemma SmallRemainder(w: nat, m: nat)
    requires w < m
    ensures w % m == w
  {
    DivModUnique(w, 0, w, m);
  }

  lemma SmallCandidates(k: int, hmac: Hmac256)
    ensures !Accepted(-1, k, hmac) && !Accepted(0, k, hmac) && !Accepted(1, k, hmac) && !Accepted(4, k, hmac)
    ensures Accepted(2, k, hmac) && Accepted(3, k, hmac)
    ensures k >= 1 ==> !Accepted(9, k, hmac)
  {
    if k >= 1 {
      NineRejected(hmac);
      assert !StrongProbablePrime(9, Base(9, 0, hmac));
    }
  }

  /** The first base for 9 is 2 % 7 + 2 == 4, and 4 is no strong liar for 9. */
  lemma NineRejected(hmac: Hmac256)
    ensures Base(9, 0, hmac) == 4 && !StrongProbablePrime(9, 4)
  {
  }

  method DigestToInteger(digest: Bytes) returns (h: nat)
    ensures h == BigEndian(digest)
  {
    h := 0;
    for j := 0 to |digest|
      invariant h == BigEndian(digest[..j])
    {
      assert digest[..j + 1][..j] == digest[..j];
      h := h * 256 + digest[j];
    }
    assert digest[..|digest|] == digest;
  }

  /** What the whole test decides. */
  ghost predicate Accepted(n: int, k: int, hmac: Hmac256) {
    if n <= 1 || n == 4 then false
    else if n <= 3 then true
    else forall i: nat :: i < k ==> StrongProbablePrime(n, Base(n, i, hmac))
  }

  method MillerRabinTest(n: int, k: int, hmac: Hmac256) returns (accept: bool)
    ensures accept <==> Accepted(n, k, hmac)
  {
    if n <= 1 || n == 4 { return false; }
    if n <= 3 { return true; }
    var d, r := n - 1, 0;
    while d % 2 == 0
      invariant d > 0 && OddPart(d) == OddPart(n - 1) && r + Halvings(d) == Halvings(n - 1)
      decreases d
    {
      d := d / 2;
      r := r + 1;
    }
    var rounds := if k < |WITNESSES| then k else |WITNESSES|;
    var i := 0;
    while i < rounds
      invariant 0 <= i && (i <= rounds || i == 0)
      invariant forall j: nat :: j < i ==> StrongProbablePrime(n, Base(n, j, hmac))
    {
      var a := WITNESSES[i] % (n - 2) + 2;
      assert a == Base(n, i, hmac);
      var pass := WitnessLoop(a, d, r, n);
      if !pass { return false; }
      i := i + 1;
    }
    if k > |WITNESSES| {
      i := |WITNESSES|;
      while i < k
        invariant 12 <= i <= k
        invariant forall j: nat :: j < i ==> StrongProbablePrime(n, Base(n, j, hmac))
      {
        var hash := DigestToInteger(Digest(n, i, hmac));
        var a := hash % (n - 3) + 2;
        assert a == Base(n, i, hmac);
        var pass := WitnessLoop(a, d, r, n);
        if !pass { return false; }
        i := i + 1;
      }
    }
    return true;
  }

  // ---------- What acceptance and rejection mean ----------

  /** Going back from a square that is 1: the first root that is not 1 is -1, modulo a prime. */
  lemma {:induction false} RootsOfOne(p: nat, x: int, r: nat)
    requires Prime(p) && Cong(Squared(x, r), 1, p)
    ensures Cong(x, 1, p) || exists j: nat :: j < r && Cong(Squared(x, j), -1, p)
  {
    if r > 0 {
      var j: nat := r - 1;
      PrimeSquareRoots(p, Squared(x, j));
      if Cong(Squared(x, j), -1, p) {
        assert exists j: nat :: j < r && Cong(Squared(x, j), -1, p);
      } else {
        RootsOfOne(p, x, j);
      }
    }
  }

  /** No prime is ever rejected, whatever the number of rounds and the hash. */
  lemma PrimeAccepted(p: nat, k: int, hmac: Hmac256)
    requires Prime(p)
    ensures Accepted(p, k, hmac)
  {
    if p == 4 {
      DividesIntro(2, 2, 4);
      assert false;
    }
    if p > 3 {
      forall i: nat | i < k ensures StrongProbablePrime(p, Base(p, i, hmac)) {
        var a := Base(p, i, hmac);
        if Divides(p, a) { DividesBound(p, a); }
        FermatLittle(a, p);
        FullPower(a, p);
        RootsOfOne(p, Pow(a, OddPart(p - 1)), Halvings(p - 1));
      }
    }
  }

  /** A base that passes a round is invertible, so it shares no factor with the candidate. */
  lemma PassingBaseIsUnit(n: nat, a: nat)
    requires n > 3 && StrongProbablePrime(n, a)
    ensures Gcd(a, n) == 1
  {
    var d, r := OddPart(n - 1), Halvings(n - 1);
    var e: nat, s: int;
    if Cong(Pow(a, d), 1, n) {
      e, s := d, 1;
    } else {
      var j: nat :| (j < r || j == 0) && Cong(Squared(Pow(a, d), j), -1, n);
      SquaredIsPower(a, d, j);
      e, s := d * TwoTo(j), -1;
      assert e > 0 by { assert d >= 1 && TwoTo(j) >= 1; }
    }
    assert Pow(a, e) == a * Pow(a, e - 1);
    CongRefl(s, n);
    CongMul(Pow(a, e), s, s, s, n);
    Associate(a, Pow(a, e - 1), s);
    assert IsInverse(a, Pow(a, e - 1) * s, n);
    UnitCoprime(a, n);
  }

  /** A base that passes a round for an odd candidate is a Fermat witness too. */
  lemma PassingBaseIsFermat(n: nat, a: nat)
    requires n > 3 && n % 2 == 1 && StrongProbablePrime(n, a)
    ensures Cong(Pow(a, n - 1), 1, n)
  {
    var x, r := Pow(a, OddPart(n - 1)), Halvings(n - 1);
    Decomposed(n - 1);
    FullPower(a, n);
    if Cong(x, 1, n) {
      StaysOne(x, 0, r, n);
    } else {
      var j: nat :| (j < r || j == 0) && Cong(Squared(x, j), -1, n);
      CongMul(Squared(x, j), -1, Squared(x, j), -1, n);
      StaysOne(x, j + 1, r, n);
    }
  }

  /** With at least one round every even candidate above 2 is rejected. */
  lemma EvenRejected(n: nat, k: int, hmac: Hmac256)
    requires n > 2 && n % 2 == 0 && k >= 1
    ensures !Accepted(n, k, hmac)
  {
    if n > 4 && Accepted(n, k, hmac) {
      var a := Base(n, 0, hmac);
      DivModUnique(2, 0, 2, n - 2);
      assert a == 4 && StrongProbablePrime(n, 4);
      PassingBaseIsUnit(n, 4);
      DividesIntro(2, 2, 4);
      DividesIntro(2, n / 2, n);
      GcdGreatest(4, n, 2);
      DividesBound(2, 1);
    }
  }

  /** Acceptance: each base that was tried is coprime to the candidate, which is odd and a strong and
      a Fermat probable prime to that base. */
  lemma AcceptedMeans(n: nat, k: int, hmac: Hmac256, i: nat)
    requires n > 3 && Accepted(n, k, hmac) && i < k
    ensures n % 2 == 1
    ensures var a := Base(n, i, hmac);
            && 2 <= a < n && Gcd(a, n) == 1
            && StrongProbablePrime(n, a)
            && Cong(Pow(a, n - 1), 1, n)
  {
    if n % 2 == 0 { EvenRejected(n, k, hmac); }
    PassingBaseIsUnit(n, Base(n, i, hmac));
    PassingBaseIsFermat(n, Base(n, i, hmac));
  }
}
