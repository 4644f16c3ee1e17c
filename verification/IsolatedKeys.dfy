/** Paillier keys with instance isolation: every ciphertext carries an HMAC under the key id and the
    current instance id of the public key object, and the operations check it. */
module IsolatedKeys {
  import opened ByteStrings
  import opened Hashing
  import opened Results
  import opened Paillier

  datatype VotingError =
    | InvalidPublicKeyIdMismatch
    | InstanceIdMismatch
    | InvalidCiphertextHmac
    | FailedToParse
    | Thrown

  const PUB_KEY_OFFSET: nat := 768
  const HMAC_LENGTH: nat := 64

  // ---------- Text operations on big integers ----------

  /** bigint.toString(16) */
  function Text(c: int): (s: string)
    ensures |s| > 0
  {
    if c < 0 then "-" + ToHex(-c) else ToHex(c)
  }

  /** s.slice(-n) */
  function LastChars(s: string, n: nat): string {
    if |s| <= n then s else s[|s| - n..]
  }

  /** s.slice(0, -n) for n > 0 */
  function AllButLast(s: string, n: nat): string {
    if |s| <= n then "" else s[..|s| - n]
  }

  /** BigInt('0x' + s) */
  function ParseHex(s: string): Option<nat> {
    if s == "" || !IsHex(s) then None else Some(HexValue(s))
  }

  // ---------- The public key at one moment ----------

  /** The padded text of a number, as bytes. */
  function NumberText(v: nat): (bs: Bytes)
    ensures |bs| >= PUB_KEY_OFFSET
  {
    HexIsAscii(PadStart(ToHex(v), PUB_KEY_OFFSET));
    Encode(PadStart(ToHex(v), PUB_KEY_OFFSET))
  }

  /** What the public key object knows at one moment; the operations compute from it alone. */
  datatype KeyView = KeyView(n: nat, g: nat, keyId: Bytes, instanceId: Bytes, sha: Sha256, hmac: Hmac256) {

    function Key(): PublicKey {
      PublicKey(n, g)
    }

    /** keyId is the hash of the padded text of n. */
    predicate KeyIdValid() {
      keyId == sha(NumberText(n))
    }

    function Mac(c: nat): (mac: Bytes)
      ensures |mac| == 32
    {
      HexIsAscii(ToHex(c));
      hmac(keyId + instanceId, Encode(ToHex(c)))
    }

    function Tag(c: nat): (tagged: nat) {
      HexValue(PadStart(ToHex(c), HMAC_LENGTH * 2) + BytesToHex(Mac(c)))
    }

    function ExtractInstanceId(tagged: int): (id: Bytes) {
      var inner := ParseHex(AllButLast(Text(tagged), HMAC_LENGTH));
      if inner.Some? && LastChars(Text(tagged), HMAC_LENGTH) == BytesToHex(Mac(inner.value)) then instanceId
      else [0]
    }

    function EncryptAsync(m: int, r: nat): Result<nat, VotingError>
      requires n > 0
    {
      if !KeyIdValid() then Err(InvalidPublicKeyIdMismatch)
      else
        var c := Encrypt(Key(), m, r);
        if c.None? then Err(Thrown) else Ok(Tag(c.value))
    }

    function MultiplyAsync(tagged: int, constant: int): Result<nat, VotingError>
      requires n > 0
    {
      if !KeyIdValid() then Err(InvalidPublicKeyIdMismatch)
      else if ExtractInstanceId(tagged) != instanceId then Err(InstanceIdMismatch)
      else
        var inner := ParseHex(AllButLast(Text(tagged), HMAC_LENGTH));
        if inner.None? then Err(Thrown)
        else
          var product := Multiply(Key(), inner.value, constant);
          if product.None? then Err(Thrown) else Ok(Tag(product.value))
    }

    function AdditionAsync(a: int, b: int): Result<nat, VotingError>
      requires n > 0
    {
      if !KeyIdValid() then Err(InvalidPublicKeyIdMismatch)
      else if ExtractInstanceId(a) != instanceId || ExtractInstanceId(b) != instanceId then Err(InstanceIdMismatch)
      else
        var innerA := ParseHex(AllButLast(Text(a), HMAC_LENGTH));
        var innerB := ParseHex(AllButLast(Text(b), HMAC_LENGTH));
        if innerA.None? || innerB.None? then Err(Thrown)
        else Ok(Tag(Add(Key(), innerA.value, innerB.value)))
    }

    /** The hash of key id, modulus bytes and salt that becomes the next instance id. */
    function NextInstanceId(salt: Bytes): (id: Bytes)
      ensures |id| == 32
    {
      sha(keyId + HexPairs(EvenHex(PadStart(ToHex(n), PUB_KEY_OFFSET))) + salt)
    }
  }

  function EvenHex(s: string): (t: string)
    ensures |t| % 2 == 0
  {
    if |s| % 2 == 0 then s else "0" + s
  }

  method HexToBytes(hex: string) returns (bytes: array<Byte>)
    ensures fresh(bytes) && bytes[..] == HexPairs(EvenHex(hex))
  {
    bytes := FillFromPairs(EvenHex(hex));
  }

  method BytesEqual(a: Bytes, b: Bytes) returns (equal: bool)
    ensures equal <==> a == b
  {
    if |a| != |b| { return false; }
    var i := 0;
    while i < |a|
      invariant 0 <= i <= |a| && a[..i] == b[..i]
    {
      if a[i] != b[i] { return false; }
      i := i + 1;
    }
    return true;
  }

  // ---------- Tags ----------

  lemma MacText(v: KeyView, c: nat)
    ensures var h := BigEndian(v.Mac(c));
            h < SixteenTo(64) && BytesToHex(v.Mac(c)) == HexField(h, 64)
  {
    BytesToHexField(v.Mac(c));
  }

  /** The tagged number is the ciphertext shifted by 64 hexadecimal digits plus its HMAC. */
  lemma TagValue(v: KeyView, c: nat)
    ensures v.Tag(c) == c * SixteenTo(64) + BigEndian(v.Mac(c))
  {
    MacText(v, c);
    HexConcat(PadStart(ToHex(c), 128), BytesToHex(v.Mac(c)));
    PadStartValue(ToHex(c), 128);
    HexRoundTrip(c);
    HexFieldValue(BigEndian(v.Mac(c)), 64);
  }

  /** For a positive ciphertext the text of the tagged number splits back into both parts. */
  lemma TagSplits(v: KeyView, c: nat)
    requires c > 0
    ensures Text(v.Tag(c)) == ToHex(c) + BytesToHex(v.Mac(c))
    ensures LastChars(Text(v.Tag(c)), HMAC_LENGTH) == BytesToHex(v.Mac(c))
    ensures ParseHex(AllButLast(Text(v.Tag(c)), HMAC_LENGTH)) == Some(c)
  {
    TagValue(v, c);
    MacText(v, c);
    HexSplit(c, BigEndian(v.Mac(c)), 64);
    HexRoundTrip(c);
    HexIsAscii(ToHex(c));
    var s := ToHex(c) + BytesToHex(v.Mac(c));
    assert s[..|s| - 64] == ToHex(c) && s[|s| - 64..] == BytesToHex(v.Mac(c));
  }

  /** The number zero cannot be tagged: its text has no digits before the tag. */
  lemma ZeroTagRefused(v: KeyView)
    ensures |Text(v.Tag(0))| <= HMAC_LENGTH && v.ExtractInstanceId(v.Tag(0)) == [0]
  {
    hide SixteenTo, HexField, BytesToHex, HexValue, ToHex, BigEndian;
    TagValue(v, 0);
    MacText(v, 0);
    ShortText(BigEndian(v.Mac(0)), 64);
  }

  predicate SameMac(before: KeyView, now: KeyView, c: nat) {
    before.Mac(c) == now.Mac(c)
  }

  /** The operations go on with a ciphertext whose extracted id is the current one. */
  predicate Accepts(v: KeyView, tagged: int) {
    v.ExtractInstanceId(tagged) == v.instanceId
  }

  /** A ciphertext tagged in one state of the key is accepted in another exactly when both states give
      it the same HMAC. The placeholder result [0] would make a key whose own id is [0] accept anything. */
  lemma AcceptedIff(before: KeyView, now: KeyView, c: nat)
    requires c > 0
    ensures Accepts(now, before.Tag(c)) <==> SameMac(before, now, c) || now.instanceId == [0]
  {
    hide BytesToHex, ParseHex, LastChars, AllButLast, Text, KeyView.Tag, KeyView.Mac;
    TagSplits(before, c);
    if BytesToHex(before.Mac(c)) == BytesToHex(now.Mac(c)) {
      BytesToHexInjective(before.Mac(c), now.Mac(c));
    }
  }

  // ---------- The objects ----------

  class IsolatedPublicKey {
    const n: nat
    const g: nat
    const keyId: Bytes
    const sha: Sha256
    const hmac: Hmac256
    var currentInstanceId: Bytes

    function View(): KeyView
      reads this
    {
      KeyView(n, g, keyId, currentInstanceId, sha, hmac)
    }

    /** The factory for fresh keys. */
    constructor Create(n: nat, g: nat, keyId: Bytes, salt: Bytes, sha: Sha256, hmac: Hmac256)
      ensures View() == KeyView(n, g, keyId, KeyView(n, g, keyId, [], sha, hmac).NextInstanceId(salt), sha, hmac)
    {
      this.n, this.g, this.keyId, this.sha, this.hmac := n, g, keyId, sha, hmac;
      currentInstanceId := [];
      new;
      UpdateInstanceId(salt);
    }

    /** The factory for deserialized keys. */
    constructor FromBuffer(n: nat, g: nat, keyId: Bytes, instanceId: Bytes, sha: Sha256, hmac: Hmac256)
      ensures View() == KeyView(n, g, keyId, instanceId, sha, hmac)
    {
      this.n, this.g, this.keyId, this.sha, this.hmac := n, g, keyId, sha, hmac;
      currentInstanceId := instanceId;
    }

    method UpdateInstanceId(salt: Bytes)
      modifies this
      ensures View() == old(View()).(instanceId := old(View()).NextInstanceId(salt))
    {
      var nBytes := HexToBytes(PadStart(ToHex(n), PUB_KEY_OFFSET));
      currentInstanceId := sha(keyId + nBytes[..] + salt);
    }

    method EncryptAsync(m: int, r: nat) returns (result: Result<nat, VotingError>)
      requires n > 0
      ensures result == View().EncryptAsync(m, r)
    {
      var valid := VerifyKeyId();
      if !valid { return Err(InvalidPublicKeyIdMismatch); }
      var c := Encrypt(PublicKey(n, g), m, r);
      if c.None? { return Err(Thrown); }
      return Ok(View().Tag(c.value));
    }

    method MultiplyAsync(tagged: int, constant: int) returns (result: Result<nat, VotingError>)
      requires n > 0
      ensures result == View().MultiplyAsync(tagged, constant)
    {
      var valid := VerifyKeyId();
      if !valid { return Err(InvalidPublicKeyIdMismatch); }
      var same := BytesEqual(View().ExtractInstanceId(tagged), currentInstanceId);
      if !same { return Err(InstanceIdMismatch); }
      var inner := ParseHex(AllButLast(Text(tagged), HMAC_LENGTH));
      if inner.None? { return Err(Thrown); }
      var product := Multiply(PublicKey(n, g), inner.value, constant);
      if product.None? { return Err(Thrown); }
      return Ok(View().Tag(product.value));
    }

    method AdditionAsync(a: int, b: int) returns (result: Result<nat, VotingError>)
      requires n > 0
      ensures result == View().AdditionAsync(a, b)
    {
      var valid := VerifyKeyId();
      if !valid { return Err(InvalidPublicKeyIdMismatch); }
      var sameA := BytesEqual(View().ExtractInstanceId(a), currentInstanceId);
      var sameB := BytesEqual(View().ExtractInstanceId(b), currentInstanceId);
      if !sameA || !sameB { return Err(InstanceIdMismatch); }
      var innerA := ParseHex(AllButLast(Text(a), HMAC_LENGTH));
      var innerB := ParseHex(AllButLast(Text(b), HMAC_LENGTH));
      if innerA.None? || innerB.None? { return Err(Thrown); }
      return Ok(View().Tag(Add(PublicKey(n, g), innerA.value, innerB.value)));
    }

    method VerifyKeyId() returns (valid: bool)
      ensures valid <==> View().KeyIdValid()
    {
      valid := BytesEqual(keyId, sha(NumberText(n)));
    }
  }

  /** What decryption does, given the ids remembered at construction and the public key as it is now. */
  function Decryption(sk: PrivateKey, remembered: KeyView, now: KeyView, tagged: int): Result<nat, VotingError>
    requires sk.n > 0
  {
    if now.instanceId != remembered.instanceId then Err(InstanceIdMismatch)
    else
      var inner := ParseHex(AllButLast(Text(tagged), HMAC_LENGTH));
      if inner.None? then Err(FailedToParse)
      else if LastChars(Text(tagged), HMAC_LENGTH) != BytesToHex(remembered.Mac(inner.value)) then
        Err(InvalidCiphertextHmac)
      else Ok(Decrypt(sk, inner.value))
  }

  class IsolatedPrivateKey {
    const lambda: nat
    const mu: nat
    const originalKeyId: Bytes
    const originalInstanceId: Bytes
    const originalPublicKey: IsolatedPublicKey

    constructor (lambda: nat, mu: nat, publicKey: IsolatedPublicKey)
      ensures this.lambda == lambda && this.mu == mu && originalPublicKey == publicKey
      ensures Remembered() == publicKey.View()
    {
      this.lambda, this.mu, originalPublicKey := lambda, mu, publicKey;
      originalKeyId := publicKey.keyId;
      originalInstanceId := publicKey.currentInstanceId;
    }

    function Remembered(): KeyView {
      KeyView(originalPublicKey.n, originalPublicKey.g, originalKeyId, originalInstanceId,
              originalPublicKey.sha, originalPublicKey.hmac)
    }

    function Key(): PrivateKey {
      PrivateKey(lambda, mu, originalPublicKey.n)
    }

    method DecryptAsync(tagged: int) returns (r: Result<nat, VotingError>)
      requires originalPublicKey.n > 0
      ensures r == Decryption(Key(), Remembered(), originalPublicKey.View(), tagged)
    {
      var sameInstance := BytesEqual(originalPublicKey.currentInstanceId, originalInstanceId);
      if !sameInstance { return Err(InstanceIdMismatch); }
      var text := Text(tagged);
      var receivedHmac := LastChars(text, HMAC_LENGTH);
      var ciphertext := ParseHex(AllButLast(text, HMAC_LENGTH));
      if ciphertext.None? { return Err(FailedToParse); }
      HexIsAscii(ToHex(ciphertext.value));
      var signature := originalPublicKey.hmac(originalKeyId + originalInstanceId, Encode(ToHex(ciphertext.value)));
      if receivedHmac != BytesToHex(signature) { return Err(InvalidCiphertextHmac); }
      return Ok(Decrypt(Key(), ciphertext.value));
    }
  }

  /** Decrypting a tagged ciphertext succeeds exactly while the public key still has the remembered instance and the
      tag is the one that the remembered key gives, and then yields the inner decryption. */
  lemma DecryptionIff(sk: PrivateKey, before: KeyView, remembered: KeyView, now: KeyView, c: nat)
    requires c > 0 && sk.n > 0
    ensures Decryption(sk, remembered, now, before.Tag(c)) ==
      if now.instanceId != remembered.instanceId then Err(InstanceIdMismatch)
      else if SameMac(before, remembered, c) then Ok(Decrypt(sk, c))
      else Err(InvalidCiphertextHmac)
  {
    hide BytesToHex, ParseHex, LastChars, AllButLast, Text, KeyView.Tag, KeyView.Mac, Decrypt;
    TagSplits(before, c);
    if BytesToHex(before.Mac(c)) == BytesToHex(remembered.Mac(c)) {
      BytesToHexInjective(before.Mac(c), remembered.Mac(c));
    }
  }

  // ---------- In terms of the HMAC ----------

  /** A tagged number is the ciphertext, moved up by 64 hexadecimal digits, plus its HMAC as a number. */
  lemma TaggedNumber(v: KeyView, c: nat)
    ensures IsAscii(ToHex(c))
    ensures v.Tag(c) == c * SixteenTo(64) + BigEndian(v.hmac(v.keyId + v.instanceId, Encode(ToHex(c))))
  {
    HexIsAscii(ToHex(c));
    TagValue(v, c);
  }

  /** Any ciphertext with any 32 bytes in the place of the HMAC. The operations go on with it exactly when the bytes are
      the HMAC of that ciphertext, and so does decryption. */
  lemma TagDecides(v: KeyView, sk: PrivateKey, d: nat, mac: Bytes)
    requires d > 0 && |mac| == 32 && sk.n > 0
    ensures IsAscii(ToHex(d))
    ensures var tagged := d * SixteenTo(64) + BigEndian(mac);
            var expected := v.hmac(v.keyId + v.instanceId, Encode(ToHex(d)));
            && (Accepts(v, tagged) <==> mac == expected || v.instanceId == [0])
            && Decryption(sk, v, v, tagged)
                == if mac == expected then Ok(Decrypt(sk, d)) else Err(InvalidCiphertextHmac)
  {
    HexIsAscii(ToHex(d));
    var tagged := d * SixteenTo(64) + BigEndian(mac);
    NumberSplits(d, mac);
    var expected := v.hmac(v.keyId + v.instanceId, Encode(ToHex(d)));
    assert v.Mac(d) == expected;
    hide BytesToHex, ParseHex, LastChars, AllButLast, Text, KeyView.Mac, Decrypt, SixteenTo;
    if BytesToHex(mac) == BytesToHex(expected) {
      BytesToHexInjective(mac, expected);
    }
  }

  lemma NumberSplits(d: nat, mac: Bytes)
    requires d > 0 && |mac| == 32
    ensures var text := Text(d * SixteenTo(64) + BigEndian(mac));
            LastChars(text, HMAC_LENGTH) == BytesToHex(mac) && ParseHex(AllButLast(text, HMAC_LENGTH)) == Some(d)
  {
    BytesToHexField(mac);
    HexSplit(d, BigEndian(mac), 64);
    HexRoundTrip(d);
    HexIsAscii(ToHex(d));
    var s := ToHex(d) + BytesToHex(mac);
    assert s[..|s| - 64] == ToHex(d) && s[|s| - 64..] == BytesToHex(mac);
  }

  /** Numbers with at most 64 digits, and negative ones, have nothing in front of the tag that could be read. */
  lemma ShortNumbersRefused(v: KeyView, sk: PrivateKey, tagged: int)
    requires tagged < SixteenTo(64) && sk.n > 0
    ensures v.ExtractInstanceId(tagged) == [0] && Decryption(sk, v, v, tagged) == Err(FailedToParse)
  {
    if tagged >= 0 {
      hide SixteenTo, HexField, BytesToHex, HexValue, ToHex;
      ShortText(tagged, 64);
    } else {
      var text := Text(tagged);
      hide ToHex, HexValue, BytesToHex;
      if |text| > HMAC_LENGTH {
        assert AllButLast(text, HMAC_LENGTH)[0] == '-';
      }
    }
  }

  /** Which error an operation gives: the key id is checked first, then the ciphertexts. */
  lemma OperationErrors(v: KeyView, m: int, r: nat, a: int, b: int, k: int)
    requires v.n > 0
    ensures v.EncryptAsync(m, r) == Err(InvalidPublicKeyIdMismatch) <==> v.keyId != v.sha(NumberText(v.n))
    ensures v.MultiplyAsync(a, k) == Err(InvalidPublicKeyIdMismatch) <==> v.keyId != v.sha(NumberText(v.n))
    ensures v.AdditionAsync(a, b) == Err(InvalidPublicKeyIdMismatch) <==> v.keyId != v.sha(NumberText(v.n))
    ensures v.MultiplyAsync(a, k) == Err(InstanceIdMismatch) <==>
      v.keyId == v.sha(NumberText(v.n)) && !Accepts(v, a)
    ensures v.AdditionAsync(a, b) == Err(InstanceIdMismatch) <==>
      v.keyId == v.sha(NumberText(v.n)) && !(Accepts(v, a) && Accepts(v, b))
  {
    hide NumberText, KeyView.ExtractInstanceId, Encrypt, Multiply, Add, KeyView.Tag, ParseHex, AllButLast, Text;
  }

  /** For a modulus of up to 3072 bits the text is its 768 hexadecimal digits, and what is hashed to the next instance
      id is the key id, the modulus as 384 big-endian bytes, and the salt. */
  lemma ModulusBytes(v: KeyView, salt: Bytes, digits: nat, bytes: nat)
    requires digits == 768 && bytes == 384 && v.n < SixteenTo(digits)
    ensures IsAscii(HexField(v.n, digits)) && NumberText(v.n) == Encode(HexField(v.n, digits))
    ensures v.NextInstanceId(salt) == v.sha(v.keyId + ToBigEndian(v.n, bytes) + salt)
  {
    hide ToHex, HexField, HexValue, SixteenTo, HexPairs, ToBigEndian, PadStart;
    PaddedDigits(v.n, digits);
    HexIsAscii(PadStart(ToHex(v.n), digits));
  }

  /** Padded to an even number of digits, a number that fits reads as its big-endian bytes. */
  lemma PaddedDigits(n: nat, digits: nat)
    requires digits > 0 && digits % 2 == 0 && n < SixteenTo(digits)
    ensures var text := PadStart(ToHex(n), digits);
            && text == HexField(n, digits) && IsLowerHex(text) && |text| == digits
            && HexPairs(text) == ToBigEndian(n, digits / 2)
  {
    hide *;
    var text := PadStart(ToHex(n), digits);
    PaddedHex(n, digits);
    PadStartValue(ToHex(n), digits);
    HexRoundTrip(n);
    HexPairsValue(text);
    WriteBackField(HexPairs(text));
  }
}
