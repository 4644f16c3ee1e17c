/** The byte formats of voting keys: magic, version, identifiers, length-prefixed hexadecimal texts of the
    numbers, and a SHA-256 checksum over everything before it. */
module KeyBuffers {
  import opened ByteStrings
  import opened DataViews
  import opened Hashing
  import opened Results
  import opened IsolatedKeys

  const KEY_MAGIC: string := "BCVK"
  const KEY_VERSION: nat := 2
  const ID_LENGTH: nat := 32
  const CHECKSUM_LENGTH: nat := 32
  const U32: nat := 0x1_0000_0000

  datatype BufferError =
    | BufferTooShort
    | WrongMagic
    | UnsupportedVersion
    | InvalidChecksum
    | KeyIdMismatch
    | NotANumber
    | OutOfRange

  /** TextEncoder, TextDecoder and BigInt('0x' + s) as arbitrary functions. */
  datatype Platform = Platform(encode: string -> Bytes, decode: Bytes -> string, parse: string -> Option<nat>) {
    /** What they do with ASCII text and with lower-case hexadecimal digits. */
    ghost predicate Standard() {
      && (forall s: string :: IsAscii(s) ==> encode(s) == Encode(s))
      && (forall bs: Bytes :: IsAsciiBytes(bs) ==> decode(bs) == Decode(bs))
      && (forall s: string :: s != "" && IsLowerHex(s) ==> parse(s) == Some(HexValue(s)))
    }
  }

  lemma NumberTextReadsBack(platform: Platform, v: nat)
    requires platform.Standard()
    ensures var s := platform.decode(NumberText(v));
            && s == PadStart(ToHex(v), PUB_KEY_OFFSET)
            && platform.parse(s) == Some(v) && platform.encode(s) == NumberText(v)
  {
    var s := PadStart(ToHex(v), PUB_KEY_OFFSET);
    HexIsAscii(s);
    TextRoundTrip(s);
    PadStartValue(ToHex(v), PUB_KEY_OFFSET);
    HexRoundTrip(v);
  }

  function Magic(): (bs: Bytes)
    ensures |bs| == 4
  {
    Encode(KEY_MAGIC)
  }

  /** A length-prefixed text. */
  function Field(text: Bytes): Bytes {
    ToBigEndian(|text|, 4) + text
  }

  // ---------- Encoding ----------

  function WithChecksum(sha: Sha256, payload: Bytes): Bytes {
    payload + sha(payload)
  }

  function PublicKeyPayload(sha: Sha256, n: nat): Bytes {
    Magic() + [KEY_VERSION] + sha(NumberText(n)) + Field(NumberText(n))
  }

  function PrivateKeyPayload(lambda: nat, mu: nat): Bytes {
    Magic() + [KEY_VERSION] + Field(NumberText(lambda)) + Field(NumberText(mu))
  }

  /** An area after `part` has been copied over it; what does not fit is written over later. */
  function Laid(area: Bytes, part: Bytes, offset: nat): (r: Bytes)
    requires offset <= |area|
    ensures |r| == |area|
  {
    if offset + |part| <= |area| then Overwrite(area, part, offset) else area[..offset] + part[..|area| - offset]
  }

  /** The 64 bytes for the two identifiers, which the encoder copies to their places whatever their lengths are. */
  function IdArea(keyId: Bytes, instanceId: Bytes): (area: Bytes)
    ensures |area| == 2 * ID_LENGTH
  {
    Laid(Laid(ZeroBytes(2 * ID_LENGTH), keyId, 0), instanceId, ID_LENGTH)
  }

  function IsolatedKeyPayload(key: KeyView): Bytes {
    Magic() + [KEY_VERSION] + IdArea(key.keyId, key.instanceId) + Field(NumberText(key.n))
  }

  method PutField(buffer: array<Byte>, text: Bytes, offset: nat, ghost written: Bytes)
    requires Filled(buffer, written) && offset == |written| && offset + 4 + |text| <= buffer.Length
    modifies buffer
    ensures Filled(buffer, written + Field(text))
  {
    hide Filled, ToBigEndian;
    PutUint(buffer, offset, 4, |text|, written);
    PutBytes(buffer, text, offset + 4, written + ToBigEndian(|text|, 4));
    assert written + ToBigEndian(|text|, 4) + text == written + Field(text);
  }

  method PublicKeyToBuffer(sha: Sha256, n: nat) returns (result: array<Byte>)
    ensures result[..] == WithChecksum(sha, PublicKeyPayload(sha, n))
  {
    var nBytes := NumberText(n);
    var keyId := sha(nBytes);
    var payloadLength := 4 + 1 + 32 + 4 + |nBytes|;
    result := new Byte[payloadLength + CHECKSUM_LENGTH](_ => 0);
    FilledFresh(result);
    hide *;
    PublicParts(sha, n);
    ghost var w := PutStart(result);
    PutBytes(result, keyId, 5, w);
    w := w + keyId;
    PutField(result, nBytes, 37, w);
    w := w + Field(nBytes);
    PutChecksum(result, sha, payloadLength, w);
  }

  lemma PublicParts(sha: Sha256, n: nat)
    ensures PublicKeyPayload(sha, n) == Magic() + [KEY_VERSION] + sha(NumberText(n)) + Field(NumberText(n))
    ensures forall text :: |Field(text)| == 4 + |text|
  {
  }

  /** Magic and version. */
  method PutStart(buffer: array<Byte>) returns (ghost written: Bytes)
    requires Filled(buffer, []) && buffer.Length >= 5
    modifies buffer
    ensures written == Magic() + [KEY_VERSION] && |written| == 5 && Filled(buffer, written)
  {
    hide Filled, Magic;
    PutBytes(buffer, Magic(), 0, []);
    written := [] + Magic();
    PutBytes(buffer, [KEY_VERSION], 4, written);
    written := written + [KEY_VERSION];
  }

  /** The hash of all that was written, behind it. */
  method PutChecksum(buffer: array<Byte>, sha: Sha256, offset: nat, ghost payload: Bytes)
    requires Filled(buffer, payload) && offset == |payload| && buffer.Length == offset + CHECKSUM_LENGTH
    modifies buffer
    ensures buffer[..] == WithChecksum(sha, payload)
  {
    FilledPrefix(buffer, payload);
    hide Filled;
    var checksum := sha(buffer[..offset]);
    PutBytes(buffer, checksum, offset, payload);
    FilledPrefix(buffer, payload + checksum);
  }

  method PrivateKeyToBuffer(sha: Sha256, lambda: nat, mu: nat) returns (result: array<Byte>)
    ensures result[..] == WithChecksum(sha, PrivateKeyPayload(lambda, mu))
  {
    var lambdaBytes, muBytes := NumberText(lambda), NumberText(mu);
    var payloadLength := 4 + 1 + 4 + |lambdaBytes| + 4 + |muBytes|;
    result := new Byte[payloadLength + CHECKSUM_LENGTH](_ => 0);
    FilledFresh(result);
    hide *;
    PrivateParts(lambda, mu);
    ghost var w := PutStart(result);
    PutField(result, lambdaBytes, 5, w);
    w := w + Field(lambdaBytes);
    PutField(result, muBytes, 9 + |lambdaBytes|, w);
    w := w + Field(muBytes);
    PutChecksum(result, sha, payloadLength, w);
  }

  lemma PrivateParts(lambda: nat, mu: nat)
    ensures PrivateKeyPayload(lambda, mu)
         == Magic() + [KEY_VERSION] + Field(NumberText(lambda)) + Field(NumberText(mu))
    ensures forall text :: |Field(text)| == 4 + |text|
  {
  }

  /** Fails only when an identifier is longer than all that follows its place. */
  method IsolatedKeyToBuffer(key: IsolatedPublicKey) returns (r: Result<array<Byte>, BufferError>)
    ensures var total := |IsolatedKeyPayload(key.View())| + CHECKSUM_LENGTH;
            r.Ok? <==> 5 + |key.keyId| <= total && 37 + |key.currentInstanceId| <= total
    ensures r.Err? ==> r.error == OutOfRange
    ensures r.Ok? ==> r.value[..] == WithChecksum(key.sha, IsolatedKeyPayload(key.View()))
  {
    var nBytes := NumberText(key.n);
    var payloadLength := 4 + 1 + 32 + 32 + 4 + |nBytes|;
    var result := new Byte[payloadLength + CHECKSUM_LENGTH](_ => 0);
    FilledFresh(result);
    hide Filled, ToBigEndian, Magic, NumberText, Overwrite, Laid, ZeroBytes;
    ghost var head := PutStart(result);
    if 5 + |key.keyId| > result.Length || 37 + |key.currentInstanceId| > result.Length { return Err(OutOfRange); }
    HeadAndZeros(result, head);
    hide *;
    PutIdentifiers(result, key.keyId, key.currentInstanceId, head);
    ghost var w := head + IdArea(key.keyId, key.currentInstanceId);
    w := Append(result, ToBigEndian(|nBytes|, 4), 69, w);
    w := Append(result, nBytes, 73, w);
    assert w == IsolatedKeyPayload(key.View()) by {
      IsolatedParts(key.View(), head, ToBigEndian(|nBytes|, 4));
    }
    assert result[..][..payloadLength] == result[..payloadLength];
    w := Append(result, key.sha(result[..payloadLength]), payloadLength, w);
    assert result[..][..|w|] == result[..];
    assert result[..] == WithChecksum(key.sha, IsolatedKeyPayload(key.View()));
    return Ok(result);
  }

  lemma IsolatedParts(key: KeyView, head: Bytes, size: Bytes)
    requires head == Magic() + [KEY_VERSION] && size == ToBigEndian(|NumberText(key.n)|, 4)
    ensures head + IdArea(key.keyId, key.instanceId) + size + NumberText(key.n) == IsolatedKeyPayload(key)
  {
    hide Magic, IdArea, NumberText, ToBigEndian;
  }

  /** Both identifiers, behind the first five bytes. */
  method PutIdentifiers(buffer: array<Byte>, keyId: Bytes, instanceId: Bytes, ghost head: Bytes)
    requires |head| == 5 && buffer.Length >= 69 && buffer[..][..69] == head + ZeroBytes(64)
    requires 5 + |keyId| <= buffer.Length && 37 + |instanceId| <= buffer.Length
    modifies buffer
    ensures buffer[..][..69] == head + IdArea(keyId, instanceId)
  {
    hide Overwrite, Laid, ZeroBytes;
    LaidInside(buffer[..], head, ZeroBytes(64), keyId, 0);
    SetBytes(buffer, keyId, 5);
    LaidInside(buffer[..], head, Laid(ZeroBytes(64), keyId, 0), instanceId, 32);
    SetBytes(buffer, instanceId, 37);
  }

  /** Copies a part behind the bytes that are final. */
  method Append(buffer: array<Byte>, part: Bytes, offset: nat, ghost before: Bytes) returns (ghost after: Bytes)
    requires offset == |before| && offset + |part| <= buffer.Length && buffer[..][..offset] == before
    modifies buffer
    ensures after == before + part && buffer[..][..offset + |part|] == after
  {
    SetBytes(buffer, part, offset);
    after := before + part;
  }

  lemma HeadAndZeros(buffer: array<Byte>, head: Bytes)
    requires Filled(buffer, head) && |head| + 64 <= buffer.Length
    ensures buffer[..][..|head| + 64] == head + ZeroBytes(64)
  {
  }

  lemma LaidInside(bytes: Bytes, head: Bytes, area: Bytes, part: Bytes, offset: nat)
    requires |head| + |area| <= |bytes| && bytes[..|head| + |area|] == head + area
    requires offset <= |area| && |head| + offset + |part| <= |bytes|
    ensures Overwrite(bytes, part, |head| + offset)[..|head| + |area|] == head + Laid(area, part, offset)
  {
    var n, from := |head| + |area|, |head| + offset;
    var out := Overwrite(bytes, part, from);
    var expected := head + Laid(area, part, offset);
    assert bytes[..n] == head + area;
    forall i | 0 <= i < n
      ensures out[i] == expected[i]
    {
      assert bytes[..n][i] == bytes[i];
      if i < from {
        assert out[i] == bytes[i];
      } else if i < from + |part| {
        assert out[i] == part[i - from];
      } else {
        assert out[i] == bytes[i];
      }
    }
    assert out[..n] == expected;
  }

  // ---------- Decoding ----------

  /** The checks that every decoder starts with. */
  function StartError(platform: Platform, buffer: Bytes, minimum: nat): (e: Option<BufferError>)
    requires minimum >= 5
    ensures e.None? ==> |buffer| >= minimum + CHECKSUM_LENGTH
  {
    if |buffer| < minimum + CHECKSUM_LENGTH then Some(BufferTooShort)
    else if platform.decode(buffer[0..4]) != KEY_MAGIC then Some(WrongMagic)
    else if buffer[4] != KEY_VERSION then Some(UnsupportedVersion)
    else None
  }

  /** A length-prefixed number: its text, its value, and where it ends according to its prefix. */
  datatype Number = Number(text: string, value: nat, end: nat)

  function ReadNumber(platform: Platform, buffer: Bytes, offset: nat): Result<Number, BufferError> {
    if offset + 4 > |buffer| then Err(OutOfRange)
    else
      var end := offset + 4 + GetUint(buffer, offset, 4);
      var text := platform.decode(Slice(buffer, offset + 4, end));
      var value := platform.parse(text);
      if value.None? then Err(NotANumber) else Ok(Number(text, value.value, end))
  }

  predicate ChecksumHolds(sha: Sha256, buffer: Bytes, payloadLength: nat) {
    Slice(buffer, payloadLength, payloadLength + CHECKSUM_LENGTH) == sha(Slice(buffer, 0, payloadLength))
  }

  /** The modulus and the generator. */
  function BufferToPublicKey(platform: Platform, sha: Sha256, buffer: Bytes): Result<(nat, nat), BufferError> {
    var error := StartError(platform, buffer, 41);
    if error.Some? then Err(error.value)
    else
      var n := ReadNumber(platform, buffer, 37);
      if n.Err? then Err(n.error)
      else if !ChecksumHolds(sha, buffer, n.value.end) then Err(InvalidChecksum)
      else if buffer[5..37] != sha(platform.encode(n.value.text)) then Err(KeyIdMismatch)
      else Ok((n.value.value, n.value.value + 1))
  }

  /** lambda and mu */
  function BufferToPrivateKey(platform: Platform, sha: Sha256, buffer: Bytes): Result<(nat, nat), BufferError> {
    var error := StartError(platform, buffer, 13);
    if error.Some? then Err(error.value)
    else
      var lambda := ReadNumber(platform, buffer, 5);
      if lambda.Err? then Err(lambda.error)
      else
        var mu := ReadNumber(platform, buffer, lambda.value.end);
        if mu.Err? then Err(mu.error)
        else if !ChecksumHolds(sha, buffer, mu.value.end) then Err(InvalidChecksum)
        else Ok((lambda.value.value, mu.value.value))
  }

  /** The restored key's fields; its identifiers are taken over without a check. */
  function BufferToIsolatedKey(platform: Platform, sha: Sha256, hmac: Hmac256, buffer: Bytes)
    : Result<KeyView, BufferError>
  {
    var error := StartError(platform, buffer, 73);
    if error.Some? then Err(error.value)
    else
      var n := ReadNumber(platform, buffer, 69);
      if n.Err? then Err(n.error)
      else if !ChecksumHolds(sha, buffer, n.value.end) then Err(InvalidChecksum)
      else Ok(KeyView(n.value.value, n.value.value + 1, buffer[5..37], buffer[37..69], sha, hmac))
  }

  /** The key object built from a buffer is in the restored state. */
  method RestoreIsolatedKey(platform: Platform, sha: Sha256, hmac: Hmac256, buffer: Bytes)
    returns (r: Result<IsolatedPublicKey, BufferError>)
    ensures r.Ok? <==> BufferToIsolatedKey(platform, sha, hmac, buffer).Ok?
    ensures r.Ok? ==> fresh(r.value) && BufferToIsolatedKey(platform, sha, hmac, buffer) == Ok(r.value.View())
    ensures r.Err? ==> BufferToIsolatedKey(platform, sha, hmac, buffer) == Err(r.error)
  {
    var view :- BufferToIsolatedKey(platform, sha, hmac, buffer);
    var key := new IsolatedPublicKey.FromBuffer(view.n, view.g, view.keyId, view.instanceId, sha, hmac);
    return Ok(key);
  }

  // ---------- Round trips ----------

  lemma StartReadsBack(platform: Platform, rest: Bytes, minimum: nat)
    requires platform.Standard() && 5 <= minimum && minimum + CHECKSUM_LENGTH <= 5 + |rest|
    ensures StartError(platform, Magic() + [KEY_VERSION] + rest, minimum) == None
  {
    var buffer := Magic() + [KEY_VERSION] + rest;
    assert buffer[0..4] == Magic();
    TextRoundTrip(KEY_MAGIC);
  }

  lemma NumberReadsBack(platform: Platform, buffer: Bytes, before: Bytes, v: nat, after: Bytes)
    requires platform.Standard() && |NumberText(v)| < U32
    requires buffer == before + Field(NumberText(v)) + after
    ensures ReadNumber(platform, buffer, |before|)
         == Ok(Number(PadStart(ToHex(v), PUB_KEY_OFFSET), v, |before| + 4 + |NumberText(v)|))
  {
    hide NumberText, Platform.Standard, PadStart, ToHex, Slice, GetUint, Field;
    FieldReads(buffer, before, NumberText(v), after);
    NumberTextReadsBack(platform, v);
  }

  lemma FieldReads(buffer: Bytes, before: Bytes, text: Bytes, after: Bytes)
    requires 0 < |text| < U32 && buffer == before + Field(text) + after
    ensures |before| + 4 + |text| <= |buffer|
    ensures GetUint(buffer, |before|, 4) == |text|
    ensures Slice(buffer, |before| + 4, |before| + 4 + |text|) == text
  {
    hide ToBigEndian, GetUint;
    assert buffer[|before|..|before| + 4] == ToBigEndian(|text|, 4);
    assert buffer[|before| + 4..|before| + 4 + |text|] == text;
    FieldReadsBack(buffer, |before|, 4, |text|);
    Ranges();
  }

  lemma ChecksumReadsBack(sha: Sha256, payload: Bytes, extra: Bytes)
    ensures ChecksumHolds(sha, WithChecksum(sha, payload) + extra, |payload|)
  {
    var buffer := WithChecksum(sha, payload) + extra;
    assert buffer[..|payload|] == payload && buffer[|payload|..|payload| + 32] == sha(payload);
    if payload == [] {
      assert Slice(buffer, 0, 0) == payload;
    }
  }

  /** A public key of any size comes back from its buffer, whatever follows the buffer; the generator comes back
      exactly when it was the standard n + 1, for only n is written. */
  lemma PublicKeyRoundTrip(platform: Platform, sha: Sha256, n: nat, g: nat, extra: Bytes)
    requires platform.Standard() && |NumberText(n)| < U32
    ensures BufferToPublicKey(platform, sha, WithChecksum(sha, PublicKeyPayload(sha, n)) + extra) == Ok((n, n + 1))
    ensures BufferToPublicKey(platform, sha, WithChecksum(sha, PublicKeyPayload(sha, n)) + extra) == Ok((n, g))
       <==> g == n + 1
  {
    var payload := PublicKeyPayload(sha, n);
    var keyId, text := sha(NumberText(n)), NumberText(n);
    var buffer := WithChecksum(sha, payload) + extra;
    hide NumberText, Magic, Platform.Standard, ReadNumber, StartError;
    assert buffer == Magic() + [KEY_VERSION] + (keyId + Field(text) + sha(payload) + extra);
    StartReadsBack(platform, keyId + Field(text) + sha(payload) + extra, 41);
    assert buffer == Magic() + [KEY_VERSION] + keyId + Field(text) + (sha(payload) + extra);
    NumberReadsBack(platform, buffer, Magic() + [KEY_VERSION] + keyId, n, sha(payload) + extra);
    ChecksumReadsBack(sha, payload, extra);
    assert buffer[5..37] == keyId;
    NumberTextReadsBack(platform, n);
  }

  /** A private key of any size comes back from its buffer. */
  lemma PrivateKeyRoundTrip(platform: Platform, sha: Sha256, lambda: nat, mu: nat, extra: Bytes)
    requires platform.Standard() && |NumberText(lambda)| < U32 && |NumberText(mu)| < U32
    ensures var buffer := WithChecksum(sha, PrivateKeyPayload(lambda, mu)) + extra;
            BufferToPrivateKey(platform, sha, buffer) == Ok((lambda, mu))
  {
    var payload := PrivateKeyPayload(lambda, mu);
    var start, f1, f2 := Magic() + [KEY_VERSION], Field(NumberText(lambda)), Field(NumberText(mu));
    var rest := sha(payload) + extra;
    var buffer := WithChecksum(sha, payload) + extra;
    hide NumberText, Magic, Platform.Standard, ReadNumber, StartError;
    assert |f1| == 4 + |NumberText(lambda)| && |f2| == 4 + |NumberText(mu)|;
    assert payload == start + f1 + f2;
    hide Field, PrivateKeyPayload;
    Regroup(start, f1, f2, sha(payload), extra);
    StartReadsBack(platform, f1 + f2 + rest, 13);
    NumberReadsBack(platform, buffer, start, lambda, f2 + rest);
    NumberReadsBack(platform, buffer, start + f1, mu, rest);
    ChecksumReadsBack(sha, payload, extra);
    hide ChecksumHolds, WithChecksum;
  }

  lemma Regroup(a: Bytes, b: Bytes, c: Bytes, d: Bytes, e: Bytes)
    ensures a + b + c + d + e == a + (b + c + (d + e))
    ensures a + b + c + d + e == a + b + (c + (d + e))
    ensures a + b + c + d + e == a + b + c + (d + e)
  {
  }

  lemma IsolatedKeyDecodes(platform: Platform, key: KeyView, extra: Bytes)
    requires platform.Standard() && |NumberText(key.n)| < U32
    ensures var area := IdArea(key.keyId, key.instanceId);
            BufferToIsolatedKey(platform, key.sha, key.hmac, WithChecksum(key.sha, IsolatedKeyPayload(key)) + extra)
            == Ok(KeyView(key.n, key.n + 1, area[..ID_LENGTH], area[ID_LENGTH..], key.sha, key.hmac))
  {
    var payload := IsolatedKeyPayload(key);
    var area, text, sum := IdArea(key.keyId, key.instanceId), NumberText(key.n), key.sha(payload);
    var buffer := WithChecksum(key.sha, payload) + extra;
    var start, field := Magic() + [KEY_VERSION], Field(text);
    hide NumberText, Magic, Platform.Standard, ReadNumber, StartError, IdArea;
    assert |field| == 4 + |text| && payload == start + area + field;
    hide Field, IsolatedKeyPayload;
    Regroup(start, area, field, sum, extra);
    StartReadsBack(platform, area + field + (sum + extra), 73);
    NumberReadsBack(platform, buffer, start + area, key.n, sum + extra);
    ChecksumReadsBack(key.sha, payload, extra);
    hide ChecksumHolds, WithChecksum;
    assert buffer[5..37] == area[..32] && buffer[37..69] == area[32..];
  }

  /** An isolated key comes back with whatever its identifiers left in their places; with its own identifiers, so that
      the restored object accepts and produces exactly the tags of the original with generator n + 1, if and only if
      both have 32 bytes. */
  lemma IsolatedKeyRoundTrip(platform: Platform, key: KeyView, extra: Bytes)
    requires platform.Standard() && |NumberText(key.n)| < U32
    ensures var restored := BufferToIsolatedKey(platform, key.sha, key.hmac,
                                                WithChecksum(key.sha, IsolatedKeyPayload(key)) + extra);
            var area := IdArea(key.keyId, key.instanceId);
            && restored == Ok(key.(g := key.n + 1, keyId := area[..ID_LENGTH], instanceId := area[ID_LENGTH..]))
            && (restored == Ok(key.(g := key.n + 1)) <==> |key.keyId| == ID_LENGTH && |key.instanceId| == ID_LENGTH)
  {
    if |key.keyId| == ID_LENGTH && |key.instanceId| == ID_LENGTH {
      ExactArea(key.keyId, key.instanceId);
    }
    hide *;
    IsolatedKeyDecodes(platform, key, extra);
  }

  /** A key id of 16 bytes comes back with 16 zeros behind it. */
  lemma ShortKeyId(platform: Platform, key: KeyView)
    requires platform.Standard() && |NumberText(key.n)| < U32
    requires |key.keyId| == 16 && |key.instanceId| == ID_LENGTH
    ensures BufferToIsolatedKey(platform, key.sha, key.hmac, WithChecksum(key.sha, IsolatedKeyPayload(key)))
         == Ok(key.(g := key.n + 1, keyId := key.keyId + ZeroBytes(16)))
  {
    ShortArea(key.keyId, key.instanceId);
    var buffer := WithChecksum(key.sha, IsolatedKeyPayload(key));
    hide *;
    assert buffer + [] == buffer;
    IsolatedKeyRoundTrip(platform, key, []);
  }

  lemma ShortArea(keyId: Bytes, instanceId: Bytes)
    requires |keyId| == 16 && |instanceId| == ID_LENGTH
    ensures IdArea(keyId, instanceId)[..ID_LENGTH] == keyId + ZeroBytes(16)
    ensures IdArea(keyId, instanceId)[ID_LENGTH..] == instanceId
  {
    var zeros := ZeroBytes(2 * ID_LENGTH);
    var first := Laid(zeros, keyId, 0);
    assert first == keyId + zeros[16..];
    assert Laid(first, instanceId, ID_LENGTH) == first[..ID_LENGTH] + instanceId;
    assert zeros[16..32] == ZeroBytes(16);
  }

  lemma ExactArea(keyId: Bytes, instanceId: Bytes)
    requires |keyId| == ID_LENGTH && |instanceId| == ID_LENGTH
    ensures IdArea(keyId, instanceId)[..ID_LENGTH] == keyId && IdArea(keyId, instanceId)[ID_LENGTH..] == instanceId
  {
  }

  // ---------- The layouts, byte by byte ----------

  /** "BCVK" and the version. */
  predicate Heads(buffer: Bytes) {
    |buffer| >= 5 && buffer[0..5] == [0x42, 0x43, 0x56, 0x4b, 2]
  }

  lemma HeadBytes()
    ensures Magic() + [KEY_VERSION] == [0x42, 0x43, 0x56, 0x4b, 2]
  {
  }

  /** At an offset, four bytes with the length of a text and the text. */
  predicate HoldsText(buffer: Bytes, offset: nat, text: Bytes) {
    && offset + 4 + |text| <= |buffer| && buffer[offset + 4..offset + 4 + |text|] == text
    && buffer[offset] as int * 0x100_0000 + buffer[offset + 1] as int * 0x1_0000
       + buffer[offset + 2] as int * 0x100 + buffer[offset + 3] as int == |text|
  }

  lemma FieldHolds(buffer: Bytes, before: Bytes, text: Bytes, after: Bytes)
    requires buffer == before + Field(text) + after && |text| < U32
    ensures HoldsText(buffer, |before|, text)
  {
    hide ToBigEndian;
    FourBytes(|text|);
    assert buffer[|before|..|before| + 4] == ToBigEndian(|text|, 4);
    assert forall k :: 0 <= k < 4 ==> buffer[|before| + k] == ToBigEndian(|text|, 4)[k];
    hide Field;
    FourDigits(|text|);
  }

  lemma FourDigits(v: nat)
    requires v < U32
    ensures v / 0x100_0000 * 0x100_0000 + v / 0x1_0000 % 256 * 0x1_0000 + v / 256 % 256 * 0x100 + v % 256 == v
  {
    assert v / 0x1_0000 == v / 256 / 256 && v / 0x100_0000 == v / 256 / 256 / 256;
  }

  /** A public key: the head, the hash of the text of n at 5, that text behind its length at 37, and at the end the hash
      of all that. */
  lemma PublicKeyLayout(sha: Sha256, n: nat)
    requires |NumberText(n)| < U32
    ensures var buffer, text := WithChecksum(sha, PublicKeyPayload(sha, n)), NumberText(n);
            && |buffer| == 41 + |text| + 32 && Heads(buffer)
            && buffer[5..37] == sha(text) && HoldsText(buffer, 37, text)
            && buffer[41 + |text|..] == sha(buffer[..41 + |text|])
  {
    var buffer, text := WithChecksum(sha, PublicKeyPayload(sha, n)), NumberText(n);
    var head := Magic() + [KEY_VERSION];
    HeadBytes();
    hide Magic, NumberText, HoldsText;
    assert buffer == head + sha(text) + Field(text) + sha(PublicKeyPayload(sha, n));
    FieldHolds(buffer, head + sha(text), text, sha(PublicKeyPayload(sha, n)));
    assert buffer[..41 + |text|] == PublicKeyPayload(sha, n);
  }

  /** A private key: the head, lambda's text behind its length at 5, mu's behind its own length next, and the hash. */
  lemma PrivateKeyLayout(sha: Sha256, lambda: nat, mu: nat)
    requires |NumberText(lambda)| < U32 && |NumberText(mu)| < U32
    ensures var buffer := WithChecksum(sha, PrivateKeyPayload(lambda, mu));
            var m := |NumberText(lambda)|;
            var end := 13 + m + |NumberText(mu)|;
            && |buffer| == end + 32 && Heads(buffer)
            && HoldsText(buffer, 5, NumberText(lambda)) && HoldsText(buffer, 9 + m, NumberText(mu))
            && buffer[end..] == sha(buffer[..end])
  {
    var payload := PrivateKeyPayload(lambda, mu);
    var buffer, head := WithChecksum(sha, payload), Magic() + [KEY_VERSION];
    var f1, f2 := Field(NumberText(lambda)), Field(NumberText(mu));
    HeadBytes();
    hide Magic, NumberText, HoldsText;
    assert |f1| == 4 + |NumberText(lambda)| && |f2| == 4 + |NumberText(mu)|;
    assert buffer == head + f1 + (f2 + sha(payload));
    assert buffer == (head + f1) + f2 + sha(payload);
    FieldHolds(buffer, head, NumberText(lambda), f2 + sha(payload));
    FieldHolds(buffer, head + f1, NumberText(mu), sha(payload));
    assert buffer[..|payload|] == payload && buffer[0..5] == head;
  }

  /** An isolated key with identifiers of 32 bytes: the head, the key id at 5, the instance id at 37, the text of n
      behind its length at 69, and the hash. */
  lemma IsolatedKeyLayout(key: KeyView)
    requires |NumberText(key.n)| < U32 && |key.keyId| == 32 && |key.instanceId| == 32
    ensures var buffer, text := WithChecksum(key.sha, IsolatedKeyPayload(key)), NumberText(key.n);
            && |buffer| == 73 + |text| + 32 && Heads(buffer)
            && buffer[5..37] == key.keyId && buffer[37..69] == key.instanceId && HoldsText(buffer, 69, text)
            && buffer[73 + |text|..] == key.sha(buffer[..73 + |text|])
  {
    var payload, text, area := IsolatedKeyPayload(key), NumberText(key.n), IdArea(key.keyId, key.instanceId);
    var buffer, head, field := WithChecksum(key.sha, payload), Magic() + [KEY_VERSION], Field(text);
    HeadBytes();
    ExactArea(key.keyId, key.instanceId);
    hide Magic, NumberText, HoldsText, IdArea;
    assert |field| == 4 + |text|;
    assert buffer == (head + area) + field + key.sha(payload);
    FieldHolds(buffer, head + area, text, key.sha(payload));
    hide Field;
    assert buffer[..|payload|] == payload && buffer[0..5] == head;
    assert buffer[5..69] == area;
    assert buffer[5..69][..32] == buffer[5..37] && buffer[5..69][32..] == buffer[37..69];
  }

  // ---------- What a decoder accepts ----------

  /** A checksum can only hold inside the buffer: what is cut short is never 32 bytes long. */
  lemma ChecksumIff(sha: Sha256, buffer: Bytes, p: nat)
    ensures ChecksumHolds(sha, buffer, p) <==>
      p + CHECKSUM_LENGTH <= |buffer| && buffer[p..p + CHECKSUM_LENGTH] == sha(buffer[..p])
  {
    if p + CHECKSUM_LENGTH <= |buffer| {
      assert Slice(buffer, 0, p) == buffer[..p];
    }
  }

  /** The bytes of a length-prefixed number at an offset, and that they read as v. */
  ghost predicate HoldsNumber(platform: Platform, buffer: Bytes, offset: nat, end: nat, v: nat) {
    && offset + 4 <= end <= |buffer| && end == offset + 4 + GetUint(buffer, offset, 4)
    && platform.parse(platform.decode(buffer[offset + 4..end])) == Some(v)
  }

  lemma NumberIff(platform: Platform, buffer: Bytes, offset: nat, end: nat, v: nat)
    requires end <= |buffer|
    ensures HoldsNumber(platform, buffer, offset, end, v) <==>
      && ReadNumber(platform, buffer, offset).Ok?
      && ReadNumber(platform, buffer, offset).value.end == end && ReadNumber(platform, buffer, offset).value.value == v
    ensures HoldsNumber(platform, buffer, offset, end, v) ==>
      ReadNumber(platform, buffer, offset).value.text == platform.decode(buffer[offset + 4..end])
  {
    hide GetUint;
    if offset + 4 <= end <= |buffer| {
      assert Slice(buffer, offset + 4, end) == buffer[offset + 4..end];
    }
  }

  ghost predicate Starts(platform: Platform, buffer: Bytes) {
    |buffer| >= 5 && platform.decode(buffer[0..4]) == KEY_MAGIC && buffer[4] == KEY_VERSION
  }

  /** Payload and checksum of a public key whose text ends at `end`. */
  ghost predicate PublicLayout(platform: Platform, sha: Sha256, buffer: Bytes, end: nat, n: nat) {
    && Starts(platform, buffer) && HoldsNumber(platform, buffer, 37, end, n)
    && end + CHECKSUM_LENGTH <= |buffer| && buffer[end..end + CHECKSUM_LENGTH] == sha(buffer[..end])
    && 41 <= end && buffer[5..37] == sha(platform.encode(platform.decode(buffer[41..end])))
  }

  /** On arbitrary bytes the public key decoder accepts exactly the buffers that begin with a payload of magic,
      version, key id, and the length-prefixed text of n, followed by the payload's hash, in which the key id is the
      hash of that text. Anything truncated is refused. */
  lemma PublicKeyAcceptedIff(platform: Platform, sha: Sha256, buffer: Bytes, n: nat)
    ensures BufferToPublicKey(platform, sha, buffer) == Ok((n, n + 1)) <==>
      exists end: nat :: PublicLayout(platform, sha, buffer, end, n)
  {
    hide ReadNumber, HoldsNumber, ChecksumHolds;
    if BufferToPublicKey(platform, sha, buffer) == Ok((n, n + 1)) {
      var end := ReadNumber(platform, buffer, 37).value.end;
      NumberEnds(platform, buffer, 37);
      ChecksumIff(sha, buffer, end);
      NumberIff(platform, buffer, 37, end, n);
      assert PublicLayout(platform, sha, buffer, end, n);
    }
    if end: nat :| PublicLayout(platform, sha, buffer, end, n) {
      NumberIff(platform, buffer, 37, end, n);
      ChecksumIff(sha, buffer, end);
    }
  }

  lemma NumberEnds(platform: Platform, buffer: Bytes, offset: nat)
    requires ReadNumber(platform, buffer, offset).Ok?
    ensures offset + 4 <= ReadNumber(platform, buffer, offset).value.end && offset <= |buffer|
  {
  }

  /** The same for a private key, whose two numbers follow each other. */
  ghost predicate PrivateLayout(platform: Platform, sha: Sha256, buffer: Bytes, middle: nat, end: nat,
                                lambda: nat, mu: nat)
  {
    && Starts(platform, buffer)
    && HoldsNumber(platform, buffer, 5, middle, lambda) && HoldsNumber(platform, buffer, middle, end, mu)
    && end + CHECKSUM_LENGTH <= |buffer| && buffer[end..end + CHECKSUM_LENGTH] == sha(buffer[..end])
  }

  lemma PrivateKeyAcceptedIff(platform: Platform, sha: Sha256, buffer: Bytes, lambda: nat, mu: nat)
    ensures BufferToPrivateKey(platform, sha, buffer) == Ok((lambda, mu)) <==>
      exists middle: nat, end: nat :: PrivateLayout(platform, sha, buffer, middle, end, lambda, mu)
  {
    hide ReadNumber, HoldsNumber, ChecksumHolds;
    if BufferToPrivateKey(platform, sha, buffer) == Ok((lambda, mu)) {
      var middle := ReadNumber(platform, buffer, 5).value.end;
      var end := ReadNumber(platform, buffer, middle).value.end;
      ChecksumIff(sha, buffer, end);
      NumberEnds(platform, buffer, middle);
      NumberIff(platform, buffer, 5, middle, lambda);
      NumberIff(platform, buffer, middle, end, mu);
      assert PrivateLayout(platform, sha, buffer, middle, end, lambda, mu);
    }
    if middle: nat, end: nat :| PrivateLayout(platform, sha, buffer, middle, end, lambda, mu) {
      NumberBounds(platform, buffer, 5, middle, lambda);
      NumberBounds(platform, buffer, middle, end, mu);
      NumberIff(platform, buffer, 5, middle, lambda);
      NumberIff(platform, buffer, middle, end, mu);
      ChecksumIff(sha, buffer, end);
    }
  }

  lemma NumberBounds(platform: Platform, buffer: Bytes, offset: nat, end: nat, v: nat)
    requires HoldsNumber(platform, buffer, offset, end, v)
    ensures offset + 4 <= end <= |buffer|
  {
  }

  /** And for an isolated key, whose identifiers are taken as they are. */
  lemma IsolatedKeyAcceptedIff(platform: Platform, sha: Sha256, hmac: Hmac256, buffer: Bytes, key: KeyView)
    ensures BufferToIsolatedKey(platform, sha, hmac, buffer) == Ok(key) <==>
      exists end: nat :: IsolatedLayout(platform, sha, buffer, end, key) && key.sha == sha && key.hmac == hmac
  {
    hide ReadNumber, HoldsNumber, ChecksumHolds;
    if BufferToIsolatedKey(platform, sha, hmac, buffer) == Ok(key) {
      var end := ReadNumber(platform, buffer, 69).value.end;
      NumberEnds(platform, buffer, 69);
      ChecksumIff(sha, buffer, end);
      NumberIff(platform, buffer, 69, end, key.n);
      assert IsolatedLayout(platform, sha, buffer, end, key);
    }
    if end: nat :| IsolatedLayout(platform, sha, buffer, end, key) && key.sha == sha && key.hmac == hmac {
      NumberIff(platform, buffer, 69, end, key.n);
      ChecksumIff(sha, buffer, end);
    }
  }

  ghost predicate IsolatedLayout(platform: Platform, sha: Sha256, buffer: Bytes, end: nat, key: KeyView) {
    && Starts(platform, buffer) && HoldsNumber(platform, buffer, 69, end, key.n) && key.g == key.n + 1
    && 73 <= end && end + CHECKSUM_LENGTH <= |buffer| && buffer[end..end + CHECKSUM_LENGTH] == sha(buffer[..end])
    && buffer[5..37] == key.keyId && buffer[37..69] == key.instanceId
  }

  // ---------- Which error ----------

  /** The first check that fails decides: the length of the shortest key, the magic, the version. */
  lemma StartErrors(platform: Platform, sha: Sha256, hmac: Hmac256, buffer: Bytes)
    ensures BufferToPublicKey(platform, sha, buffer) == Err(BufferTooShort) <==> |buffer| < 73
    ensures BufferToPrivateKey(platform, sha, buffer) == Err(BufferTooShort) <==> |buffer| < 45
    ensures BufferToIsolatedKey(platform, sha, hmac, buffer) == Err(BufferTooShort) <==> |buffer| < 105
    ensures |buffer| >= 105 ==>
      var r1 := BufferToPublicKey(platform, sha, buffer);
      var r2 := BufferToPrivateKey(platform, sha, buffer);
      var r3 := BufferToIsolatedKey(platform, sha, hmac, buffer);
      if platform.decode(buffer[0..4]) != "BCVK" then
        r1 == Err(WrongMagic) && r2 == Err(WrongMagic) && r3 == Err(WrongMagic)
      else if buffer[4] != 2 then
        r1 == Err(UnsupportedVersion) && r2 == Err(UnsupportedVersion) && r3 == Err(UnsupportedVersion)
      else true
  {
    hide GetUint, Slice;
  }

  /** Behind a good start a text that is no number comes first, then the hash, and for a public key last the key id. */
  lemma NumberErrors(platform: Platform, sha: Sha256, hmac: Hmac256, buffer: Bytes, end: nat, v: nat)
    requires Starts(platform, buffer) && |buffer| >= 105
    ensures var r := BufferToPublicKey(platform, sha, buffer);
            var hashed := end + 32 <= |buffer| && buffer[end..end + 32] == sha(buffer[..end]);
            && (ReadNumber(platform, buffer, 37).Err? <==> r == Err(NotANumber))
            && (HoldsNumber(platform, buffer, 37, end, v) ==>
                && (!hashed ==> r == Err(InvalidChecksum))
                && (hashed && buffer[5..37] != sha(platform.encode(platform.decode(buffer[41..end]))) ==>
                    r == Err(KeyIdMismatch)))
    ensures var r := BufferToIsolatedKey(platform, sha, hmac, buffer);
            var hashed := end + 32 <= |buffer| && buffer[end..end + 32] == sha(buffer[..end]);
            && (ReadNumber(platform, buffer, 69).Err? <==> r == Err(NotANumber))
            && (HoldsNumber(platform, buffer, 69, end, v) && !hashed ==> r == Err(InvalidChecksum))
  {
    if end <= |buffer| {
      NumberIff(platform, buffer, 37, end, v);
      NumberIff(platform, buffer, 69, end, v);
    }
    ChecksumIff(sha, buffer, end);
    if ReadNumber(platform, buffer, 37).Err? { NumberFails(platform, buffer, 37); }
    if ReadNumber(platform, buffer, 69).Err? { NumberFails(platform, buffer, 69); }
    hide ReadNumber, ChecksumHolds, HoldsNumber;
  }

  lemma NumberFails(platform: Platform, buffer: Bytes, offset: nat)
    requires offset + 4 <= |buffer| && ReadNumber(platform, buffer, offset).Err?
    ensures ReadNumber(platform, buffer, offset).error == NotANumber
  {
  }
}
