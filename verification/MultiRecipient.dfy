/** The multi-recipient chunk format: one header, one wrapped copy of the symmetric key per recipient, and a
    payload whose additional authenticated data is everything printed before it. */
module MultiRecipient {
  import opened BitOperations
  import opened ByteStrings
  import opened DataViews
  import opened Results

  const MAGIC: nat := 0x4d524543
  const VERSION: nat := 2
  const HEADER_SIZE: nat := 64
  const KEY_SIZE_BYTES: nat := 2
  const MAX_RECIPIENTS: nat := 65535
  const EPHEMERAL_SIZE: nat := 33
  const IV_SIZE: nat := 12
  const TAG_SIZE: nat := 16
  const SIGNATURE_SIZE: nat := 64
  const SYMMETRIC_KEY_SIZE: nat := 32
  const MAX_KEY_SIZE: nat := 1000
  const MAX_SIZE: nat := 0x7fffffff
  const MAX_INDEX: nat := 0xffffffff

  datatype MultiError =
    | InvalidRecipientCount
    | SymmetricKeyMust32Bytes
    | InvalidChunkIndex
    | DataSizeExceedsMaximum
    | DuplicateRecipientId
    | InvalidRecipientIdSize
    | KeyEncryptionFailed
    | ChunkSizeOverflow
    | RangeError
    | ChunkTooSmall
    | InvalidChunkMagic
    | UnsupportedVersion
    | ChunkTooSmallForEncryptedSize
    | ChunkTruncatedRecipientId
    | ChunkTruncatedKeySize
    | InvalidKeySize
    | ChunkTruncatedEncryptedKey
    | KeyDecryptionFailed
    | RecipientNotFoundInChunk
    | DecryptionFailed
    | TooShortForSignature
    | InvalidSignature

  /** The cryptographic services as arbitrary functions. `seal` gives ciphertext followed by its tag. */
  datatype Suite = Suite(
    wrap: (Bytes, Bytes, Bytes, Bytes, Bytes) -> Option<Bytes>,
    unwrap: (Bytes, Bytes, Bytes, Bytes) -> Option<Bytes>,
    seal: (Bytes, Bytes, Bytes, Bytes) -> Bytes,
    open: (Bytes, Bytes, Bytes, Bytes) -> Option<Bytes>,
    sign: (Bytes, Bytes) -> Bytes,
    verify: (Bytes, Bytes, Bytes) -> bool)

  /** AES-GCM adds its tag and opens under the same key, initialisation vector and associated data. */
  ghost predicate SealOpens(suite: Suite) {
    forall key: Bytes, iv: Bytes, aad: Bytes, data: Bytes ::
      var sealed := suite.seal(key, iv, aad, data);
      |sealed| == |data| + TAG_SIZE && suite.open(key, iv, aad, sealed) == Some(data)
  }

  /** A key wrapped for the public key and a recipient id, with the ephemeral private key, unwraps with the
      private key, the ephemeral public key and the same id. Its size is one the parser accepts. */
  ghost predicate WrapOpens(suite: Suite, publicKey: Bytes, privateKey: Bytes, ephemeral: Ephemeral) {
    forall key: Bytes, id: Bytes, salt: Bytes ::
      var wrapped := suite.wrap(publicKey, key, ephemeral.privateKey, id, salt);
      wrapped.Some? ==> suite.unwrap(privateKey, wrapped.value, ephemeral.publicKey, id) == Some(key)
  }

  /** Wrapped keys have a size that the parser accepts; the code's own are 12 + 16 + 32 bytes. */
  ghost predicate WrapSizes(suite: Suite) {
    forall publicKey: Bytes, key: Bytes, ephemeral: Bytes, id: Bytes, salt: Bytes ::
      var wrapped := suite.wrap(publicKey, key, ephemeral, id, salt);
      wrapped.Some? ==> 0 < |wrapped.value| <= MAX_KEY_SIZE
  }

  ghost predicate SignatureVerifies(suite: Suite, privateKey: Bytes, publicKey: Bytes) {
    forall data: Bytes ::
      |suite.sign(privateKey, data)| == SIGNATURE_SIZE && suite.verify(publicKey, data, suite.sign(privateKey, data))
  }

  datatype Ephemeral = Ephemeral(privateKey: Bytes, publicKey: Bytes)

  datatype Recipient = Recipient(id: Bytes, publicKey: Bytes)

  datatype Header = Header(
    magic: nat, version: nat, recipientCount: nat, chunkIndex: nat, originalSize: nat, encryptedSize: nat, flags: nat)

  // ---------- Printing ----------

  function FixedHeader(h: Header, ephemeralKey: Bytes): (bs: Bytes)
    requires |ephemeralKey| == EPHEMERAL_SIZE
    ensures |bs| == HEADER_SIZE
  {
    ToBigEndian(h.magic, 4) + ToBigEndian(h.version, 2) + ToBigEndian(h.recipientCount, 2)
    + ToBigEndian(h.chunkIndex, 4) + ToBigEndian(h.originalSize, 4) + ToBigEndian(h.encryptedSize, 4)
    + ToBigEndian(h.flags, 1) + ephemeralKey + ZeroBytes(10)
  }

  function Record(id: Bytes, wrapped: Bytes): Bytes {
    id + ToBigEndian(|wrapped|, KEY_SIZE_BYTES) + wrapped
  }

  function Records(recipients: seq<Recipient>, wrapped: seq<Bytes>): (bs: Bytes)
    requires |recipients| == |wrapped|
    decreases |recipients|
  {
    if recipients == [] then [] else Record(recipients[0].id, wrapped[0]) + Records(recipients[1..], wrapped[1..])
  }

  // ---------- Reading ----------

  /** One record at an offset, with the checks that come before each read. */
  datatype Parsed = Parsed(id: Bytes, wrapped: Bytes, next: nat)

  function ReadRecord(data: Bytes, offset: nat, idSize: nat): (r: Result<Parsed, MultiError>)
    ensures r.Ok? ==> offset + idSize + KEY_SIZE_BYTES < r.value.next <= |data|
  {
    if offset + idSize > |data| then Err(ChunkTruncatedRecipientId)
    else if offset + idSize + KEY_SIZE_BYTES > |data| then Err(ChunkTruncatedKeySize)
    else
      var keySize := GetUint(data, offset + idSize, KEY_SIZE_BYTES);
      var start := offset + idSize + KEY_SIZE_BYTES;
      if keySize == 0 || keySize > MAX_KEY_SIZE then Err(InvalidKeySize)
      else if start + keySize > |data| then Err(ChunkTruncatedEncryptedKey)
      else Ok(Parsed(data[offset..offset + idSize], data[start..start + keySize], start + keySize))
  }

  /** What one recipient brings to decryption. */
  datatype Reader = Reader(
    suite: Suite, idSize: nat, recipientId: Bytes, privateKey: Bytes, senderPublicKey: Option<Bytes>)

  /** Goes over `count` records; the key found so far is replaced by every later match. */
  function Scan(reader: Reader, data: Bytes, offset: nat, count: nat, ephemeralKey: Bytes, found: Option<Bytes>)
    : (r: Result<(Option<Bytes>, nat), MultiError>)
    ensures r.Ok? ==> offset <= r.value.1 && (count > 0 ==> r.value.1 <= |data|)
    decreases count
  {
    if count == 0 then Ok((found, offset))
    else
      var record := ReadRecord(data, offset, reader.idSize);
      if record.Err? then Err(record.error)
      else if record.value.id != reader.recipientId then
        Scan(reader, data, record.value.next, count - 1, ephemeralKey, found)
      else
        var key := reader.suite.unwrap(reader.privateKey, record.value.wrapped, ephemeralKey, record.value.id);
        if key.None? then Err(KeyDecryptionFailed)
        else Scan(reader, data, record.value.next, count - 1, ephemeralKey, key)
  }

  function ParseHeader(data: Bytes): (r: Result<Header, MultiError>)
    ensures r.Ok? ==> |data| >= HEADER_SIZE + IV_SIZE + r.value.encryptedSize && 0 < r.value.recipientCount
  {
    if |data| < HEADER_SIZE then Err(ChunkTooSmall)
    else if GetUint(data, 0, 4) != MAGIC then Err(InvalidChunkMagic)
    else if GetUint(data, 4, 2) != VERSION then Err(UnsupportedVersion)
    else
      var count := GetUint(data, 6, 2);
      if count == 0 || count > MAX_RECIPIENTS then Err(InvalidRecipientCount)
      else
        var encryptedSize := GetUint(data, 16, 4);
        if |data| < HEADER_SIZE + IV_SIZE + encryptedSize then Err(ChunkTooSmallForEncryptedSize)
        else Ok(Header(MAGIC, VERSION, count, GetUint(data, 8, 4), GetUint(data, 12, 4), encryptedSize,
                       GetUint(data, 20, 1)))
  }

  /** The payload after the records: initialisation vector and ciphertext, authenticated with all bytes before. */
  function OpenPayload(suite: Suite, data: Bytes, offset: nat, encryptedSize: nat, key: Bytes)
    : Result<Bytes, MultiError>
    requires offset <= |data|
  {
    if offset + IV_SIZE > |data| then Err(ChunkTooSmall)
    else
      var start := offset + IV_SIZE;
      if start + encryptedSize > |data| then Err(ChunkTooSmall)
      else
        var plain := suite.open(key, data[offset..start], data[..offset], data[start..start + encryptedSize]);
        if plain.None? then Err(DecryptionFailed) else Ok(plain.value)
  }

  /** With a sender key the first 64 bytes must be the sender's signature over the rest. */
  function CheckSender(reader: Reader, plain: Bytes): Result<Bytes, MultiError> {
    if reader.senderPublicKey.None? then Ok(plain)
    else if |plain| < SIGNATURE_SIZE then Err(TooShortForSignature)
    else if !reader.suite.verify(reader.senderPublicKey.value, plain[SIGNATURE_SIZE..], plain[..SIGNATURE_SIZE]) then
      Err(InvalidSignature)
    else Ok(plain[SIGNATURE_SIZE..])
  }

  function OpenChunk(reader: Reader, data: Bytes): Result<(Bytes, Header), MultiError> {
    var header := ParseHeader(data);
    if header.Err? then Err(header.error)
    else
      var ephemeralKey := data[21..21 + EPHEMERAL_SIZE];
      var scanned := Scan(reader, data, HEADER_SIZE, header.value.recipientCount, ephemeralKey, None);
      if scanned.Err? then Err(scanned.error)
      else
        var (key, offset) := scanned.value;
        if key.None? then Err(RecipientNotFoundInChunk)
        else
          var plain := OpenPayload(reader.suite, data, offset, header.value.encryptedSize, key.value);
          if plain.Err? then Err(plain.error)
          else
            var checked := CheckSender(reader, plain.value);
            if checked.Err? then Err(checked.error) else Ok((checked.value, header.value))
  }

  // ---------- Printed records read back ----------

  lemma RecordReadsBack(data: Bytes, offset: nat, id: Bytes, wrapped: Bytes)
    requires 0 < |wrapped| <= MAX_KEY_SIZE && offset + |Record(id, wrapped)| <= |data|
    requires data[offset..offset + |Record(id, wrapped)|] == Record(id, wrapped)
    ensures ReadRecord(data, offset, |id|) == Ok(Parsed(id, wrapped, offset + |Record(id, wrapped)|))
  {
    hide ToBigEndian, BigEndian;
    var size := ToBigEndian(|wrapped|, KEY_SIZE_BYTES);
    var record := id + size + wrapped;
    RecordSlices(data, offset, id, size, wrapped);
    FieldReadsBack(data, offset + |id|, KEY_SIZE_BYTES, |wrapped|);
    Ranges();
    assert |wrapped| % 0x1_0000 == |wrapped|;
  }

  lemma RecordSlices(data: Bytes, offset: nat, id: Bytes, size: Bytes, wrapped: Bytes)
    requires |size| == 2 && offset + |id| + 2 + |wrapped| <= |data|
    requires data[offset..offset + |id| + 2 + |wrapped|] == id + size + wrapped
    ensures data[offset..offset + |id|] == id
    ensures data[offset + |id|..offset + |id| + 2] == size
    ensures data[offset + |id| + 2..offset + |id| + 2 + |wrapped|] == wrapped
  {
    var all := id + size + wrapped;
    assert all[..|id|] == id && all[|id|..|id| + 2] == size && all[|id| + 2..] == wrapped;
    var piece := data[offset..offset + |all|];
    assert forall i :: 0 <= i < |all| ==> piece[i] == data[offset + i];
  }

  /** Position of an id in the recipient list, or its length. */
  function Position(recipients: seq<Recipient>, id: Bytes): (k: nat)
    ensures k <= |recipients|
    ensures k < |recipients| ==> recipients[k].id == id
    ensures forall j :: 0 <= j < k ==> recipients[j].id != id
    decreases |recipients|
  {
    if recipients == [] || recipients[0].id == id then 0 else 1 + Position(recipients[1..], id)
  }

  predicate Distinct(recipients: seq<Recipient>) {
    forall i, j :: 0 <= i < j < |recipients| ==> recipients[i].id != recipients[j].id
  }

  /** All ids have the configured size and all keys one the parser accepts. */
  predicate Printable(recipients: seq<Recipient>, wrapped: seq<Bytes>, idSize: nat) {
    && |wrapped| == |recipients|
    && (forall k :: 0 <= k < |recipients| ==> |recipients[k].id| == idSize)
    && (forall k :: 0 <= k < |wrapped| ==> 0 < |wrapped[k]| <= MAX_KEY_SIZE)
  }

  lemma SliceSplits(data: Bytes, offset: nat, first: Bytes, rest: Bytes)
    requires offset + |first| + |rest| <= |data| && data[offset..offset + |first + rest|] == first + rest
    ensures data[offset..offset + |first|] == first
    ensures data[offset + |first|..offset + |first| + |rest|] == rest
  {
    var all := data[offset..offset + |first + rest|];
    assert all[..|first|] == first && all[|first|..] == rest;
  }

  lemma PrintableTail(recipients: seq<Recipient>, wrapped: seq<Bytes>, idSize: nat)
    requires recipients != [] && Printable(recipients, wrapped, idSize) && Distinct(recipients)
    ensures Printable(recipients[1..], wrapped[1..], idSize) && Distinct(recipients[1..])
    ensures |recipients[0].id| == idSize && 0 < |wrapped[0]| <= MAX_KEY_SIZE
    ensures Position(recipients[1..], recipients[0].id) == |recipients[1..]|
  {
  }

  lemma ScanStep(reader: Reader, data: Bytes, offset: nat, count: nat, ephemeralKey: Bytes, found: Option<Bytes>,
                 record: Parsed)
    requires count > 0 && ReadRecord(data, offset, reader.idSize) == Ok(record)
    ensures var key := reader.suite.unwrap(reader.privateKey, record.wrapped, ephemeralKey, record.id);
            var scanned := Scan(reader, data, offset, count, ephemeralKey, found);
            if record.id == reader.recipientId && key.None? then scanned == Err(KeyDecryptionFailed)
            else scanned == Scan(reader, data, record.next, count - 1, ephemeralKey,
                                 if record.id == reader.recipientId then key else found)
  {
    hide ReadRecord;
  }

  /** In front of printed records the scan passes the first one, and the others are printed behind it. */
  lemma ScanFirst(reader: Reader, data: Bytes, offset: nat, recipients: seq<Recipient>, wrapped: seq<Bytes>,
                  ephemeralKey: Bytes, found: Option<Bytes>)
    requires recipients != [] && Printable(recipients, wrapped, reader.idSize) && Distinct(recipients)
    requires PrintedAt(data, offset, recipients, wrapped)
    ensures var next := offset + |Record(recipients[0].id, wrapped[0])|;
            var own := recipients[0].id == reader.recipientId;
            var key := reader.suite.unwrap(reader.privateKey, wrapped[0], ephemeralKey, recipients[0].id);
            var scanned := Scan(reader, data, offset, |recipients|, ephemeralKey, found);
            && PrintedAt(data, next, recipients[1..], wrapped[1..])
            && next + |Records(recipients[1..], wrapped[1..])| == offset + |Records(recipients, wrapped)|
            && (if own && key.None? then scanned == Err(KeyDecryptionFailed)
                else scanned == Scan(reader, data, next, |recipients| - 1, ephemeralKey, if own then key else found))
  {
    hide Record, ReadRecord, Scan;
    var r, w := recipients[0], wrapped[0];
    var first, rest := Record(r.id, w), Records(recipients[1..], wrapped[1..]);
    assert Records(recipients, wrapped) == first + rest;
    SliceSplits(data, offset, first, rest);
    RecordReadsBack(data, offset, r.id, w);
    ScanStep(reader, data, offset, |recipients|, ephemeralKey, found, Parsed(r.id, w, offset + |first|));
  }

  ghost predicate PrintedAt(data: Bytes, offset: nat, recipients: seq<Recipient>, wrapped: seq<Bytes>) {
    && |recipients| == |wrapped| && offset + |Records(recipients, wrapped)| <= |data|
    && data[offset..offset + |Records(recipients, wrapped)|] == Records(recipients, wrapped)
  }

  /** What scanning a list of records ought to give: the key of the reader's own record, if there is one. */
  ghost function Scanned(reader: Reader, recipients: seq<Recipient>, wrapped: seq<Bytes>, ephemeralKey: Bytes,
                         found: Option<Bytes>, end: nat): Result<(Option<Bytes>, nat), MultiError>
    requires |recipients| == |wrapped|
  {
    var k := Position(recipients, reader.recipientId);
    if k == |recipients| then Ok((found, end))
    else
      var key := reader.suite.unwrap(reader.privateKey, wrapped[k], ephemeralKey, reader.recipientId);
      if key.Some? then Ok((key, end)) else Err(KeyDecryptionFailed)
  }

  lemma ScannedTail(reader: Reader, recipients: seq<Recipient>, wrapped: seq<Bytes>, ephemeralKey: Bytes,
                    found: Option<Bytes>, end: nat)
    requires recipients != [] && |recipients| == |wrapped|
    requires Position(recipients[1..], recipients[0].id) == |recipients[1..]|
    ensures var own := recipients[0].id == reader.recipientId;
            var key := reader.suite.unwrap(reader.privateKey, wrapped[0], ephemeralKey, recipients[0].id);
            Scanned(reader, recipients, wrapped, ephemeralKey, found, end) ==
            if own && key.None? then Err(KeyDecryptionFailed)
            else Scanned(reader, recipients[1..], wrapped[1..], ephemeralKey, if own then key else found, end)
  {
    var tail, id := recipients[1..], reader.recipientId;
    assert Position(recipients, id) == if recipients[0].id == id then 0 else 1 + Position(tail, id);
    hide Position;
  }

  /** Scanning printed records ends where they end, having unwrapped the key of the reader's own record, if there
      is one. */
  lemma {:induction false} ScanPrinted(reader: Reader, data: Bytes, offset: nat, recipients: seq<Recipient>,
                                       wrapped: seq<Bytes>, ephemeralKey: Bytes, found: Option<Bytes>)
    requires Printable(recipients, wrapped, reader.idSize) && Distinct(recipients)
    requires PrintedAt(data, offset, recipients, wrapped)
    ensures Scan(reader, data, offset, |recipients|, ephemeralKey, found)
         == Scanned(reader, recipients, wrapped, ephemeralKey, found, offset + |Records(recipients, wrapped)|)
    decreases |recipients|
  {
    hide *;
    PrintedLengths(data, offset, recipients, wrapped);
    if recipients == [] {
      ScanNone(reader, data, offset, wrapped, ephemeralKey, found);
    } else {
      PrintableTail(recipients, wrapped, reader.idSize);
      var next := offset + |Record(recipients[0].id, wrapped[0])|;
      var key := reader.suite.unwrap(reader.privateKey, wrapped[0], ephemeralKey, recipients[0].id);
      ScanFirst(reader, data, offset, recipients, wrapped, ephemeralKey, found);
      ScannedTail(reader, recipients, wrapped, ephemeralKey, found, offset + |Records(recipients, wrapped)|);
      if recipients[0].id != reader.recipientId {
        ScanPrinted(reader, data, next, recipients[1..], wrapped[1..], ephemeralKey, found);
      } else if key.Some? {
        ScanPrinted(reader, data, next, recipients[1..], wrapped[1..], ephemeralKey, key);
      }
    }
  }

  lemma PrintedLengths(data: Bytes, offset: nat, recipients: seq<Recipient>, wrapped: seq<Bytes>)
    requires PrintedAt(data, offset, recipients, wrapped)
    ensures |recipients| == |wrapped|
  {
  }

  lemma ScanNone(reader: Reader, data: Bytes, offset: nat, wrapped: seq<Bytes>, ephemeralKey: Bytes,
                 found: Option<Bytes>)
    requires wrapped == []
    ensures Scan(reader, data, offset, 0, ephemeralKey, found)
         == Scanned(reader, [], wrapped, ephemeralKey, found, offset + |Records([], wrapped)|)
  {
  }

  // ---------- The whole chunk ----------

  /** What the printer is set up with; ivSize is the configured size, which only enters the total. */
  datatype Writer = Writer(
    suite: Suite, idSize: nat, ivSize: nat, ephemeral: Ephemeral, salts: nat -> Bytes, iv: Bytes)
  {
    predicate Valid() {
      |ephemeral.publicKey| == EPHEMERAL_SIZE && |iv| == IV_SIZE
    }
  }

  datatype Request = Request(
    data: Bytes, recipients: seq<Recipient>, chunkIndex: int, isLast: bool, symmetricKey: Bytes,
    senderPrivateKey: Option<Bytes>)

  /** Sign, then encrypt. */
  function Payload(writer: Writer, request: Request): Bytes {
    if request.senderPrivateKey.Some?
    then writer.suite.sign(request.senderPrivateKey.value, request.data) + request.data
    else request.data
  }

  function WrapAll(writer: Writer, key: Bytes, recipients: seq<Recipient>, k: nat): (r: Result<seq<Bytes>, MultiError>)
    ensures r.Ok? ==> |r.value| == |recipients|
    decreases |recipients|
  {
    if recipients == [] then Ok([])
    else
      var first := recipients[0];
      if |first.id| != writer.idSize then Err(InvalidRecipientIdSize)
      else
        var wrapped := writer.suite.wrap(first.publicKey, key, writer.ephemeral.privateKey, first.id, writer.salts(k));
        if wrapped.None? then Err(KeyEncryptionFailed)
        else
          Prepend([wrapped.value], WrapAll(writer, key, recipients[1..], k + 1))
  }

  function Prepend(first: seq<Bytes>, rest: Result<seq<Bytes>, MultiError>): Result<seq<Bytes>, MultiError> {
    if rest.Err? then rest else Ok(first + rest.value)
  }

  lemma PrependNone(rest: Result<seq<Bytes>, MultiError>)
    ensures Prepend([], rest) == rest
  {
    if rest.Ok? {
      assert [] + rest.value == rest.value;
    }
  }

  lemma PrependTwice(x: seq<Bytes>, y: seq<Bytes>, rest: Result<seq<Bytes>, MultiError>)
    ensures Prepend(x, Prepend(y, rest)) == Prepend(x + y, rest)
  {
    if rest.Ok? {
      assert x + (y + rest.value) == x + y + rest.value;
    }
  }

  function PrintedHeader(writer: Writer, request: Request): Header
    requires request.chunkIndex >= 0
  {
    Header(MAGIC, VERSION, |request.recipients|, request.chunkIndex, |Payload(writer, request)|,
           |Payload(writer, request)| + TAG_SIZE, if request.isLast then 1 else 0)
  }

  /** Everything in front of the initialisation vector: the additional authenticated data. */
  function Aad(writer: Writer, request: Request, wrapped: seq<Bytes>): Bytes
    requires writer.Valid() && request.chunkIndex >= 0 && |wrapped| == |request.recipients|
  {
    FixedHeader(PrintedHeader(writer, request), writer.ephemeral.publicKey) + Records(request.recipients, wrapped)
  }

  /** The input checks, in the order in which they are made. */
  function RequestError(writer: Writer, request: Request): Option<MultiError> {
    if |request.recipients| == 0 || |request.recipients| > MAX_RECIPIENTS then Some(InvalidRecipientCount)
    else if |request.symmetricKey| != SYMMETRIC_KEY_SIZE then Some(SymmetricKeyMust32Bytes)
    else if request.chunkIndex < 0 || request.chunkIndex > MAX_INDEX then Some(InvalidChunkIndex)
    else if |Payload(writer, request)| > MAX_SIZE then Some(DataSizeExceedsMaximum)
    else if !Distinct(request.recipients) then Some(DuplicateRecipientId)
    else None
  }

  function TotalSize(writer: Writer, request: Request, wrapped: seq<Bytes>): nat
    requires |wrapped| == |request.recipients|
  {
    HEADER_SIZE + |Records(request.recipients, wrapped)| + writer.ivSize + |Payload(writer, request)| + TAG_SIZE
  }

  /** The bytes of the chunk, or the first error. A configured initialisation vector size other than 12 leaves
      no room for the tag, or trailing zeros. */
  function PrintChunk(writer: Writer, request: Request): Result<Bytes, MultiError>
    requires writer.Valid()
  {
    var error := RequestError(writer, request);
    if error.Some? then Err(error.value)
    else
      var wrapped := WrapAll(writer, request.symmetricKey, request.recipients, 0);
      if wrapped.Err? then Err(wrapped.error)
      else if TotalSize(writer, request, wrapped.value) > MAX_SIZE then Err(ChunkSizeOverflow)
      else if writer.ivSize < IV_SIZE then Err(RangeError)
      else
        var aad := Aad(writer, request, wrapped.value);
        Ok(aad + writer.iv + writer.suite.seal(request.symmetricKey, writer.iv, aad, Payload(writer, request))
           + ZeroBytes(writer.ivSize - IV_SIZE))
  }

  method HasDuplicate(recipients: seq<Recipient>) returns (duplicate: bool)
    ensures duplicate <==> !Distinct(recipients)
  {
    var seenIds: set<string> := {};
    var i := 0;
    while i < |recipients|
      invariant 0 <= i <= |recipients| && Distinct(recipients[..i])
      invariant seenIds == set j | 0 <= j < i :: BytesToHex(recipients[j].id)
    {
      var idStr := BytesToHex(recipients[i].id);
      if idStr in seenIds {
        var j :| 0 <= j < i && BytesToHex(recipients[j].id) == idStr;
        BytesToHexInjective(recipients[j].id, recipients[i].id);
        return true;
      }
      seenIds := seenIds + {idStr};
      i := i + 1;
    }
    assert recipients[..i] == recipients;
    return false;
  }

  method WrapKeys(writer: Writer, key: Bytes, recipients: seq<Recipient>) returns (r: Result<seq<Bytes>, MultiError>)
    ensures r == WrapAll(writer, key, recipients, 0)
  {
    var headers: seq<Bytes> := [];
    var k := 0;
    PrependNone(WrapAll(writer, key, recipients, 0));
    assert recipients[0..] == recipients;
    while k < |recipients|
      invariant 0 <= k <= |recipients| && |headers| == k
      invariant WrapAll(writer, key, recipients, 0) == Prepend(headers, WrapAll(writer, key, recipients[k..], k))
    {
      var recipient := recipients[k];
      assert recipients[k..][1..] == recipients[k + 1..];
      if |recipient.id| != writer.idSize { return Err(InvalidRecipientIdSize); }
      var wrapped :=
        writer.suite.wrap(recipient.publicKey, key, writer.ephemeral.privateKey, recipient.id, writer.salts(k));
      if wrapped.None? { return Err(KeyEncryptionFailed); }
      PrependTwice(headers, [wrapped.value], WrapAll(writer, key, recipients[k + 1..], k + 1));
      headers := headers + [wrapped.value];
      k := k + 1;
    }
    assert headers + [] == headers;
    return Ok(headers);
  }

  lemma {:induction false} RecordsConcat(r1: seq<Recipient>, w1: seq<Bytes>, r2: seq<Recipient>, w2: seq<Bytes>)
    requires |r1| == |w1| && |r2| == |w2|
    ensures Records(r1 + r2, w1 + w2) == Records(r1, w1) + Records(r2, w2)
    decreases |r1|
  {
    hide Record;
    if r1 == [] {
      assert r1 + r2 == r2 && w1 + w2 == w2;
    } else {
      RecordsConcat(r1[1..], w1[1..], r2, w2);
      assert (r1 + r2)[1..] == r1[1..] + r2 && (w1 + w2)[1..] == w1[1..] + w2;
    }
  }

  lemma RecordsTake(recipients: seq<Recipient>, wrapped: seq<Bytes>, k: nat)
    requires |recipients| == |wrapped| && k < |recipients|
    ensures Records(recipients[..k + 1], wrapped[..k + 1])
         == Records(recipients[..k], wrapped[..k]) + recipients[k].id + ToBigEndian(|wrapped[k]|, 2) + wrapped[k]
    ensures |Records(recipients[..k + 1], wrapped[..k + 1])| <= |Records(recipients, wrapped)|
  {
    var (r, w) := (recipients[k], wrapped[k]);
    assert recipients[..k + 1] == recipients[..k] + [r] && wrapped[..k + 1] == wrapped[..k] + [w];
    RecordsConcat(recipients[..k], wrapped[..k], [r], [w]);
    assert Records([r], [w]) == Record(r.id, w) + Records([r][1..], [w][1..]) == Record(r.id, w);
    assert recipients[..k + 1] + recipients[k + 1..] == recipients && wrapped[..k + 1] + wrapped[k + 1..] == wrapped;
    RecordsConcat(recipients[..k + 1], wrapped[..k + 1], recipients[k + 1..], wrapped[k + 1..]);
    assert Records(recipients[..k], wrapped[..k]) + (r.id + ToBigEndian(|w|, 2) + w)
        == Records(recipients[..k], wrapped[..k]) + r.id + ToBigEndian(|w|, 2) + w;
  }

  method WriteHeader(chunk: array<Byte>, h: Header, ephemeralKey: Bytes)
    requires |ephemeralKey| == EPHEMERAL_SIZE && Filled(chunk, []) && chunk.Length >= HEADER_SIZE
    modifies chunk
    ensures Filled(chunk, FixedHeader(h, ephemeralKey))
  {
    hide ToBigEndian, Filled;
    ghost var w: Bytes := [];
    PutUint(chunk, 0, 4, h.magic, w);
    w := w + ToBigEndian(h.magic, 4);
    PutUint(chunk, 4, 2, h.version, w);
    w := w + ToBigEndian(h.version, 2);
    PutUint(chunk, 6, 2, h.recipientCount, w);
    w := w + ToBigEndian(h.recipientCount, 2);
    PutUint(chunk, 8, 4, h.chunkIndex, w);
    w := w + ToBigEndian(h.chunkIndex, 4);
    PutUint(chunk, 12, 4, h.originalSize, w);
    w := w + ToBigEndian(h.originalSize, 4);
    PutUint(chunk, 16, 4, h.encryptedSize, w);
    w := w + ToBigEndian(h.encryptedSize, 4);
    PutUint(chunk, 20, 1, h.flags, w);
    w := w + ToBigEndian(h.flags, 1);
    PutBytes(chunk, ephemeralKey, 21, w);
    w := w + ephemeralKey;
    SkipPadding(chunk, w, 10);
    w := w + ZeroBytes(10);
    assert w == FixedHeader(h, ephemeralKey) by {
      assert [] + ToBigEndian(h.magic, 4) == ToBigEndian(h.magic, 4);
    }
  }

  method WriteRecords(chunk: array<Byte>, recipients: seq<Recipient>, wrapped: seq<Bytes>, ghost header: Bytes)
    returns (offset: nat)
    requires |wrapped| == |recipients| && |header| == HEADER_SIZE && Filled(chunk, header)
    requires HEADER_SIZE + |Records(recipients, wrapped)| <= chunk.Length
    modifies chunk
    ensures Filled(chunk, header + Records(recipients, wrapped))
    ensures offset == HEADER_SIZE + |Records(recipients, wrapped)|
  {
    hide ToBigEndian, Filled, Records;
    offset := HEADER_SIZE;
    ghost var w := header;
    var k := 0;
    NoRecords(recipients, wrapped);
    assert header + [] == header;
    while k < |recipients|
      invariant 0 <= k <= |recipients| && Filled(chunk, w) && offset == |w|
      invariant w == header + Records(recipients[..k], wrapped[..k])
    {
      RecordsTake(recipients, wrapped, k);
      ghost var size := ToBigEndian(|wrapped[k]|, 2);
      ghost var next := Records(recipients[..k + 1], wrapped[..k + 1]);
      PutBytes(chunk, recipients[k].id, offset, w);
      PutUint(chunk, offset + |recipients[k].id|, KEY_SIZE_BYTES, |wrapped[k]|, w + recipients[k].id);
      PutBytes(chunk, wrapped[k], offset + |recipients[k].id| + KEY_SIZE_BYTES, w + recipients[k].id + size);
      assert w + recipients[k].id + size + wrapped[k] == header + next;
      w := header + next;
      offset := offset + |recipients[k].id| + KEY_SIZE_BYTES + |wrapped[k]|;
      k := k + 1;
    }
    assert recipients[..k] == recipients && wrapped[..k] == wrapped;
  }

  lemma NoRecords(recipients: seq<Recipient>, wrapped: seq<Bytes>)
    requires |wrapped| == |recipients|
    ensures Records(recipients[..0], wrapped[..0]) == []
  {
  }

  /** Writes header, records and payload at advancing offsets into one buffer; the bytes before the payload are
      read back from the buffer as additional authenticated data. */
  method WriteChunk(writer: Writer, request: Request, wrapped: seq<Bytes>) returns (r: Result<array<Byte>, MultiError>)
    requires writer.Valid() && SealOpens(writer.suite) && request.chunkIndex >= 0
    requires |wrapped| == |request.recipients|
    ensures r.Ok? <==> writer.ivSize >= IV_SIZE
    ensures r.Err? ==> r.error == RangeError
    ensures r.Ok? ==> var aad := Aad(writer, request, wrapped);
      r.value[..] == aad + writer.iv + writer.suite.seal(request.symmetricKey, writer.iv, aad, Payload(writer, request))
                     + ZeroBytes(writer.ivSize - IV_SIZE)
  {
    var payload := Payload(writer, request);
    var chunk := new Byte[TotalSize(writer, request, wrapped)](_ => 0);
    FilledFresh(chunk);
    hide Filled, Records, FixedHeader, PrintedHeader;
    var h := PrintedHeader(writer, request);
    WriteHeader(chunk, h, writer.ephemeral.publicKey);
    var offset := WriteRecords(chunk, request.recipients, wrapped, FixedHeader(h, writer.ephemeral.publicKey));
    ghost var aad := Aad(writer, request, wrapped);
    FilledPrefix(chunk, aad);
    var headerBytes := chunk[..offset];
    var sealed := writer.suite.seal(request.symmetricKey, writer.iv, headerBytes, payload);
    assert |sealed| == |payload| + TAG_SIZE;
    hide *;
    var written := WritePayload(chunk, writer.iv, sealed, offset, aad);
    if !written { return Err(RangeError); }
    FilledPrefix(chunk, aad + writer.iv + sealed);
    return Ok(chunk);
  }

  /** Vector, ciphertext and tag; only the tag may be out of range. */
  method WritePayload(chunk: array<Byte>, iv: Bytes, sealed: Bytes, start: nat, ghost before: Bytes)
    returns (written: bool)
    requires |iv| == IV_SIZE && |sealed| >= TAG_SIZE && start == |before| && Filled(chunk, before)
    requires start + |iv| + |sealed| - TAG_SIZE <= chunk.Length
    modifies chunk
    ensures written <==> start + |iv| + |sealed| <= chunk.Length
    ensures written ==> Filled(chunk, before + iv + sealed)
  {
    hide Filled;
    var encrypted, tag := sealed[..|sealed| - TAG_SIZE], sealed[|sealed| - TAG_SIZE..];
    PutBytes(chunk, iv, start, before);
    var offset := start + IV_SIZE;
    PutBytes(chunk, encrypted, offset, before + iv);
    offset := offset + |encrypted|;
    if offset + |tag| > chunk.Length { return false; }
    PutBytes(chunk, tag, offset, before + iv + encrypted);
    assert before + iv + encrypted + tag == before + iv + sealed;
    return true;
  }

  method EncryptChunk(writer: Writer, request: Request) returns (r: Result<array<Byte>, MultiError>)
    requires writer.Valid() && SealOpens(writer.suite)
    ensures r.Ok? <==> PrintChunk(writer, request).Ok?
    ensures r.Ok? ==> PrintChunk(writer, request) == Ok(r.value[..])
    ensures r.Err? ==> PrintChunk(writer, request) == Err(r.error)
  {
    hide SealOpens, Aad, Distinct;
    if |request.recipients| == 0 || |request.recipients| > MAX_RECIPIENTS { return Err(InvalidRecipientCount); }
    if |request.symmetricKey| != SYMMETRIC_KEY_SIZE { return Err(SymmetricKeyMust32Bytes); }
    if request.chunkIndex < 0 || request.chunkIndex > MAX_INDEX { return Err(InvalidChunkIndex); }
    if |Payload(writer, request)| > MAX_SIZE { return Err(DataSizeExceedsMaximum); }
    var duplicate := HasDuplicate(request.recipients);
    if duplicate { return Err(DuplicateRecipientId); }
    var wrapped :- WrapKeys(writer, request.symmetricKey, request.recipients);
    if TotalSize(writer, request, wrapped) > MAX_SIZE { return Err(ChunkSizeOverflow); }
    r := WriteChunk(writer, request, wrapped);
  }

  /** The loop over the records; it does not stop at a match, because the end of the records is needed. */
  method ScanRecords(reader: Reader, data: Bytes, count: nat, ephemeralKey: Bytes)
    returns (r: Result<(Option<Bytes>, nat), MultiError>)
    ensures r == Scan(reader, data, HEADER_SIZE, count, ephemeralKey, None)
  {
    hide ReadRecord;
    var symmetricKey: Option<Bytes> := None;
    var tempOffset: nat := HEADER_SIZE;
    for i := 0 to count
      invariant Scan(reader, data, HEADER_SIZE, count, ephemeralKey, None)
             == Scan(reader, data, tempOffset, count - i, ephemeralKey, symmetricKey)
    {
      var record := ReadRecord(data, tempOffset, reader.idSize);
      if record.Err? { return Err(record.error); }
      var mine := ArraysEqual(record.value.id, reader.recipientId);
      if mine {
        var key := reader.suite.unwrap(reader.privateKey, record.value.wrapped, ephemeralKey, record.value.id);
        if key.None? { return Err(KeyDecryptionFailed); }
        symmetricKey := key;
      }
      tempOffset := record.value.next;
    }
    return Ok((symmetricKey, tempOffset));
  }

  method DecryptChunk(reader: Reader, data: Bytes) returns (r: Result<(Bytes, Header), MultiError>)
    ensures r == OpenChunk(reader, data)
  {
    hide ParseHeader, OpenPayload, CheckSender, Scan;
    var header :- ParseHeader(data);
    var ephemeralKey := data[21..21 + EPHEMERAL_SIZE];
    var scanned :- ScanRecords(reader, data, header.recipientCount, ephemeralKey);
    var (symmetricKey, offset) := scanned;
    if symmetricKey.None? { return Err(RecipientNotFoundInChunk); }
    var plain :- OpenPayload(reader.suite, data, offset, header.encryptedSize, symmetricKey.value);
    var finalData :- CheckSender(reader, plain);
    return Ok((finalData, header));
  }

  method ArraysEqual(a: Bytes, b: Bytes) returns (equal: bool)
    ensures equal <==> a == b
  {
    if |a| != |b| { return false; }
    var differs := Differs(a, b);
    return !differs;
  }

  // ---------- The round trip ----------

  lemma {:induction false} WrapAllEach(writer: Writer, key: Bytes, recipients: seq<Recipient>, k: nat, i: nat)
    requires WrapAll(writer, key, recipients, k).Ok? && i < |recipients|
    ensures var r := recipients[i];
            && |r.id| == writer.idSize
            && writer.suite.wrap(r.publicKey, key, writer.ephemeral.privateKey, r.id, writer.salts(k + i))
               == Some(WrapAll(writer, key, recipients, k).value[i])
    decreases |recipients|
  {
    if i > 0 {
      WrapAllEach(writer, key, recipients[1..], k + 1, i - 1);
    }
  }

  lemma WrappedArePrintable(writer: Writer, key: Bytes, recipients: seq<Recipient>, wrapped: seq<Bytes>)
    requires WrapSizes(writer.suite) && WrapAll(writer, key, recipients, 0) == Ok(wrapped)
    ensures Printable(recipients, wrapped, writer.idSize)
  {
    hide WrapAll;
    forall i | 0 <= i < |recipients|
      ensures |recipients[i].id| == writer.idSize && 0 < |wrapped[i]| <= MAX_KEY_SIZE
    {
      WrapAllEach(writer, key, recipients, 0, i);
    }
  }

  lemma EightFields(f0: Bytes, f1: Bytes, f2: Bytes, f3: Bytes, f4: Bytes, f5: Bytes, f6: Bytes, f7: Bytes, tail: Bytes)
    requires |f0| == |f3| == |f4| == |f5| == 4 && |f1| == |f2| == 2 && |f6| == 1 && |f7| == EPHEMERAL_SIZE
    ensures var data := f0 + f1 + f2 + f3 + f4 + f5 + f6 + f7 + tail;
            && data[0..4] == f0 && data[4..6] == f1 && data[6..8] == f2 && data[8..12] == f3
            && data[12..16] == f4 && data[16..20] == f5 && data[20..21] == f6 && data[21..54] == f7
  {
  }

  predicate FieldsFit(h: Header) {
    && h.magic == MAGIC && h.version == VERSION && 0 < h.recipientCount <= MAX_RECIPIENTS
    && h.chunkIndex <= MAX_INDEX && h.originalSize <= MAX_INDEX && h.encryptedSize <= MAX_INDEX && h.flags < 256
  }

  lemma HeaderReadsBack(h: Header, ephemeralKey: Bytes, rest: Bytes)
    requires |ephemeralKey| == EPHEMERAL_SIZE && FieldsFit(h) && |rest| >= IV_SIZE + h.encryptedSize
    ensures ParseHeader(FixedHeader(h, ephemeralKey) + rest) == Ok(h)
    ensures (FixedHeader(h, ephemeralKey) + rest)[21..54] == ephemeralKey
  {
    hide ToBigEndian, BigEndian, ZeroBytes;
    var f0, f1, f2 := ToBigEndian(h.magic, 4), ToBigEndian(h.version, 2), ToBigEndian(h.recipientCount, 2);
    var f3, f4 := ToBigEndian(h.chunkIndex, 4), ToBigEndian(h.originalSize, 4);
    var f5, f6 := ToBigEndian(h.encryptedSize, 4), ToBigEndian(h.flags, 1);
    var data := FixedHeader(h, ephemeralKey) + rest;
    EightFields(f0, f1, f2, f3, f4, f5, f6, ephemeralKey, ZeroBytes(10) + rest);
    assert data == f0 + f1 + f2 + f3 + f4 + f5 + f6 + ephemeralKey + (ZeroBytes(10) + rest);
    Ranges();
    hide ByteRange, FixedHeader;
    FieldReadsBack(data, 0, 4, h.magic);
    FieldReadsBack(data, 4, 2, h.version);
    FieldReadsBack(data, 6, 2, h.recipientCount);
    FieldReadsBack(data, 8, 4, h.chunkIndex);
    FieldReadsBack(data, 12, 4, h.originalSize);
    FieldReadsBack(data, 16, 4, h.encryptedSize);
    FieldReadsBack(data, 20, 1, h.flags);
  }

  /** The parser finds the printed header again. */
  lemma PrintedHeaderParses(writer: Writer, request: Request, wrapped: seq<Bytes>, rest: Bytes)
    requires writer.Valid() && RequestError(writer, request).None? && |wrapped| == |request.recipients|
    requires |rest| >= IV_SIZE + |Payload(writer, request)| + TAG_SIZE
    ensures var data := Aad(writer, request, wrapped) + rest;
            ParseHeader(data) == Ok(PrintedHeader(writer, request)) && data[21..54] == writer.ephemeral.publicKey
  {
    var h, eph := PrintedHeader(writer, request), writer.ephemeral.publicKey;
    var records := Records(request.recipients, wrapped);
    hide Records, FixedHeader, ParseHeader;
    assert Aad(writer, request, wrapped) + rest == FixedHeader(h, eph) + (records + rest);
    assert FieldsFit(h);
    HeaderReadsBack(h, eph, records + rest);
  }

  /** The scan over printed records ends where the authenticated bytes end. */
  lemma PrintedScans(writer: Writer, request: Request, wrapped: seq<Bytes>, reader: Reader, rest: Bytes)
    requires writer.Valid() && RequestError(writer, request).None?
    requires Printable(request.recipients, wrapped, writer.idSize)
    requires reader.idSize == writer.idSize
    ensures var aad := Aad(writer, request, wrapped);
            var k := Position(request.recipients, reader.recipientId);
            var scanned :=
              Scan(reader, aad + rest, HEADER_SIZE, |request.recipients|, writer.ephemeral.publicKey, None);
            && (k == |request.recipients| ==> scanned == Ok((None, |aad|)))
            && (k < |request.recipients| ==>
                 var key :=
                   reader.suite.unwrap(reader.privateKey, wrapped[k], writer.ephemeral.publicKey, reader.recipientId);
                 key.Some? ==> scanned == Ok((key, |aad|)))
  {
    assert Distinct(request.recipients);
    var header := FixedHeader(PrintedHeader(writer, request), writer.ephemeral.publicKey);
    assert Aad(writer, request, wrapped) == header + Records(request.recipients, wrapped);
    hide RequestError, FixedHeader, Aad, Records, Scan, Position, Distinct, Printable;
    SliceAfter(header, Records(request.recipients, wrapped), rest);
    ScanPrinted(reader, Aad(writer, request, wrapped) + rest, HEADER_SIZE, request.recipients, wrapped,
                writer.ephemeral.publicKey, None);
  }

  /** Opening a printed chunk. A reader whose id is not listed is told so; a listed reader who can unwrap the key
      gets the payload, authenticated with exactly the bytes that the printer authenticated, and what comes after
      the ciphertext does not matter. */
  lemma OpensPrinted(writer: Writer, request: Request, wrapped: seq<Bytes>, reader: Reader, extra: Bytes)
    requires writer.Valid() && RequestError(writer, request).None?
    requires Printable(request.recipients, wrapped, writer.idSize)
    requires reader.suite == writer.suite && reader.idSize == writer.idSize && SealOpens(writer.suite)
    ensures var aad := Aad(writer, request, wrapped);
            var payload := Payload(writer, request);
            var data := aad + writer.iv + writer.suite.seal(request.symmetricKey, writer.iv, aad, payload) + extra;
            var k := Position(request.recipients, reader.recipientId);
            && (k == |request.recipients| ==> OpenChunk(reader, data) == Err(RecipientNotFoundInChunk))
            && (k < |request.recipients| ==>
                reader.suite.unwrap(reader.privateKey, wrapped[k], writer.ephemeral.publicKey, reader.recipientId)
                  == Some(request.symmetricKey) ==>
                OpenChunk(reader, data) == Delivered(reader, payload, PrintedHeader(writer, request)))
  {
    var aad, payload := Aad(writer, request, wrapped), Payload(writer, request);
    var sealed := writer.suite.seal(request.symmetricKey, writer.iv, aad, payload);
    SealFacts(writer.suite, request.symmetricKey, writer.iv, aad, payload);
    var data := aad + writer.iv + sealed + extra;
    assert data == aad + (writer.iv + sealed + extra);
    hide Aad, Payload, ParseHeader, Scan, Position, OpenPayload, CheckSender, Printable, RequestError, SealOpens;
    PrintedHeaderParses(writer, request, wrapped, writer.iv + sealed + extra);
    PrintedScans(writer, request, wrapped, reader, writer.iv + sealed + extra);
    PayloadOpens(writer.suite, aad, writer.iv, sealed, extra, request.symmetricKey, payload);
  }

  /** The final check and the pairing with the header. */
  function Delivered(reader: Reader, payload: Bytes, h: Header): Result<(Bytes, Header), MultiError> {
    var checked := CheckSender(reader, payload);
    if checked.Err? then Err(checked.error) else Ok((checked.value, h))
  }

  lemma SealFacts(suite: Suite, key: Bytes, iv: Bytes, aad: Bytes, data: Bytes)
    requires SealOpens(suite)
    ensures |suite.seal(key, iv, aad, data)| == |data| + TAG_SIZE
    ensures suite.open(key, iv, aad, suite.seal(key, iv, aad, data)) == Some(data)
  {
  }

  lemma SliceAfter(before: Bytes, middle: Bytes, after: Bytes)
    ensures (before + middle + after)[|before|..|before| + |middle|] == middle
  {
  }

  lemma PayloadOpens(suite: Suite, aad: Bytes, iv: Bytes, sealed: Bytes, extra: Bytes, key: Bytes, payload: Bytes)
    requires |iv| == IV_SIZE && suite.open(key, iv, aad, sealed) == Some(payload)
    ensures OpenPayload(suite, aad + iv + sealed + extra, |aad|, |sealed|, key) == Ok(payload)
  {
    var data := aad + iv + sealed + extra;
    assert data[..|aad|] == aad;
    assert data[|aad|..|aad| + IV_SIZE] == iv;
    assert data[|aad| + IV_SIZE..|aad| + IV_SIZE + |sealed|] == sealed;
  }

  /** The round trip. Whatever chunk the printer returns, a listed recipient with the matching private key gets
      back the printed header and the payload; anyone whose id is not listed gets the not-found error. */
  lemma MultiRoundTrip(writer: Writer, request: Request, reader: Reader, chunk: Bytes)
    requires writer.Valid() && PrintChunk(writer, request) == Ok(chunk)
    requires reader.suite == writer.suite && reader.idSize == writer.idSize
    requires SealOpens(writer.suite) && WrapSizes(writer.suite)
    ensures var k := Position(request.recipients, reader.recipientId);
            && (k == |request.recipients| ==> OpenChunk(reader, chunk) == Err(RecipientNotFoundInChunk))
            && (k < |request.recipients|
                && WrapOpens(writer.suite, request.recipients[k].publicKey, reader.privateKey, writer.ephemeral) ==>
                OpenChunk(reader, chunk) == Delivered(reader, Payload(writer, request), PrintedHeader(writer, request)))
  {
    hide SealOpens, RequestError, WrapAll, TotalSize, OpenChunk, Printable, WrapSizes, Aad, Payload, PrintedHeader;
    var wrapped := WrapAll(writer, request.symmetricKey, request.recipients, 0).value;
    var k := Position(request.recipients, reader.recipientId);
    WrappedArePrintable(writer, request.symmetricKey, request.recipients, wrapped);
    OpensPrinted(writer, request, wrapped, reader, ZeroBytes(writer.ivSize - IV_SIZE));
    if k < |request.recipients| {
      WrapAllEach(writer, request.symmetricKey, request.recipients, 0, k);
    }
  }

  /** What a listed recipient is given: the data, when a signature is neither made nor checked, or made with one
      key and checked with the other; the data behind its signature, when it is made but not checked. */
  lemma DeliveredData(writer: Writer, request: Request, reader: Reader)
    requires reader.suite == writer.suite && request.chunkIndex >= 0
    requires request.senderPrivateKey.Some? && reader.senderPublicKey.Some? ==>
      SignatureVerifies(writer.suite, request.senderPrivateKey.value, reader.senderPublicKey.value)
    ensures var h := PrintedHeader(writer, request);
            var delivered := Delivered(reader, Payload(writer, request), h);
            && (request.senderPrivateKey.Some? == reader.senderPublicKey.Some? ==> delivered == Ok((request.data, h)))
            && (request.senderPrivateKey.Some? && reader.senderPublicKey.None? ==>
                delivered == Ok((writer.suite.sign(request.senderPrivateKey.value, request.data) + request.data, h)))
  {
    hide PrintedHeader;
    if request.senderPrivateKey.Some? && reader.senderPublicKey.Some? {
      var signature := writer.suite.sign(request.senderPrivateKey.value, request.data);
      assert |signature| == SIGNATURE_SIZE;
      assert (signature + request.data)[..SIGNATURE_SIZE] == signature;
      assert (signature + request.data)[SIGNATURE_SIZE..] == request.data;
    }
  }

  /** On arbitrary bytes, a chunk that opens has room for everything it declares: the scan ends inside it and the
      payload fits behind. */
  lemma OpenedChunkIsComplete(reader: Reader, data: Bytes)
    requires OpenChunk(reader, data).Ok?
    ensures var h := OpenChunk(reader, data).value.1;
            var scanned := Scan(reader, data, HEADER_SIZE, h.recipientCount, data[21..54], None);
            && scanned.Ok? && scanned.value.0.Some?
            && HEADER_SIZE + h.recipientCount * (reader.idSize + KEY_SIZE_BYTES + 1) <= scanned.value.1
            && scanned.value.1 + IV_SIZE + h.encryptedSize <= |data|
  {
    hide Scan, CheckSender;
    var h := OpenChunk(reader, data).value.1;
    ScanAdvances(reader, data, HEADER_SIZE, h.recipientCount, data[21..54], None);
  }

  lemma {:induction false} ScanAdvances(reader: Reader, data: Bytes, offset: nat, count: nat, ephemeralKey: Bytes,
                                        found: Option<Bytes>)
    requires Scan(reader, data, offset, count, ephemeralKey, found).Ok?
    ensures offset + count * (reader.idSize + KEY_SIZE_BYTES + 1)
         <= Scan(reader, data, offset, count, ephemeralKey, found).value.1
    decreases count
  {
    if count > 0 {
      var record := ReadRecord(data, offset, reader.idSize);
      hide ReadRecord;
      OneRecordMore(count, reader.idSize + KEY_SIZE_BYTES + 1);
      ScanStep(reader, data, offset, count, ephemeralKey, found, record.value);
      var key := reader.suite.unwrap(reader.privateKey, record.value.wrapped, ephemeralKey, record.value.id);
      ScanAdvances(reader, data, record.value.next, count - 1, ephemeralKey,
                   if record.value.id == reader.recipientId then key else found);
      hide Scan;
    }
  }

  lemma OneRecordMore(count: nat, size: nat)
    requires count > 0
    ensures count * size == (count - 1) * size + size
  {
  }

  /** On arbitrary bytes the fixed header parses exactly when its fields are the printed ones, the count is not
      zero, and the declared ciphertext fits. */
  lemma HeaderParsesIff(data: Bytes, h: Header)
    ensures ParseHeader(data) == Ok(h) <==>
      && |data| >= HEADER_SIZE && h.magic == MAGIC && h.version == VERSION && h.recipientCount > 0
      && HoldsField(data, 0, 4, h.magic) && HoldsField(data, 4, 2, h.version)
      && HoldsField(data, 6, 2, h.recipientCount) && HoldsField(data, 8, 4, h.chunkIndex)
      && HoldsField(data, 12, 4, h.originalSize) && HoldsField(data, 16, 4, h.encryptedSize)
      && HoldsField(data, 20, 1, h.flags) && |data| >= HEADER_SIZE + IV_SIZE + h.encryptedSize
  {
    if |data| >= HEADER_SIZE {
      CountFits(data);
      hide GetUint, HoldsField;
      FieldIff(data, 0, 4, h.magic);
      FieldIff(data, 4, 2, h.version);
      FieldIff(data, 6, 2, h.recipientCount);
      FieldIff(data, 8, 4, h.chunkIndex);
      FieldIff(data, 12, 4, h.originalSize);
      FieldIff(data, 16, 4, h.encryptedSize);
      FieldIff(data, 20, 1, h.flags);
    }
  }

  /** A 16-bit count never exceeds the maximum. */
  lemma CountFits(data: Bytes)
    requires |data| >= HEADER_SIZE
    ensures GetUint(data, 6, 2) <= MAX_RECIPIENTS
  {
    BigEndianBound(data[6..8]);
    Ranges();
  }

  /** A record is read at an offset exactly when it is printed there with an accepted key size. */
  lemma RecordIff(data: Bytes, offset: nat, idSize: nat, p: Parsed)
    ensures ReadRecord(data, offset, idSize) == Ok(p) <==>
      && |p.id| == idSize && 0 < |p.wrapped| <= MAX_KEY_SIZE
      && p.next == offset + |Record(p.id, p.wrapped)| <= |data|
      && data[offset..p.next] == Record(p.id, p.wrapped)
  {
    hide *;
    if ReadRecord(data, offset, idSize) == Ok(p) {
      ReadIsPrinted(data, offset, idSize, p);
    }
    if |p.id| == idSize && 0 < |p.wrapped| <= MAX_KEY_SIZE && p.next == offset + |Record(p.id, p.wrapped)| <= |data|
       && data[offset..p.next] == Record(p.id, p.wrapped) {
      RecordReadsBack(data, offset, p.id, p.wrapped);
    }
  }

  lemma ReadIsPrinted(data: Bytes, offset: nat, idSize: nat, p: Parsed)
    requires ReadRecord(data, offset, idSize) == Ok(p)
    ensures |p.id| == idSize && 0 < |p.wrapped| <= MAX_KEY_SIZE
    ensures p.next == offset + |Record(p.id, p.wrapped)| <= |data|
    ensures data[offset..p.next] == Record(p.id, p.wrapped)
  {
    hide ToBigEndian, BigEndian, ByteRange;
    var size := data[offset + idSize..offset + idSize + KEY_SIZE_BYTES];
    WriteBackField(size);
    assert data[offset..p.next] == p.id + size + p.wrapped;
  }

  /** Key and end of the records come from the scan, the payload from decryption under all the bytes in front of it,
      and the plaintext from the payload, signed by the expected sender if there is one. */
  ghost predicate Authentic(reader: Reader, data: Bytes, h: Header, plain: Bytes, key: Bytes, offset: nat,
                            payload: Bytes)
  {
    && |data| >= HEADER_SIZE
    && Scan(reader, data, HEADER_SIZE, h.recipientCount, data[21..54], None) == Ok((Some(key), offset))
    && offset + IV_SIZE + h.encryptedSize <= |data|
    && reader.suite.open(key, data[offset..offset + IV_SIZE], data[..offset],
                         data[offset + IV_SIZE..offset + IV_SIZE + h.encryptedSize]) == Some(payload)
    && (match reader.senderPublicKey
        case None => plain == payload
        case Some(sender) =>
          && |payload| >= SIGNATURE_SIZE && plain == payload[SIGNATURE_SIZE..]
          && reader.suite.verify(sender, plain, payload[..SIGNATURE_SIZE]))
  }

  /** What a reader is given is authentic. */
  lemma OpenedIsAuthentic(reader: Reader, data: Bytes, plain: Bytes, h: Header)
    requires OpenChunk(reader, data) == Ok((plain, h))
    ensures exists key, offset, payload :: Authentic(reader, data, h, plain, key, offset, payload)
  {
    hide Scan, ParseHeader;
    var scanned := Scan(reader, data, HEADER_SIZE, h.recipientCount, data[21..54], None);
    var key, offset := scanned.value.0.value, scanned.value.1;
    var payload := OpenPayload(reader.suite, data, offset, h.encryptedSize, key).value;
    assert scanned == Ok((Some(key), offset));
    assert Authentic(reader, data, h, plain, key, offset, payload);
  }

  // ---------- The bytes themselves ----------

  /** A record is the id, the size of the wrapped key in two bytes, and the wrapped key. */
  lemma RecordLayout(id: Bytes, wrapped: Bytes)
    requires |wrapped| < 0x1_0000
    ensures Record(id, wrapped) == id + [|wrapped| / 256, |wrapped| % 256] + wrapped
  {
    TwoBytes(|wrapped|);
  }

  lemma MagicBytes()
    ensures ToBigEndian(MAGIC, 4) == [0x4d, 0x52, 0x45, 0x43] && ToBigEndian(VERSION, 2) == [0, 2]
  {
    TwoBytes(VERSION);
    FourBytes(MAGIC);
  }

  lemma HeaderLayout(h: Header, ephemeralKey: Bytes, rest: Bytes)
    requires |ephemeralKey| == EPHEMERAL_SIZE
    ensures var data := FixedHeader(h, ephemeralKey) + rest;
            && data[0..4] == ToBigEndian(h.magic, 4) && data[4..6] == ToBigEndian(h.version, 2)
            && data[6..8] == ToBigEndian(h.recipientCount, 2) && data[8..12] == ToBigEndian(h.chunkIndex, 4)
            && data[12..16] == ToBigEndian(h.originalSize, 4) && data[16..20] == ToBigEndian(h.encryptedSize, 4)
            && data[20..21] == ToBigEndian(h.flags, 1) && data[21..54] == ephemeralKey && data[54..64] == ZeroBytes(10)
  {
    hide ToBigEndian, ZeroBytes;
    var f0, f1, f2 := ToBigEndian(h.magic, 4), ToBigEndian(h.version, 2), ToBigEndian(h.recipientCount, 2);
    var f3, f4 := ToBigEndian(h.chunkIndex, 4), ToBigEndian(h.originalSize, 4);
    var f5, f6 := ToBigEndian(h.encryptedSize, 4), ToBigEndian(h.flags, 1);
    EightFields(f0, f1, f2, f3, f4, f5, f6, ephemeralKey, ZeroBytes(10) + rest);
    assert FixedHeader(h, ephemeralKey) + rest
        == f0 + f1 + f2 + f3 + f4 + f5 + f6 + ephemeralKey + (ZeroBytes(10) + rest);
  }

  /** The length of what is encrypted: the data, behind its signature if it is signed. */
  function PayloadLength(writer: Writer, request: Request): nat {
    |request.data|
    + if request.senderPrivateKey.Some? then |writer.suite.sign(request.senderPrivateKey.value, request.data)| else 0
  }

  /** The fixed part of every printed chunk, byte by byte. */
  lemma PrintedBytes(writer: Writer, request: Request, chunk: Bytes)
    requires writer.Valid() && PrintChunk(writer, request) == Ok(chunk)
    ensures request.chunkIndex >= 0 && |chunk| >= 64
    ensures chunk[0..4] == [0x4d, 0x52, 0x45, 0x43] && chunk[4..6] == [0, 2]
    ensures chunk[6..8] == ToBigEndian(|request.recipients|, 2) && chunk[8..12] == ToBigEndian(request.chunkIndex, 4)
    ensures chunk[12..16] == ToBigEndian(PayloadLength(writer, request), 4)
    ensures chunk[16..20] == ToBigEndian(PayloadLength(writer, request) + 16, 4)
    ensures chunk[20] == if request.isLast then 1 else 0
    ensures chunk[21..54] == writer.ephemeral.publicKey && forall i :: 54 <= i < 64 ==> chunk[i] == 0
  {
    hide WrapAll, TotalSize, Records, FixedHeader;
    var wrapped := WrapAll(writer, request.symmetricKey, request.recipients, 0).value;
    var h := PrintedHeader(writer, request);
    var fixed := FixedHeader(h, writer.ephemeral.publicKey);
    var rest := chunk[64..];
    assert chunk == fixed + rest;
    HeaderLayout(h, writer.ephemeral.publicKey, rest);
    MagicBytes();
    SingleByte(h.flags);
    hide ToBigEndian, PrintChunk;
    assert chunk[20..21][0] == h.flags;
    forall i | 54 <= i < 64
      ensures chunk[i] == 0
    {
      assert chunk[54..64][i - 54] == 0;
    }
  }

  /** What a listed recipient with the matching keys holds in the end: the data, and a header with the printed count of
      recipients, chunk index, sizes and flag. */
  lemma ReceivedChunk(writer: Writer, request: Request, reader: Reader, chunk: Bytes)
    requires writer.Valid() && PrintChunk(writer, request) == Ok(chunk)
    requires reader.suite == writer.suite && reader.idSize == writer.idSize
    requires SealOpens(writer.suite) && WrapSizes(writer.suite)
    requires var k := Position(request.recipients, reader.recipientId);
             && k < |request.recipients|
             && WrapOpens(writer.suite, request.recipients[k].publicKey, reader.privateKey, writer.ephemeral)
    requires request.senderPrivateKey.Some? == reader.senderPublicKey.Some?
    requires request.senderPrivateKey.Some? ==>
      SignatureVerifies(writer.suite, request.senderPrivateKey.value, reader.senderPublicKey.value)
    ensures var size := |request.data| + if request.senderPrivateKey.Some? then 64 else 0;
            request.chunkIndex >= 0 &&
            OpenChunk(reader, chunk) ==
            Ok((request.data, Header(0x4d524543, 2, |request.recipients|, request.chunkIndex, size, size + 16,
                                     if request.isLast then 1 else 0)))
  {
    hide SealOpens, WrapSizes, WrapOpens, OpenChunk, Position, WrapAll, TotalSize, Delivered, Aad;
    MultiRoundTrip(writer, request, reader, chunk);
    DeliveredData(writer, request, reader);
  }

  // ---------- Which error ----------

  /** The printer's checks, in their order, with their limits. */
  lemma PrintErrors(writer: Writer, request: Request)
    requires writer.Valid()
    ensures var count, index := |request.recipients|, request.chunkIndex;
            var r := PrintChunk(writer, request);
            var countOk, keyOk := 1 <= count <= 65535, |request.symmetricKey| == 32;
            var indexOk, sizeOk := 0 <= index <= 4294967295, PayloadLength(writer, request) <= 2147483647;
            && (r == Err(InvalidRecipientCount) <==> !countOk)
            && (r == Err(SymmetricKeyMust32Bytes) <==> countOk && !keyOk)
            && (r == Err(InvalidChunkIndex) <==> countOk && keyOk && !indexOk)
            && (r == Err(DataSizeExceedsMaximum) <==> countOk && keyOk && indexOk && !sizeOk)
            && (r == Err(DuplicateRecipientId) <==>
                countOk && keyOk && indexOk && sizeOk && !Distinct(request.recipients))
  {
    WrapErrors(writer, request.symmetricKey, request.recipients, 0);
    hide WrapAll, TotalSize, Distinct, Aad;
  }

  /** Wrapping fails only for an id of the wrong size or a key that cannot be wrapped. */
  lemma {:induction false} WrapErrors(writer: Writer, key: Bytes, recipients: seq<Recipient>, k: nat)
    ensures var r := WrapAll(writer, key, recipients, k);
            r.Err? ==> r.error == InvalidRecipientIdSize || r.error == KeyEncryptionFailed
    decreases |recipients|
  {
    if recipients != [] {
      WrapErrors(writer, key, recipients[1..], k + 1);
    }
  }

  /** The parser's checks of the header, in their order. */
  lemma HeaderErrors(data: Bytes)
    ensures ParseHeader(data) == Err(ChunkTooSmall) <==> |data| < 64
    ensures ParseHeader(data) == Err(InvalidChunkMagic) <==> |data| >= 64 && data[0..4] != [0x4d, 0x52, 0x45, 0x43]
    ensures ParseHeader(data) == Err(UnsupportedVersion) <==>
      |data| >= 64 && data[0..4] == [0x4d, 0x52, 0x45, 0x43] && data[4..6] != [0, 2]
    ensures ParseHeader(data) == Err(InvalidRecipientCount) <==>
      |data| >= 64 && data[0..4] == [0x4d, 0x52, 0x45, 0x43] && data[4..6] == [0, 2] && data[6] == data[7] == 0
    ensures ParseHeader(data) == Err(ChunkTooSmallForEncryptedSize) <==>
      && |data| >= 64 && data[0..4] == [0x4d, 0x52, 0x45, 0x43] && data[4..6] == [0, 2]
      && !(data[6] == data[7] == 0) && |data| < 64 + 12 + BigEndian(data[16..20])
  {
    if |data| >= 64 {
      assert GetUint(data, 16, 4) == BigEndian(data[16..20]);
      CountFits(data);
      MagicBytes();
      hide GetUint;
      FieldIs(data, 0, 4, MAGIC);
      FieldIs(data, 4, 2, VERSION);
      ZeroCount(data);
    }
  }

  lemma ZeroCount(data: Bytes)
    requires |data| >= 64
    ensures GetUint(data, 6, 2) == 0 <==> data[6] == data[7] == 0
  {
    PairValue(data, 6);
  }

  /** The parser's checks of a record, in their order: there must be an id, two bytes with the size of the key, which is
      neither 0 nor above 1000, and the key. */
  lemma RecordErrors(data: Bytes, offset: nat, idSize: nat)
    ensures var r := ReadRecord(data, offset, idSize);
            var start := offset + idSize + 2;
            && (r == Err(ChunkTruncatedRecipientId) <==> offset + idSize > |data|)
            && (r == Err(ChunkTruncatedKeySize) <==> offset + idSize <= |data| < start)
            && (start <= |data| ==>
                var size := data[start - 2] as int * 256 + data[start - 1] as int;
                && (r == Err(InvalidKeySize) <==> size == 0 || size > 1000)
                && (r == Err(ChunkTruncatedEncryptedKey) <==> 0 < size <= 1000 && start + size > |data|)
                && (0 < size <= 1000 && start + size <= |data| ==>
                    r == Ok(Parsed(data[offset..offset + idSize], data[start..start + size], start + size))))
  {
    if offset + idSize + 2 <= |data| {
      PairValue(data, offset + idSize);
    }
    hide GetUint;
  }

  /** What is left of a decrypted payload. Without an expected sender it is delivered as it is; with one, fewer than 64
      bytes are too short, and otherwise the first 64 must be the sender's signature of the rest. */
  lemma SenderErrors(reader: Reader, plain: Bytes)
    ensures reader.senderPublicKey.None? ==> CheckSender(reader, plain) == Ok(plain)
    ensures CheckSender(reader, plain) == Err(TooShortForSignature) <==> reader.senderPublicKey.Some? && |plain| < 64
    ensures reader.senderPublicKey.Some? && |plain| >= 64 ==>
      CheckSender(reader, plain)
      == if reader.suite.verify(reader.senderPublicKey.value, plain[64..], plain[..64]) then Ok(plain[64..])
         else Err(InvalidSignature)
  {
  }
}
