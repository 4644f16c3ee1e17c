/** The frame of one streamed chunk: a 32-byte header, the ciphertext, and an optional SHA-256 of the
    plaintext. */
module ChunkFormat {
  import opened BitOperations
  import opened ByteStrings
  import opened DataViews
  import opened Hashing
  import NumberTheory
  import opened Results

  const MAGIC: nat := 0x45434945
  const VERSION: nat := 1
  const HEADER_SIZE: nat := 32
  const CHECKSUM_SIZE: nat := 32
  const U32: nat := 0x1_0000_0000

  datatype Header = Header(
    magic: nat, version: nat, index: nat, originalSize: nat, encryptedSize: nat, flags: nat)
  {
    /** flags & FLAG_IS_LAST */
    predicate IsLast() {
      flags % 2 == 1
    }

    /** flags & FLAG_HAS_CHECKSUM */
    predicate HasChecksum() {
      flags / 2 % 2 == 1
    }
  }

  datatype StreamError =
    | DataTooShortForHeader
    | InvalidMagicBytes
    | UnsupportedVersion
    | EncryptedSizeMismatch
    | DecryptionFailed
    | ChecksumMismatch
    | DecryptedSizeMismatch
    | EncryptionFailed
    | BufferOverflow
    | InvalidPublicKeyLength
    | InvalidPrivateKeyLength
    | ChunkSequenceError(expected: nat, actual: nat)

  /** The cipher as two arbitrary functions that may fail: seal(publicKey, salt, data) stands for
      encryptWithLength with its fresh randomness, open(privateKey, data) for decryptWithLengthAndHeader. */
  datatype Cipher = Cipher(seal: (Bytes, Bytes, Bytes) -> Option<Bytes>, open: (Bytes, Bytes) -> Option<Bytes>)

  /** Whatever was sealed for the public key opens under the private key. */
  ghost predicate KeyPair(cipher: Cipher, publicKey: Bytes, privateKey: Bytes) {
    forall salt: Bytes, data: Bytes ::
      var sealed := cipher.seal(publicKey, salt, data);
      sealed.Some? ==> cipher.open(privateKey, sealed.value) == Some(data)
  }

  // ---------- Header ----------

  function HeaderBytes(h: Header): (bs: Bytes)
    ensures |bs| == HEADER_SIZE
  {
    ToBigEndian(h.magic, 4) + ToBigEndian(h.version, 2) + ToBigEndian(h.index, 4)
    + ToBigEndian(h.originalSize, 4) + ToBigEndian(h.encryptedSize, 4) + ToBigEndian(h.flags, 2) + ZeroBytes(12)
  }

  method BuildChunkHeader(h: Header) returns (buffer: array<Byte>)
    ensures buffer[..] == HeaderBytes(h)
  {
    buffer := new Byte[HEADER_SIZE](_ => 0);
    assert Filled(buffer, []);
    hide ToBigEndian, Filled;
    ghost var w: Bytes := [];
    PutUint(buffer, 0, 4, h.magic, w);
    w := w + ToBigEndian(h.magic, 4);
    PutUint(buffer, 4, 2, h.version, w);
    w := w + ToBigEndian(h.version, 2);
    PutUint(buffer, 6, 4, h.index, w);
    w := w + ToBigEndian(h.index, 4);
    PutUint(buffer, 10, 4, h.originalSize, w);
    w := w + ToBigEndian(h.originalSize, 4);
    PutUint(buffer, 14, 4, h.encryptedSize, w);
    w := w + ToBigEndian(h.encryptedSize, 4);
    PutUint(buffer, 18, 2, h.flags, w);
    w := w + ToBigEndian(h.flags, 2);
    HeaderIsFilled(buffer, h, w);
  }

  lemma HeaderIsFilled(buffer: array<Byte>, h: Header, w: Bytes)
    requires buffer.Length == HEADER_SIZE && Filled(buffer, w)
    requires w == [] + ToBigEndian(h.magic, 4) + ToBigEndian(h.version, 2) + ToBigEndian(h.index, 4)
                  + ToBigEndian(h.originalSize, 4) + ToBigEndian(h.encryptedSize, 4) + ToBigEndian(h.flags, 2)
    ensures buffer[..] == HeaderBytes(h)
  {
    hide ToBigEndian;
    assert [] + ToBigEndian(h.magic, 4) == ToBigEndian(h.magic, 4);
  }

  function ParseChunkHeader(data: Bytes): (r: Result<Header, StreamError>)
    ensures r.Ok? ==> |data| >= HEADER_SIZE
  {
    if |data| < HEADER_SIZE then Err(DataTooShortForHeader)
    else
      var magic := GetUint(data, 0, 4);
      var version := GetUint(data, 4, 2);
      if magic != MAGIC then Err(InvalidMagicBytes)
      else if version != VERSION then Err(UnsupportedVersion)
      else Ok(Header(magic, version, GetUint(data, 6, 4), GetUint(data, 10, 4), GetUint(data, 14, 4),
                     GetUint(data, 18, 2)))
  }

  lemma SixFields(f0: Bytes, f1: Bytes, f2: Bytes, f3: Bytes, f4: Bytes, f5: Bytes, tail: Bytes)
    requires |f0| == |f2| == |f3| == |f4| == 4 && |f1| == |f5| == 2
    ensures var data := f0 + f1 + f2 + f3 + f4 + f5 + tail;
            && data[0..4] == f0 && data[4..6] == f1 && data[6..10] == f2
            && data[10..14] == f3 && data[14..18] == f4 && data[18..20] == f5
  {
  }

  /** A built header parses back to its fields modulo 2^32. */
  lemma HeaderReadsBack(h: Header, rest: Bytes)
    requires h.magic == MAGIC && h.version == VERSION && h.flags < 4
    ensures ParseChunkHeader(HeaderBytes(h) + rest)
         == Ok(h.(index := h.index % U32, originalSize := h.originalSize % U32,
                  encryptedSize := h.encryptedSize % U32))
  {
    hide ToBigEndian, BigEndian, ZeroBytes;
    var f0, f1, f2 := ToBigEndian(h.magic, 4), ToBigEndian(h.version, 2), ToBigEndian(h.index, 4);
    var f3, f4, f5 := ToBigEndian(h.originalSize, 4), ToBigEndian(h.encryptedSize, 4), ToBigEndian(h.flags, 2);
    var data := HeaderBytes(h) + rest;
    SixFields(f0, f1, f2, f3, f4, f5, ZeroBytes(12) + rest);
    assert data == f0 + f1 + f2 + f3 + f4 + f5 + (ZeroBytes(12) + rest);
    Ranges();
    hide ByteRange, HeaderBytes;
    FieldReadsBack(data, 0, 4, h.magic);
    FieldReadsBack(data, 4, 2, h.version);
    FieldReadsBack(data, 6, 4, h.index);
    FieldReadsBack(data, 10, 4, h.originalSize);
    FieldReadsBack(data, 14, 4, h.encryptedSize);
    FieldReadsBack(data, 18, 2, h.flags);
  }

  // ---------- Frames ----------

  function Flags(isLast: bool, includeChecksum: bool): (flags: nat)
    ensures flags < 4
  {
    (if isLast then 1 else 0) + (if includeChecksum then 2 else 0)
  }

  function FrameHeader(data: Bytes, sealed: Bytes, index: nat, isLast: bool, includeChecksum: bool): Header {
    Header(MAGIC, VERSION, index, |data|, |sealed|, Flags(isLast, includeChecksum))
  }

  function FrameBytes(data: Bytes, sealed: Bytes, index: nat, isLast: bool, checksum: Option<Bytes>): Bytes {
    HeaderBytes(FrameHeader(data, sealed, index, isLast, checksum.Some?)) + sealed
    + (if checksum.Some? then checksum.value else [])
  }

  datatype Frame = Frame(header: Header, encrypted: Bytes, checksum: Bytes)

  /** Cuts a received frame at the places its flags imply. */
  function ParseFrame(bytes: Bytes): Result<Frame, StreamError> {
    var parsed := ParseChunkHeader(bytes);
    if parsed.Err? then Err(parsed.error)
    else
      var header := parsed.value;
      var end := if header.HasChecksum() then |bytes| - CHECKSUM_SIZE else |bytes|;
      var encrypted := Slice(bytes, HEADER_SIZE, end);
      if |encrypted| != header.encryptedSize then Err(EncryptedSizeMismatch)
      else Ok(Frame(header, encrypted, bytes[|bytes| - CHECKSUM_SIZE..]))
  }

  /** What the receiver makes of one frame. */
  function OpenChunk(cipher: Cipher, sha: Sha256, privateKey: Bytes, bytes: Bytes)
    : (r: Result<(Bytes, Header), StreamError>)
  {
    var parsed := ParseFrame(bytes);
    if parsed.Err? then Err(parsed.error)
    else
      var frame := parsed.value;
      var plain := cipher.open(privateKey, frame.encrypted);
      if plain.None? then Err(DecryptionFailed)
      else if frame.header.HasChecksum() && frame.checksum != sha(plain.value) then Err(ChecksumMismatch)
      else if |plain.value| != frame.header.originalSize then Err(DecryptedSizeMismatch)
      else Ok((plain.value, frame.header))
  }

  method DecryptChunk(cipher: Cipher, sha: Sha256, privateKey: Bytes, bytes: Bytes)
    returns (r: Result<(Bytes, Header), StreamError>)
    ensures r == OpenChunk(cipher, sha, privateKey, bytes)
  {
    var frame :- ParseFrame(bytes);
    var plain := cipher.open(privateKey, frame.encrypted);
    if plain.None? { return Err(DecryptionFailed); }
    if frame.header.HasChecksum() {
      ChecksumIsWhole(bytes);
      var differs := Differs(frame.checksum, sha(plain.value));
      if differs { return Err(ChecksumMismatch); }
    }
    if |plain.value| != frame.header.originalSize { return Err(DecryptedSizeMismatch); }
    return Ok((plain.value, frame.header));
  }

  lemma ChecksumIsWhole(bytes: Bytes)
    ensures ParseFrame(bytes).Ok? ==> |ParseFrame(bytes).value.checksum| == CHECKSUM_SIZE
  {
  }

  lemma FrameReadsBack(data: Bytes, sealed: Bytes, index: nat, isLast: bool, checksum: Option<Bytes>)
    requires checksum.Some? ==> |checksum.value| == CHECKSUM_SIZE
    ensures var header := FrameHeader(data, sealed, index % U32, isLast, checksum.Some?);
            var parsed := ParseFrame(FrameBytes(data, sealed, index, isLast, checksum));
            && (parsed.Ok? <==> |sealed| < U32)
            && (parsed.Ok? ==> parsed.value.header == header.(originalSize := |data| % U32))
            && (parsed.Ok? ==> parsed.value.encrypted == sealed && parsed.value.header.HasChecksum() == checksum.Some?)
            && (parsed.Ok? && checksum.Some? ==> parsed.value.checksum == checksum.value)
  {
    hide HeaderBytes, ParseChunkHeader, Slice;
    var header := FrameHeader(data, sealed, index, isLast, checksum.Some?);
    var tail := if checksum.Some? then checksum.value else [];
    assert FrameBytes(data, sealed, index, isLast, checksum) == HeaderBytes(header) + (sealed + tail);
    HeaderReadsBack(header, sealed + tail);
    FrameSlices(HeaderBytes(header), sealed, tail);
    assert header.HasChecksum() == checksum.Some?;
    hide FrameBytes;
  }

  /** A frame opens to the data it was built from exactly when both sizes fit their 32-bit fields; the index
      comes back modulo 2^32. */
  lemma ChunkRoundTrip(cipher: Cipher, sha: Sha256, publicKey: Bytes, privateKey: Bytes, salt: Bytes,
                       data: Bytes, sealed: Bytes, index: nat, isLast: bool, includeChecksum: bool)
    requires KeyPair(cipher, publicKey, privateKey) && cipher.seal(publicKey, salt, data) == Some(sealed)
    ensures var frame := FrameBytes(data, sealed, index, isLast, if includeChecksum then Some(sha(data)) else None);
            var header := FrameHeader(data, sealed, index % U32, isLast, includeChecksum);
            var result := OpenChunk(cipher, sha, privateKey, frame);
            if |data| < U32 && |sealed| < U32 then result == Ok((data, header)) else result.Err?
  {
    hide ParseFrame, FrameBytes, Header.HasChecksum, Flags;
    FrameReadsBack(data, sealed, index, isLast, if includeChecksum then Some(sha(data)) else None);
    assert cipher.open(privateKey, sealed) == Some(data);
  }

  lemma FrameSlices(header: Bytes, sealed: Bytes, checksum: Bytes)
    requires |header| == HEADER_SIZE
    ensures var frame := header + (sealed + checksum);
            && Slice(frame, HEADER_SIZE, |frame| - |checksum|) == sealed
            && frame[|frame| - |checksum|..] == checksum
  {
  }

  /** The ciphertext that a frame's length and flags leave room for, when its size is the declared one. The last
      32 bytes may overlap the header if a checksum is announced and nothing is encrypted. */
  predicate SizesMatch(bytes: Bytes, h: Header) {
    if !h.HasChecksum() then |bytes| == HEADER_SIZE + h.encryptedSize
    else if h.encryptedSize > 0 then |bytes| == HEADER_SIZE + h.encryptedSize + CHECKSUM_SIZE
    else HEADER_SIZE <= |bytes| <= HEADER_SIZE + CHECKSUM_SIZE
  }

  /** On arbitrary bytes, a frame opens exactly when its header parses, its size is the declared one, its
      ciphertext opens to data of the declared size, and the announced checksum is the data's. */
  lemma OpensIff(cipher: Cipher, sha: Sha256, privateKey: Bytes, bytes: Bytes, data: Bytes, h: Header)
    ensures OpenChunk(cipher, sha, privateKey, bytes) == Ok((data, h)) <==>
      && ParseChunkHeader(bytes) == Ok(h) && SizesMatch(bytes, h)
      && cipher.open(privateKey, bytes[HEADER_SIZE..HEADER_SIZE + h.encryptedSize]) == Some(data)
      && (h.HasChecksum() ==> bytes[|bytes| - CHECKSUM_SIZE..] == sha(data))
      && |data| == h.originalSize
  {
    hide ParseChunkHeader, Header.HasChecksum;
    if ParseChunkHeader(bytes) == Ok(h) {
      CutIff(bytes, h);
      hide SizesMatch;
    }
  }

  lemma CutIff(bytes: Bytes, h: Header)
    requires ParseChunkHeader(bytes) == Ok(h)
    ensures SizesMatch(bytes, h) ==> HEADER_SIZE + h.encryptedSize <= |bytes|
    ensures ParseFrame(bytes) ==
      if SizesMatch(bytes, h)
      then Ok(Frame(h, bytes[HEADER_SIZE..HEADER_SIZE + h.encryptedSize], bytes[|bytes| - CHECKSUM_SIZE..]))
      else Err(EncryptedSizeMismatch)
  {
    hide ParseChunkHeader, Header.HasChecksum;
    var end := if h.HasChecksum() then |bytes| - CHECKSUM_SIZE else |bytes|;
    assert |bytes| >= HEADER_SIZE;
    assert |Slice(bytes, HEADER_SIZE, end)| == if end > HEADER_SIZE then end - HEADER_SIZE else 0;
    if SizesMatch(bytes, h) {
      assert Slice(bytes, HEADER_SIZE, end) == bytes[HEADER_SIZE..HEADER_SIZE + h.encryptedSize];
    }
  }

  /** On arbitrary bytes a header parses exactly when its six fields are the printed ones, magic and version are
      right and nothing is missing. */
  lemma HeaderParsesIff(data: Bytes, h: Header)
    ensures ParseChunkHeader(data) == Ok(h) <==>
      && |data| >= HEADER_SIZE && h.magic == MAGIC && h.version == VERSION
      && HoldsField(data, 0, 4, h.magic) && HoldsField(data, 4, 2, h.version) && HoldsField(data, 6, 4, h.index)
      && HoldsField(data, 10, 4, h.originalSize) && HoldsField(data, 14, 4, h.encryptedSize)
      && HoldsField(data, 18, 2, h.flags)
  {
    hide GetUint, HoldsField;
    if |data| >= HEADER_SIZE {
      FieldIff(data, 0, 4, h.magic);
      FieldIff(data, 4, 2, h.version);
      FieldIff(data, 6, 4, h.index);
      FieldIff(data, 10, 4, h.originalSize);
      FieldIff(data, 14, 4, h.encryptedSize);
      FieldIff(data, 18, 2, h.flags);
    }
  }

  // ---------- The bytes themselves ----------

  lemma MagicBytes()
    ensures ToBigEndian(MAGIC, 4) == [0x45, 0x43, 0x49, 0x45] && ToBigEndian(VERSION, 2) == [0, 1]
  {
    TwoBytes(VERSION);
    FourBytes(MAGIC);
  }

  /** A frame, byte by byte: magic, version, index, both sizes, the flags 1 for the last chunk and 2 for a checksum,
      twelve zeros, the ciphertext, the checksum. */
  lemma FrameLayout(data: Bytes, sealed: Bytes, index: nat, isLast: bool, checksum: Option<Bytes>)
    ensures var frame := FrameBytes(data, sealed, index, isLast, checksum);
            && |frame| == 32 + |sealed| + (if checksum.Some? then |checksum.value| else 0)
            && frame[0..4] == [0x45, 0x43, 0x49, 0x45] && frame[4..6] == [0, 1]
            && frame[6..10] == ToBigEndian(index, 4)
            && frame[10..14] == ToBigEndian(|data|, 4) && frame[14..18] == ToBigEndian(|sealed|, 4)
            && frame[18..20] == [0, (if isLast then 1 else 0) + (if checksum.Some? then 2 else 0)]
            && frame[20..32] == ZeroBytes(12) && frame[32..32 + |sealed|] == sealed
            && frame[32 + |sealed|..] == if checksum.Some? then checksum.value else []
  {
    var h := FrameHeader(data, sealed, index, isLast, checksum.Some?);
    var tail := if checksum.Some? then checksum.value else [];
    hide *;
    FrameParts(data, sealed, index, isLast, checksum);
    MagicBytes();
    FlagBytes(isLast, checksum.Some?);
    HeaderLayout(h, sealed + tail);
    Behind(HeaderBytes(h), sealed, tail);
  }

  lemma FrameParts(data: Bytes, sealed: Bytes, index: nat, isLast: bool, checksum: Option<Bytes>)
    ensures var h := FrameHeader(data, sealed, index, isLast, checksum.Some?);
            && FrameBytes(data, sealed, index, isLast, checksum)
               == HeaderBytes(h) + (sealed + if checksum.Some? then checksum.value else [])
            && h == Header(MAGIC, VERSION, index, |data|, |sealed|, Flags(isLast, checksum.Some?))
  {
    hide HeaderBytes, Flags;
  }

  lemma FlagBytes(isLast: bool, includeChecksum: bool)
    ensures ToBigEndian(Flags(isLast, includeChecksum), 2)
         == [0, (if isLast then 1 else 0) + (if includeChecksum then 2 else 0)]
  {
    TwoBytes(Flags(isLast, includeChecksum));
  }

  lemma Behind(header: Bytes, sealed: Bytes, tail: Bytes)
    requires |header| == 32
    ensures var frame := header + (sealed + tail);
            frame[32..32 + |sealed|] == sealed && frame[32 + |sealed|..] == tail
  {
  }

  lemma HeaderLayout(h: Header, rest: Bytes)
    ensures var data := HeaderBytes(h) + rest;
            && data[0..4] == ToBigEndian(h.magic, 4) && data[4..6] == ToBigEndian(h.version, 2)
            && data[6..10] == ToBigEndian(h.index, 4) && data[10..14] == ToBigEndian(h.originalSize, 4)
            && data[14..18] == ToBigEndian(h.encryptedSize, 4) && data[18..20] == ToBigEndian(h.flags, 2)
            && data[20..32] == ZeroBytes(12)
  {
    hide ToBigEndian, ZeroBytes;
    var f0, f1, f2 := ToBigEndian(h.magic, 4), ToBigEndian(h.version, 2), ToBigEndian(h.index, 4);
    var f3, f4, f5 := ToBigEndian(h.originalSize, 4), ToBigEndian(h.encryptedSize, 4), ToBigEndian(h.flags, 2);
    SixFields(f0, f1, f2, f3, f4, f5, ZeroBytes(12) + rest);
    assert HeaderBytes(h) + rest == f0 + f1 + f2 + f3 + f4 + f5 + (ZeroBytes(12) + rest);
  }

  /** The two flags are the lowest bits of byte 19. */
  lemma FlagBits(bytes: Bytes)
    requires ParseChunkHeader(bytes).Ok?
    ensures ParseChunkHeader(bytes).value.IsLast() <==> bytes[19] % 2 == 1
    ensures ParseChunkHeader(bytes).value.HasChecksum() <==> bytes[19] / 2 % 2 == 1
  {
    var h := ParseChunkHeader(bytes).value;
    assert h.flags == GetUint(bytes, 18, 2);
    hide ParseChunkHeader, GetUint;
    PairValue(bytes, 18);
    LowBits(bytes[18], bytes[19]);
  }

  lemma LowBits(high: nat, low: nat)
    ensures (high * 256 + low) % 2 == low % 2 && (high * 256 + low) / 2 % 2 == low / 2 % 2
  {
    NumberTheory.DivModUnique(high * 256 + low, high * 128 + low / 2, low % 2, 2);
    NumberTheory.DivModUnique(high * 128 + low / 2, high * 64 + low / 2 / 2, low / 2 % 2, 2);
  }

  /** The receiver's checks of a frame, in their order. */
  lemma ChunkErrors(cipher: Cipher, sha: Sha256, privateKey: Bytes, bytes: Bytes)
    ensures var r := OpenChunk(cipher, sha, privateKey, bytes);
            var long := |bytes| >= 32;
            var magic := long && bytes[0..4] == [0x45, 0x43, 0x49, 0x45];
            var version := magic && bytes[4..6] == [0, 1];
            && (r == Err(DataTooShortForHeader) <==> !long)
            && (r == Err(InvalidMagicBytes) <==> long && !magic)
            && (r == Err(UnsupportedVersion) <==> magic && !version)
            && (version <==> ParseChunkHeader(bytes).Ok?)
  {
    if |bytes| >= 32 {
      MagicBytes();
      Ranges();
      hide GetUint, ByteRange, ToBigEndian;
      FieldIs(bytes, 0, 4, MAGIC);
      FieldIs(bytes, 4, 2, VERSION);
    }
  }

  /** With a readable header: size, decryption, checksum, size of the plaintext. */
  lemma ContentErrors(cipher: Cipher, sha: Sha256, privateKey: Bytes, bytes: Bytes, h: Header)
    requires ParseChunkHeader(bytes) == Ok(h)
    ensures var r := OpenChunk(cipher, sha, privateKey, bytes);
            && (r == Err(EncryptedSizeMismatch) <==> !SizesMatch(bytes, h))
            && (SizesMatch(bytes, h) ==>
                  var plain := cipher.open(privateKey, bytes[32..32 + h.encryptedSize]);
                  && (r == Err(DecryptionFailed) <==> plain.None?)
                  && (plain.Some? ==>
                        var intact := bytes[19] / 2 % 2 == 1 ==> bytes[|bytes| - 32..] == sha(plain.value);
                        && (r == Err(ChecksumMismatch) <==> !intact)
                        && (r == Err(DecryptedSizeMismatch) <==> intact && |plain.value| != h.originalSize)))
  {
    FlagBits(bytes);
    CutIff(bytes, h);
    hide ParseChunkHeader, Header.HasChecksum, SizesMatch, ParseFrame;
  }
}
