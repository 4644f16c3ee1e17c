/** The two ECIES transform streams: plaintext buffered and encrypted in blocks that fit, ciphertext buffered
    and decrypted in blocks of the block size. */
module EciesTransforms {
  import opened ByteStrings
  import opened ChunkFormat
  import opened Results
  import opened Sequences

  /** version, cipher suite, type, public key, initialisation vector, authentication tag */
  const BASIC_OVERHEAD: nat := 1 + 1 + 1 + 33 + 12 + 16

  /** AES-GCM keeps the length; the header in front of it is fixed. */
  ghost predicate FixedOverhead(cipher: Cipher) {
    forall key: Bytes, salt: Bytes, data: Bytes ::
      var sealed := cipher.seal(key, salt, data);
      sealed.Some? ==> |sealed.value| == |data| + BASIC_OVERHEAD
  }

  /** The fixed part of an encrypting transform; salts gives the randomness of the k-th block. */
  datatype Sender = Sender(cipher: Cipher, publicKey: Bytes, salts: nat -> Bytes) {
    function Seal(block: Bytes, k: nat): Option<Bytes> {
      cipher.seal(publicKey, salts(k), block)
    }

    /** The ciphertexts of these blocks, in order. */
    ghost predicate Seals(blocks: seq<Bytes>, sealed: seq<Bytes>) {
      |sealed| == |blocks| && forall k :: 0 <= k < |blocks| ==> Seal(blocks[k], k) == Some(sealed[k])
    }

    /** Some block cannot be encrypted. */
    ghost predicate Stuck(blocks: seq<Bytes>) {
      exists k :: 0 <= k < |blocks| && Seal(blocks[k], k).None?
    }
  }

  lemma SealsSnoc(sender: Sender, blocks: seq<Bytes>, sealed: seq<Bytes>, block: Bytes, encrypted: Bytes)
    requires sender.Seals(blocks, sealed) && sender.Seal(block, |sealed|) == Some(encrypted)
    ensures sender.Seals(blocks + [block], sealed + [encrypted])
  {
  }

  lemma SealsLength(sender: Sender, blocks: seq<Bytes>, sealed: seq<Bytes>)
    requires sender.Seals(blocks, sealed)
    ensures |sealed| == |blocks|
  {
  }

  lemma StuckAt(sender: Sender, blocks: seq<Bytes>, k: nat)
    requires k < |blocks| && sender.Seal(blocks[k], k).None?
    ensures sender.Stuck(blocks)
  {
  }

  class EncryptTransform {
    const sender: Sender
    const blockSize: nat
    const capacityPerBlock: int
    var buffer: Bytes
    /** What the controller has been given so far. */
    var enqueued: seq<Bytes>
    ghost var text: Bytes

    ghost predicate Valid()
      reads this
    {
      && capacityPerBlock == blockSize - BASIC_OVERHEAD && capacityPerBlock > 0
      && buffer == Remainder(text, capacityPerBlock)
      && sender.Seals(Blocks(text, capacityPerBlock), enqueued)
    }

    constructor (sender: Sender, blockSize: nat)
      requires blockSize > BASIC_OVERHEAD
      ensures Valid() && this.sender == sender && this.blockSize == blockSize && text == [] && enqueued == []
    {
      this.sender, this.blockSize := sender, blockSize;
      var encryptedLength := blockSize + BASIC_OVERHEAD;
      capacityPerBlock := blockSize - (encryptedLength - blockSize);
      buffer, enqueued, text := [], [], [];
    }

    /** Takes in one chunk of plaintext; every block completed by it has been encrypted when it returns. */
    method Transform(chunk: Bytes) returns (r: Option<StreamError>)
      requires Valid()
      modifies this
      ensures r.None? ==> Valid() && text == old(text) + chunk && old(enqueued) <= enqueued
      ensures r.Some? ==> sender.Stuck(Blocks(old(text) + chunk, capacityPerBlock))
    {
      hide Sender.Seals, Sender.Seal, Sender.Stuck, Blocks, Remainder;
      if chunk == [] {
        assert text + chunk == text;
        return None;
      }
      BlocksResume(text, chunk, capacityPerBlock);
      ghost var sofar, all := Blocks(text, capacityPerBlock), Blocks(text + chunk, capacityPerBlock);
      SealsLength(sender, sofar, enqueued);
      text, buffer := text + chunk, buffer + chunk;
      label Loop:
      while |buffer| >= capacityPerBlock
        invariant text == old@Loop(text) && old(enqueued) <= enqueued
        invariant sofar + Blocks(buffer, capacityPerBlock) == all && sender.Seals(sofar, enqueued)
        invariant |sofar| == |enqueued|
        invariant Remainder(buffer, capacityPerBlock) == Remainder(text, capacityPerBlock)
      {
        var blockData := buffer[..capacityPerBlock];
        BlocksFront(buffer, capacityPerBlock);
        assert all[|sofar|] == blockData;
        buffer := buffer[capacityPerBlock..];
        var encrypted := sender.Seal(blockData, |enqueued|);
        if encrypted.None? {
          StuckAt(sender, all, |enqueued|);
          return Some(EncryptionFailed);
        }
        SealsSnoc(sender, sofar, enqueued, blockData, encrypted.value);
        enqueued := enqueued + [encrypted.value];
        assert sofar + ([blockData] + Blocks(buffer, capacityPerBlock))
            == (sofar + [blockData]) + Blocks(buffer, capacityPerBlock);
        sofar := sofar + [blockData];
      }
      BlocksNone(buffer, capacityPerBlock);
      assert sofar + [] == sofar;
      return None;
    }

    /** Encrypts what is left. Afterwards the controller has been given the whole text's pieces. */
    method Flush() returns (r: Option<StreamError>)
      requires Valid()
      modifies this
      ensures r.None? ==> sender.Seals(Split(text, capacityPerBlock), enqueued)
      ensures r.Some? ==> sender.Stuck(Split(text, capacityPerBlock))
      ensures text == old(text) && old(enqueued) <= enqueued
    {
      hide Sender.Seals, Sender.Seal;
      if |buffer| > 0 {
        var encrypted := sender.Seal(buffer, |enqueued|);
        if encrypted.None? {
          SealsLength(sender, Blocks(text, capacityPerBlock), enqueued);
          assert Split(text, capacityPerBlock)[|enqueued|] == buffer;
          StuckAt(sender, Split(text, capacityPerBlock), |enqueued|);
          return Some(EncryptionFailed);
        }
        SealsSnoc(sender, Blocks(text, capacityPerBlock), enqueued, buffer, encrypted.value);
        enqueued := enqueued + [encrypted.value];
      }
      return None;
    }
  }

  /** The fixed part of a decrypting transform. */
  datatype Opener = Opener(cipher: Cipher, privateKey: Bytes) {
    function Open(block: Bytes): Option<Bytes> {
      cipher.open(privateKey, block)
    }

    /** The plaintexts of these blocks, in order. */
    ghost predicate Opens(blocks: seq<Bytes>, plains: seq<Bytes>) {
      |plains| == |blocks| && forall k :: 0 <= k < |blocks| ==> Open(blocks[k]) == Some(plains[k])
    }

    /** Some block does not open. */
    ghost predicate Refuses(blocks: seq<Bytes>) {
      exists block :: block in blocks && Open(block).None?
    }
  }

  lemma OpensSnoc(opener: Opener, blocks: seq<Bytes>, plains: seq<Bytes>, block: Bytes, plain: Bytes)
    requires opener.Opens(blocks, plains) && opener.Open(block) == Some(plain)
    ensures opener.Opens(blocks + [block], plains + [plain])
  {
  }

  class DecryptTransform {
    const opener: Opener
    const blockSize: nat
    var buffer: Bytes
    var enqueued: seq<Bytes>
    ghost var text: Bytes

    ghost predicate Valid()
      reads this
    {
      && blockSize > 0
      && buffer == Remainder(text, blockSize)
      && opener.Opens(Blocks(text, blockSize), enqueued)
    }

    constructor (opener: Opener, blockSize: nat)
      requires blockSize > 0
      ensures Valid() && this.opener == opener && this.blockSize == blockSize && text == [] && enqueued == []
    {
      this.opener, this.blockSize := opener, blockSize;
      buffer, enqueued, text := [], [], [];
    }

    /** Takes in one chunk of ciphertext; every block completed by it has been decrypted when it returns. */
    method Transform(chunk: Bytes) returns (r: Option<StreamError>)
      requires Valid()
      modifies this
      ensures r.None? ==> Valid() && text == old(text) + chunk && old(enqueued) <= enqueued
      ensures r.Some? ==> opener.Refuses(Blocks(old(text) + chunk, blockSize))
    {
      hide Opener.Opens, Opener.Open, Blocks, Remainder;
      if chunk == [] {
        assert text + chunk == text;
        return None;
      }
      BlocksResume(text, chunk, blockSize);
      ghost var sofar, all := Blocks(text, blockSize), Blocks(text + chunk, blockSize);
      text, buffer := text + chunk, buffer + chunk;
      label Loop:
      while |buffer| >= blockSize
        invariant text == old@Loop(text) && old(enqueued) <= enqueued
        invariant sofar + Blocks(buffer, blockSize) == all && opener.Opens(sofar, enqueued)
        invariant Remainder(buffer, blockSize) == Remainder(text, blockSize)
      {
        var encryptedBlock := buffer[..blockSize];
        BlocksFront(buffer, blockSize);
        assert all[|sofar|] == encryptedBlock;
        buffer := buffer[blockSize..];
        var decrypted := opener.Open(encryptedBlock);
        if decrypted.None? {
          assert encryptedBlock in all;
          return Some(DecryptionFailed);
        }
        OpensSnoc(opener, sofar, enqueued, encryptedBlock, decrypted.value);
        enqueued := enqueued + [decrypted.value];
        assert sofar + ([encryptedBlock] + Blocks(buffer, blockSize))
            == (sofar + [encryptedBlock]) + Blocks(buffer, blockSize);
        sofar := sofar + [encryptedBlock];
      }
      BlocksNone(buffer, blockSize);
      assert sofar + [] == sofar;
      return None;
    }

    /** Decrypts what is left as one last block. */
    method Flush() returns (r: Option<StreamError>)
      requires Valid()
      modifies this
      ensures r.None? ==> opener.Opens(Split(text, blockSize), enqueued)
      ensures r.Some? ==> opener.Refuses(Split(text, blockSize))
      ensures text == old(text) && old(enqueued) <= enqueued
    {
      hide Opener.Opens, Opener.Open;
      if |buffer| > 0 {
        var decrypted := opener.Open(buffer);
        if decrypted.None? {
          assert buffer in Split(text, blockSize);
          return Some(DecryptionFailed);
        }
        OpensSnoc(opener, Blocks(text, blockSize), enqueued, buffer, decrypted.value);
        enqueued := enqueued + [decrypted.value];
      }
      return None;
    }
  }

  // ---------- Whole streams ----------

  /** `new EciesEncryptTransform(service, blockSize, publicKey)` */
  method CreateEncryptTransform(sender: Sender, blockSize: nat) returns (r: Result<EncryptTransform, StreamError>)
    requires blockSize > BASIC_OVERHEAD
    ensures r.Ok? <==> |sender.publicKey| == 33 || |sender.publicKey| == 65
    ensures r.Ok? ==> fresh(r.value) && r.value.Valid() && r.value.sender == sender
    ensures r.Ok? ==> r.value.blockSize == blockSize && r.value.text == []
    ensures r.Err? ==> r.error == InvalidPublicKeyLength
  {
    if |sender.publicKey| != 33 && |sender.publicKey| != 65 { return Err(InvalidPublicKeyLength); }
    var transform := new EncryptTransform(sender, blockSize);
    return Ok(transform);
  }

  method EncryptPipe(sender: Sender, blockSize: nat, chunks: seq<Bytes>)
    returns (r: Result<seq<Bytes>, StreamError>)
    requires blockSize > BASIC_OVERHEAD
    ensures r.Ok? ==> sender.Seals(Split(Flatten(chunks), blockSize - BASIC_OVERHEAD), r.value)
    ensures r.Ok? ==> |sender.publicKey| == 33 || |sender.publicKey| == 65
    ensures r.Err? && (|sender.publicKey| == 33 || |sender.publicKey| == 65) ==>
      sender.Stuck(Split(Flatten(chunks), blockSize - BASIC_OVERHEAD))
  {
    hide Sender.Seals, Sender.Stuck;
    var transform :- CreateEncryptTransform(sender, blockSize);
    var k := 0;
    while k < |chunks|
      invariant 0 <= k <= |chunks| && fresh(transform) && transform.Valid()
      invariant transform.sender == sender && transform.blockSize == blockSize
      invariant transform.text == Flatten(chunks[..k])
    {
      FlattenTake(chunks, k);
      var error := transform.Transform(chunks[k]);
      if error.Some? {
        StuckMore(sender, chunks, k + 1, transform.capacityPerBlock);
        return Err(error.value);
      }
      k := k + 1;
    }
    assert chunks[..k] == chunks;
    var error := transform.Flush();
    if error.Some? { return Err(error.value); }
    return Ok(transform.enqueued);
  }

  lemma StuckMore(sender: Sender, chunks: seq<Bytes>, k: nat, size: nat)
    requires k <= |chunks| && size > 0 && sender.Stuck(Blocks(Flatten(chunks[..k]), size))
    ensures sender.Stuck(Split(Flatten(chunks), size))
  {
    assert chunks == chunks[..k] + chunks[k..];
    FlattenConcat(chunks[..k], chunks[k..]);
    BlocksResume(Flatten(chunks[..k]), Flatten(chunks[k..]), size);
    var blocks, pieces := Blocks(Flatten(chunks[..k]), size), Split(Flatten(chunks), size);
    assert blocks <= pieces;
    var j :| 0 <= j < |blocks| && sender.Seal(blocks[j], j).None?;
    StuckAt(sender, pieces, j);
  }

  lemma OverheadIsFixed(cipher: Cipher)
    requires forall key, salt, data :: cipher.seal(key, salt, data).Some? ==>
      |cipher.seal(key, salt, data).value| == |data| + 64
    ensures FixedOverhead(cipher)
  {
  }

  lemma SealedIsNotStuck(sender: Sender, blocks: seq<Bytes>, sealed: seq<Bytes>)
    requires sender.Seals(blocks, sealed)
    ensures !sender.Stuck(blocks)
  {
  }

  method DecryptPipe(opener: Opener, blockSize: nat, chunks: seq<Bytes>)
    returns (r: Result<seq<Bytes>, StreamError>)
    requires blockSize > 0
    ensures r.Ok? ==> opener.Opens(Split(Flatten(chunks), blockSize), r.value)
    ensures r.Err? ==> opener.Refuses(Split(Flatten(chunks), blockSize))
  {
    hide Opener.Opens, Opener.Refuses;
    var transform := new DecryptTransform(opener, blockSize);
    var k := 0;
    while k < |chunks|
      invariant 0 <= k <= |chunks| && fresh(transform) && transform.Valid()
      invariant transform.opener == opener && transform.blockSize == blockSize
      invariant transform.text == Flatten(chunks[..k])
    {
      FlattenTake(chunks, k);
      var error := transform.Transform(chunks[k]);
      if error.Some? {
        RefusesMore(opener, chunks, k + 1, blockSize);
        return Err(error.value);
      }
      k := k + 1;
    }
    assert chunks[..k] == chunks;
    var error := transform.Flush();
    if error.Some? { return Err(error.value); }
    return Ok(transform.enqueued);
  }

  lemma RefusesMore(opener: Opener, chunks: seq<Bytes>, k: nat, blockSize: nat)
    requires k <= |chunks| && blockSize > 0 && opener.Refuses(Blocks(Flatten(chunks[..k]), blockSize))
    ensures opener.Refuses(Split(Flatten(chunks), blockSize))
  {
    assert chunks == chunks[..k] + chunks[k..];
    FlattenConcat(chunks[..k], chunks[k..]);
    BlocksResume(Flatten(chunks[..k]), Flatten(chunks[k..]), blockSize);
    var blocks, pieces := Blocks(Flatten(chunks[..k]), blockSize), Split(Flatten(chunks), blockSize);
    assert blocks <= pieces;
    var j :| 0 <= j < |blocks| && opener.Open(blocks[j]).None?;
    assert pieces[j] == blocks[j];
  }

  /** Encrypted blocks are cut apart again exactly where they were joined, and open to the blocks of the text. */
  lemma BlocksSurvive(sender: Sender, opener: Opener, blockSize: nat, text: Bytes, sealed: seq<Bytes>)
    requires blockSize > BASIC_OVERHEAD && opener.cipher == sender.cipher && FixedOverhead(sender.cipher)
    requires KeyPair(sender.cipher, sender.publicKey, opener.privateKey)
    requires sender.Seals(Split(text, blockSize - BASIC_OVERHEAD), sealed)
    ensures Split(Flatten(sealed), blockSize) == sealed
    ensures opener.Opens(sealed, Split(text, blockSize - BASIC_OVERHEAD))
  {
    var pieces := Split(text, blockSize - BASIC_OVERHEAD);
    SplitJoins(text, blockSize - BASIC_OVERHEAD);
    forall k | 0 <= k < |pieces|
      ensures |sealed[k]| == |pieces[k]| + BASIC_OVERHEAD && opener.Open(sealed[k]) == Some(pieces[k])
    {
      assert sender.cipher.seal(sender.publicKey, sender.salts(k), pieces[k]) == Some(sealed[k]);
    }
    hide KeyPair, FixedOverhead;
    SplitOfPieces(sealed, blockSize);
  }

  /** The pipeline round trip: however the plaintext and then the ciphertext are cut on their way, what comes
      out is the text that went in; only a wrong key length or a failing encryption can stop it. */
  method Pipeline(sender: Sender, opener: Opener, blockSize: nat, chunks: seq<Bytes>, recut: Bytes -> seq<Bytes>)
    returns (r: Result<seq<Bytes>, StreamError>)
    requires blockSize > 64 && opener.cipher == sender.cipher
    requires forall key, salt, data :: sender.cipher.seal(key, salt, data).Some? ==>
      |sender.cipher.seal(key, salt, data).value| == |data| + 64
    requires KeyPair(sender.cipher, sender.publicKey, opener.privateKey)
    requires forall bytes: Bytes :: Flatten(recut(bytes)) == bytes
    ensures r.Ok? ==> Flatten(r.value) == Flatten(chunks) && r.value == Split(Flatten(chunks), blockSize - 64)
    ensures r.Err? <==>
      || (|sender.publicKey| != 33 && |sender.publicKey| != 65)
      || sender.Stuck(Split(Flatten(chunks), blockSize - 64))
  {
    OverheadIsFixed(sender.cipher);
    hide KeyPair, FixedOverhead, Sender.Stuck, Sender.Seals;
    var sealed :- EncryptPipe(sender, blockSize, chunks);
    SealedIsNotStuck(sender, Split(Flatten(chunks), blockSize - 64), sealed);
    BlocksSurvive(sender, opener, blockSize, Flatten(chunks), sealed);
    SplitJoins(Flatten(chunks), blockSize - BASIC_OVERHEAD);
    assert !opener.Refuses(sealed);
    r := DecryptPipe(opener, blockSize, recut(Flatten(sealed)));
    assert r.Ok? && r.value == Split(Flatten(chunks), blockSize - BASIC_OVERHEAD);
  }
}
