/** The streaming generators as step machines. Next() runs a generator from one `yield` to the following
    one, so everything after a `yield` happens only when the consumer asks again. */
module EncryptionStreams {
  import opened ByteStrings
  import opened ChunkFormat
  import opened DataViews
  import opened Hashing
  import opened Results
  import opened Sequences

  const MAX_SOURCE_CHUNK: nat := 104857600

  /** What stays fixed during a run; salts gives the randomness of the k-th encryption. */
  datatype Settings = Settings(
    cipher: Cipher, sha: Sha256, publicKey: Bytes, chunkSize: nat, includeChecksums: bool, salts: nat -> Bytes)
  {
    function Seal(data: Bytes, index: nat): Option<Bytes> {
      cipher.seal(publicKey, salts(index), data)
    }

    function Checksum(data: Bytes): Option<Bytes> {
      if includeChecksums then Some(sha(data)) else None
    }

    /** The wire bytes of the chunk with this index. */
    function Wire(data: Bytes, index: nat, isLast: bool): Bytes
      requires Seal(data, index).Some?
    {
      FrameBytes(data, Seal(data, index).value, index, isLast, Checksum(data))
    }

    /** 65 bytes uncompressed or 33 compressed */
    predicate KeyLengthValid() {
      |publicKey| == 65 || |publicKey| == 33
    }

    /** What a run has still to do with this much buffered and this much unread. */
    function Planned(buffer: Bytes, source: seq<Bytes>): Plan
      requires chunkSize > 0
    {
      if !KeyLengthValid() then Plan([], Some(InvalidPublicKeyLength)) else Ahead(buffer, source, chunkSize)
    }

    /** Every piece can be encrypted. */
    predicate Sealable(pieces: seq<Bytes>, index: nat) {
      forall k :: 0 <= k < |pieces| ==> Seal(pieces[k], index + k).Some?
    }
  }

  // ---------- Encryption ----------

  /** Source chunks up to the first one that is too large. */
  function Accepted(source: seq<Bytes>): (ok: seq<Bytes>)
    ensures ok <= source
    ensures ok != source ==> |source[|ok|]| > MAX_SOURCE_CHUNK
    ensures forall k :: 0 <= k < |ok| ==> |ok[k]| <= MAX_SOURCE_CHUNK
    decreases |source|
  {
    if source == [] || |source[0]| > MAX_SOURCE_CHUNK then [] else [source[0]] + Accepted(source[1..])
  }

  /** The plaintexts still to be encrypted, and the error the run then ends with, if any. */
  datatype Plan = Plan(pieces: seq<Bytes>, failure: Option<StreamError>)

  /** With all source chunks acceptable, the fixed-size split of everything; otherwise only the complete
      blocks of what came before the oversized chunk. */
  function Ahead(buffer: Bytes, source: seq<Bytes>, chunkSize: nat): Plan
    requires chunkSize > 0
  {
    var text := buffer + Flatten(Accepted(source));
    if Accepted(source) == source then Plan(Split(text, chunkSize), None)
    else Plan(Blocks(text, chunkSize), Some(BufferOverflow))
  }

  lemma AheadCut(buffer: Bytes, source: seq<Bytes>, chunkSize: nat)
    requires 0 < chunkSize <= |buffer|
    ensures var plan := Ahead(buffer, source, chunkSize);
            && plan.pieces != [] && plan.pieces[0] == buffer[..chunkSize]
            && Ahead(buffer[chunkSize..], source, chunkSize) == plan.(pieces := plan.pieces[1..])
  {
    var more := Flatten(Accepted(source));
    var text := buffer + more;
    assert text[..chunkSize] == buffer[..chunkSize] && text[chunkSize..] == buffer[chunkSize..] + more;
    SplitStep(text, chunkSize);
  }

  lemma AheadRead(buffer: Bytes, source: seq<Bytes>, chunkSize: nat)
    requires chunkSize > 0 && source != [] && |source[0]| <= MAX_SOURCE_CHUNK
    ensures Ahead(buffer, source, chunkSize) == Ahead(buffer + source[0], source[1..], chunkSize)
  {
    var ok, rest := Accepted(source), Accepted(source[1..]);
    assert ok == [source[0]] + rest && ok[1..] == rest;
    assert buffer + Flatten(ok) == buffer + source[0] + Flatten(rest);
    assert ok == source <==> rest == source[1..] by {
      if rest == source[1..] {
        assert source == [source[0]] + source[1..];
      }
    }
  }

  lemma AheadOversized(buffer: Bytes, source: seq<Bytes>, chunkSize: nat)
    requires 0 < chunkSize && |buffer| < chunkSize && source != [] && |source[0]| > MAX_SOURCE_CHUNK
    ensures Ahead(buffer, source, chunkSize) == Plan([], Some(BufferOverflow))
  {
    assert buffer + Flatten<Byte>([]) == buffer;
  }

  lemma AheadDrained(buffer: Bytes, chunkSize: nat)
    requires |buffer| < chunkSize
    ensures Ahead(buffer, [], chunkSize) == Plan(if buffer == [] then [] else [buffer], None)
  {
    assert buffer + Flatten<Byte>([]) == buffer;
  }

  /** Every upcoming piece but the last fills a block. */
  lemma AheadShape(buffer: Bytes, source: seq<Bytes>, chunkSize: nat)
    requires chunkSize > 0
    ensures var pieces := Ahead(buffer, source, chunkSize).pieces;
            forall k :: 0 <= k < |pieces| ==>
              0 < |pieces[k]| <= chunkSize && (k < |pieces| - 1 ==> |pieces[k]| == chunkSize)
  {
    var text := buffer + Flatten(Accepted(source));
    SplitJoins(text, chunkSize);
    BlocksAreFull(text, chunkSize);
  }

  /** A yielded chunk: the consumer and the generator share the object. */
  class EncryptedChunk {
    const index: nat
    const data: Bytes
    const originalSize: nat
    const encryptedSize: nat
    const checksum: Option<Bytes>
    var isLast: bool

    constructor (index: nat, data: Bytes, isLast: bool, originalSize: nat, encryptedSize: nat,
                 checksum: Option<Bytes>)
      ensures this.index == index && this.data == data && this.isLast == isLast
      ensures this.originalSize == originalSize && this.encryptedSize == encryptedSize && this.checksum == checksum
    {
      this.index, this.data, this.isLast := index, data, isLast;
      this.originalSize, this.encryptedSize, this.checksum := originalSize, encryptedSize, checksum;
    }

    /** The chunk carries this plaintext, framed under its own index. */
    predicate Carries(settings: Settings, plain: Bytes, wireLast: bool) {
      && settings.Seal(plain, index).Some?
      && data == settings.Wire(plain, index, wireLast)
      && originalSize == |plain|
      && encryptedSize == |settings.Seal(plain, index).value|
      && checksum == settings.Checksum(plain)
    }
  }

  method EncryptChunk(settings: Settings, data: Bytes, index: nat, isLast: bool)
    returns (r: Result<EncryptedChunk, StreamError>)
    ensures r.Ok? <==> settings.Seal(data, index).Some?
    ensures r.Err? ==> r.error == EncryptionFailed
    ensures r.Ok? ==> fresh(r.value) && r.value.index == index && r.value.isLast == isLast
    ensures r.Ok? ==> r.value.Carries(settings, data, isLast) && r.value.originalSize == |data|
  {
    var encrypted := settings.Seal(data, index);
    if encrypted.None? { return Err(EncryptionFailed); }
    var checksum := settings.Checksum(data);
    var header := BuildChunkHeader(FrameHeader(data, encrypted.value, index, isLast, settings.includeChecksums));
    var parts := [header[..], encrypted.value];
    if checksum.Some? {
      parts := parts + [checksum.value];
    }
    FlattenParts(header[..], encrypted.value, checksum);
    var result := ConcatBytes(parts);
    var chunk := new EncryptedChunk(index, result[..], isLast, |data|, |encrypted.value|, checksum);
    return Ok(chunk);
  }

  /** What a carried plaintext looks like from outside: the fields of the object, and a frame that opens to it under the
      object's index, as long as sizes and index fit 32 bits. */
  lemma CarriedChunk(chunk: EncryptedChunk, settings: Settings, plain: Bytes, wireLast: bool, privateKey: Bytes)
    requires chunk.Carries(settings, plain, wireLast) && KeyPair(settings.cipher, settings.publicKey, privateKey)
    ensures chunk.originalSize == |plain|
    ensures chunk.checksum == if settings.includeChecksums then Some(settings.sha(plain)) else None
    ensures var sealed := settings.cipher.seal(settings.publicKey, settings.salts(chunk.index), plain);
            && sealed.Some? && chunk.encryptedSize == |sealed.value|
            && |chunk.data| == 32 + |sealed.value| + (if settings.includeChecksums then 32 else 0)
            && (|plain| < 0x1_0000_0000 && |sealed.value| < 0x1_0000_0000 && chunk.index < 0x1_0000_0000 ==>
                && OpenChunk(settings.cipher, settings.sha, privateKey, chunk.data).Ok?
                && var (data, header) := OpenChunk(settings.cipher, settings.sha, privateKey, chunk.data).value;
                   data == plain && header.index == chunk.index && (header.IsLast() <==> wireLast))
  {
    var sealed := settings.Seal(plain, chunk.index).value;
    var summed := settings.includeChecksums;
    FrameLength(plain, sealed, chunk.index, wireLast, settings.Checksum(plain));
    ChunkRoundTrip(settings.cipher, settings.sha, settings.publicKey, privateKey, settings.salts(chunk.index),
                   plain, sealed, chunk.index, wireLast, summed);
    FlagsTell(wireLast, summed);
    hide OpenChunk, FrameBytes, KeyPair, Flags, Header.HasChecksum;
  }

  lemma FrameLength(data: Bytes, sealed: Bytes, index: nat, isLast: bool, checksum: Option<Bytes>)
    ensures |FrameBytes(data, sealed, index, isLast, checksum)|
         == 32 + |sealed| + (if checksum.Some? then |checksum.value| else 0)
  {
    FrameLayout(data, sealed, index, isLast, checksum);
  }

  lemma FlagsTell(isLast: bool, includeChecksum: bool)
    ensures Flags(isLast, includeChecksum) % 2 == if isLast then 1 else 0
  {
  }

  lemma FlattenParts(header: Bytes, encrypted: Bytes, checksum: Option<Bytes>)
    ensures Flatten([header, encrypted]) == header + encrypted
    ensures checksum.Some? ==> Flatten([header, encrypted] + [checksum.value]) == header + encrypted + checksum.value
  {
    assert Flatten([encrypted]) == encrypted + Flatten([encrypted][1..]) == encrypted;
    assert [header, encrypted][1..] == [encrypted];
    if checksum.Some? {
      FlattenSnoc([header, encrypted], checksum.value);
    }
  }

  datatype Step<+T> = Yield(value: T) | Done | Throw(error: StreamError)

  datatype Phase = Running | AfterTail | Finished

  class EncryptGenerator {
    const settings: Settings
    var source: seq<Bytes>
    var buffer: Bytes
    var chunkIndex: nat
    var lastYielded: EncryptedChunk?
    var phase: Phase

    constructor (settings: Settings, source: seq<Bytes>)
      ensures this.settings == settings && this.source == source
      ensures buffer == [] && chunkIndex == 0 && lastYielded == null && phase == Running
    {
      this.settings, this.source := settings, source;
      buffer, chunkIndex, lastYielded, phase := [], 0, null, Running;
    }

    /** The plaintexts the generator has yet to yield. */
    ghost function Upcoming(): Plan
      requires settings.chunkSize > 0
      reads this
    {
      if phase == Running then settings.Planned(buffer, source) else Plan([], None)
    }

    ghost predicate Valid()
      reads this
    {
      && settings.chunkSize > 0
      && (phase == Running ==> (lastYielded == null <==> chunkIndex == 0))
    }

    /** The object that the final request may still mark. */
    ghost function Shared(): set<object>
      reads this
    {
      if lastYielded == null then {} else {lastYielded}
    }

    /** Runs to the next suspension. A yielded chunk carries the first upcoming plaintext under the current
        index, and its wire flag is set exactly for a short final piece. Only asking again after the last
        full block marks that block's object as last: its wire bytes were built before. */
    method Next() returns (step: Step<EncryptedChunk>)
      requires Valid()
      modifies this, Shared()
      ensures Valid() && fresh(Shared() - old(Shared()))
      ensures step.Yield? ==>
        && fresh(step.value)
        && old(Upcoming()).pieces != []
        && Upcoming() == old(Upcoming()).(pieces := old(Upcoming()).pieces[1..])
        && step.value.index == old(chunkIndex)
        && settings.Seal(old(Upcoming()).pieces[0], old(chunkIndex)).Some?
        && step.value.Carries(settings, old(Upcoming()).pieces[0], phase == AfterTail)
        && step.value.isLast == (phase == AfterTail)
        && step.value.originalSize == |old(Upcoming()).pieces[0]|
      ensures step.Yield? ==> old(lastYielded) == null || unchanged(old(lastYielded))
      ensures step.Yield? ==>
        if |old(Upcoming()).pieces[0]| == settings.chunkSize
        then phase == Running && chunkIndex == old(chunkIndex) + 1 && lastYielded == step.value
        else phase == AfterTail && Upcoming() == Plan([], None) && lastYielded == old(lastYielded)
      ensures !step.Yield? ==> phase == Finished
      ensures step.Done? ==> old(Upcoming()) == Plan([], None)
      ensures step.Done? && old(phase) == Running && old(chunkIndex) > 0 ==> old(lastYielded).isLast
      ensures step.Done? && old(phase) != Running && old(lastYielded) != null ==> unchanged(old(lastYielded))
      ensures step.Throw? && step.error != EncryptionFailed ==> old(Upcoming()) == Plan([], Some(step.error))
      ensures step.Throw? && step.error == EncryptionFailed ==>
        && old(Upcoming()).pieces != []
        && settings.Seal(old(Upcoming()).pieces[0], old(chunkIndex)).None?
      ensures step.Throw? && old(lastYielded) != null ==> unchanged(old(lastYielded))
    {
      hide Ahead, EncryptedChunk.Carries;
      if phase != Running {
        phase := Finished;
        return Done;
      }
      if !settings.KeyLengthValid() {
        phase := Finished;
        return Throw(InvalidPublicKeyLength);
      }
      while true
        invariant phase == Running && Valid() && Upcoming() == old(Upcoming())
        invariant lastYielded == old(lastYielded) && chunkIndex == old(chunkIndex)
        invariant lastYielded != null ==> unchanged(lastYielded)
        decreases |source|
      {
        if |buffer| >= settings.chunkSize {
          AheadCut(buffer, source, settings.chunkSize);
          var chunkData := buffer[..settings.chunkSize];
          buffer := buffer[settings.chunkSize..];
          var r := EncryptChunk(settings, chunkData, chunkIndex, false);
          chunkIndex := chunkIndex + 1;
          if r.Err? {
            phase := Finished;
            return Throw(r.error);
          }
          lastYielded := r.value;
          return Yield(r.value);
        }
        if source == [] {
          AheadDrained(buffer, settings.chunkSize);
          break;
        }
        var data := source[0];
        if |data| > MAX_SOURCE_CHUNK {
          AheadOversized(buffer, source, settings.chunkSize);
          phase := Finished;
          return Throw(BufferOverflow);
        }
        AheadRead(buffer, source, settings.chunkSize);
        buffer, source := buffer + data, source[1..];
      }
      if |buffer| > 0 {
        var r := EncryptChunk(settings, buffer, chunkIndex, true);
        if r.Err? {
          phase := Finished;
          return Throw(r.error);
        }
        phase := AfterTail;
        return Yield(r.value);
      } else if chunkIndex == 0 {
        phase := Finished;
      } else if lastYielded != null {
        lastYielded.isLast := true;
        phase := Finished;
      }
      return Done;
    }
  }

  /** The wire bytes of consecutive plaintexts; only a short final piece carries the last flag. */
  function WireStream(settings: Settings, pieces: seq<Bytes>, index: nat): (frames: seq<Bytes>)
    requires settings.Sealable(pieces, index)
    ensures |frames| == |pieces|
    decreases |pieces|
  {
    if pieces == [] then []
    else
      assert forall k :: 0 <= k < |pieces[1..]| ==> pieces[1..][k] == pieces[k + 1];
      [settings.Wire(pieces[0], index, |pieces| == 1 && |pieces[0]| < settings.chunkSize)]
      + WireStream(settings, pieces[1..], index + 1)
  }

  /** These chunks carry the first plaintexts of the plan, in order, under their own indices. */
  ghost predicate Delivered(settings: Settings, pieces: seq<Bytes>, chunks: seq<EncryptedChunk>) {
    && |chunks| <= |pieces|
    && forall k :: 0 <= k < |chunks| ==>
         && chunks[k].index == k
         && settings.Seal(pieces[k], k).Some?
         && chunks[k].Carries(settings, pieces[k], k == |pieces| - 1 && |pieces[k]| < settings.chunkSize)
  }

  lemma DeliveredSnoc(settings: Settings, pieces: seq<Bytes>, chunks: seq<EncryptedChunk>, chunk: EncryptedChunk)
    requires Delivered(settings, pieces, chunks) && |chunks| < |pieces|
    requires chunk.index == |chunks| && settings.Seal(pieces[|chunks|], |chunks|).Some?
    requires chunk.Carries(settings, pieces[|chunks|],
                           |chunks| == |pieces| - 1 && |pieces[|chunks|]| < settings.chunkSize)
    ensures Delivered(settings, pieces, chunks + [chunk])
  {
    hide EncryptedChunk.Carries;
  }

  lemma DeliveredAll(settings: Settings, pieces: seq<Bytes>, chunks: seq<EncryptedChunk>)
    requires Delivered(settings, pieces, chunks)
    ensures |chunks| == |pieces| ==> settings.Sealable(pieces, 0)
    ensures |chunks| < |pieces| && settings.Seal(pieces[|chunks|], |chunks|).None? ==> !settings.Sealable(pieces, 0)
  {
    hide EncryptedChunk.Carries;
  }

  /** A consumer that asks until the end and keeps every chunk. */
  method Collect(settings: Settings, source: seq<Bytes>)
    returns (chunks: seq<EncryptedChunk>, error: Option<StreamError>)
    requires settings.chunkSize > 0
    ensures Delivered(settings, settings.Planned([], source).pieces, chunks)
    ensures var plan := settings.Planned([], source);
            && (error.None? <==> plan.failure.None? && settings.Sealable(plan.pieces, 0))
            && (error.None? || error.value != EncryptionFailed ==> |chunks| == |plan.pieces| && error == plan.failure)
            && (error == Some(EncryptionFailed) ==> !settings.Sealable(plan.pieces, 0))
    ensures error.None? ==> forall k :: 0 <= k < |chunks| ==> chunks[k].isLast == (k == |chunks| - 1)
  {
    hide Ahead, EncryptedChunk.Carries, Delivered, Settings.Sealable;
    ghost var plan := settings.Planned([], source);
    AheadShape([], source, settings.chunkSize);
    var gen := new EncryptGenerator(settings, source);
    chunks := [];
    assert Delivered(settings, plan.pieces, []) by {
      DeliveredNone(settings, plan.pieces);
    }
    while true
      invariant gen.Valid() && fresh(gen) && gen.settings == settings
      invariant |chunks| <= |plan.pieces| && Delivered(settings, plan.pieces, chunks)
      invariant gen.Upcoming() == plan.(pieces := plan.pieces[|chunks|..])
      invariant gen.phase == Running ==> gen.chunkIndex == |chunks|
      invariant gen.phase == Running && chunks != [] ==> gen.lastYielded == chunks[|chunks| - 1]
      invariant gen.phase != Running ==> gen.phase == AfterTail && chunks != [] && |chunks| == |plan.pieces|
      invariant chunks == [] ==> gen.lastYielded == null
      invariant gen.lastYielded != null ==> gen.lastYielded in chunks
      invariant forall chunk :: chunk in chunks ==> fresh(chunk)
      invariant forall k :: 0 <= k < |chunks| ==>
        chunks[k].isLast == (gen.phase == AfterTail && k == |chunks| - 1)
      invariant forall j, k :: 0 <= j < k < |chunks| ==> chunks[j] != chunks[k]
      decreases |plan.pieces| - |chunks|
    {
      DeliveredAll(settings, plan.pieces, chunks);
      var step := gen.Next();
      match step
      case Yield(chunk) =>
        DeliveredSnoc(settings, plan.pieces, chunks, chunk);
        chunks := chunks + [chunk];
      case Done => error := None; break;
      case Throw(e) => error := Some(e); break;
    }
  }

  lemma DeliveredNone(settings: Settings, pieces: seq<Bytes>)
    ensures Delivered(settings, pieces, [])
  {
  }

  // ---------- Decryption ----------

  /** The receiver's side of a run. */
  datatype Receiver = Receiver(cipher: Cipher, sha: Sha256, privateKey: Bytes) {
    function Open(frame: Bytes): Result<(Bytes, Header), StreamError> {
      OpenChunk(cipher, sha, privateKey, frame)
    }

    /** The frame opens under the index that is due. */
    predicate InSequence(frame: Bytes, index: nat) {
      Open(frame).Ok? && Open(frame).value.1.index == index
    }
  }

  datatype Received = Received(pieces: seq<Bytes>, error: Option<StreamError>)

  /** What a run over these frames yields from an expected index on, and how it ends. */
  function Receive(receiver: Receiver, frames: seq<Bytes>, expected: nat): (r: Received)
    decreases |frames|
  {
    if frames == [] then Received([], None)
    else
      var r := receiver.Open(frames[0]);
      if r.Err? then Received([], Some(r.error))
      else
        var (data, header) := r.value;
        if header.index != expected then Received([], Some(ChunkSequenceError(expected, header.index)))
        else if header.IsLast() then Received([data], None)
        else
          var rest := Receive(receiver, frames[1..], expected + 1);
          rest.(pieces := [data] + rest.pieces)
  }

  /** A whole run: the key length is checked before anything is read. */
  function Decrypted(receiver: Receiver, frames: seq<Bytes>, expected: nat): Received {
    if |receiver.privateKey| != 32 then Received([], Some(InvalidPrivateKeyLength))
    else Receive(receiver, frames, expected)
  }

  class DecryptGenerator {
    const receiver: Receiver
    var source: seq<Bytes>
    var expectedIndex: nat
    var phase: Phase

    constructor (receiver: Receiver, source: seq<Bytes>)
      ensures this.receiver == receiver && this.source == source && expectedIndex == 0 && phase == Running
    {
      this.receiver, this.source, expectedIndex, phase := receiver, source, 0, Running;
    }

    ghost function Upcoming(): Received
      reads this
    {
      if phase == Running then Decrypted(receiver, source, expectedIndex) else Received([], None)
    }

    /** Runs to the next suspension; a chunk with the last flag ends the run when it is resumed. */
    method Next() returns (step: Step<Bytes>)
      modifies this
      ensures step.Yield? ==>
        && old(Upcoming()).pieces != [] && step.value == old(Upcoming()).pieces[0]
        && Upcoming() == old(Upcoming()).(pieces := old(Upcoming()).pieces[1..])
      ensures step.Done? ==> old(Upcoming()) == Received([], None)
      ensures step.Throw? ==> old(Upcoming()) == Received([], Some(step.error))
      ensures !step.Yield? ==> phase == Finished
    {
      if phase != Running {
        phase := Finished;
        return Done;
      }
      if |receiver.privateKey| != 32 {
        phase := Finished;
        return Throw(InvalidPrivateKeyLength);
      }
      if source == [] {
        phase := Finished;
        return Done;
      }
      var chunkData := source[0];
      source := source[1..];
      var r := receiver.Open(chunkData);
      if r.Err? {
        phase := Finished;
        return Throw(r.error);
      }
      var (data, header) := r.value;
      if header.index != expectedIndex {
        phase := Finished;
        return Throw(ChunkSequenceError(expectedIndex, header.index));
      }
      expectedIndex := expectedIndex + 1;
      if header.IsLast() {
        phase := AfterTail;
      }
      return Yield(data);
    }
  }

  /** Whatever the frames are, the plaintexts yielded are those of an initial run of frames that open under
      consecutive indices; the first frame that does not stops the run with its own error, a flagged one without. */
  lemma {:induction false} OnlyInOrder(receiver: Receiver, frames: seq<Bytes>, expected: nat)
    ensures var r := Receive(receiver, frames, expected);
            && |r.pieces| <= |frames|
            && (forall k :: 0 <= k < |r.pieces| ==>
                 && receiver.InSequence(frames[k], expected + k)
                 && receiver.Open(frames[k]).value.0 == r.pieces[k])
            && (r.error.Some? <==>
                 && |r.pieces| < |frames|
                 && !receiver.InSequence(frames[|r.pieces|], expected + |r.pieces|)
                 && (r.pieces == [] || !receiver.Open(frames[|r.pieces| - 1]).value.1.IsLast()))
            && (r.error.Some? ==>
                 var outcome := receiver.Open(frames[|r.pieces|]);
                 r.error.value == if outcome.Err? then outcome.error
                                  else ChunkSequenceError(expected + |r.pieces|, outcome.value.1.index))
            && (forall k :: 0 <= k < |r.pieces| - 1 ==> !receiver.Open(frames[k]).value.1.IsLast())
    decreases |frames|
  {
    hide OpenChunk, Header.IsLast;
    if frames != [] && receiver.InSequence(frames[0], expected) && !receiver.Open(frames[0]).value.1.IsLast() {
      OnlyInOrder(receiver, frames[1..], expected + 1);
    }
  }

  /** A consumer that asks until the end. */
  method CollectPlain(receiver: Receiver, frames: seq<Bytes>)
    returns (pieces: seq<Bytes>, error: Option<StreamError>)
    ensures Received(pieces, error) == Decrypted(receiver, frames, 0)
  {
    hide Decrypted;
    ghost var all := Decrypted(receiver, frames, 0);
    var gen := new DecryptGenerator(receiver, frames);
    pieces := [];
    while true
      invariant fresh(gen) && pieces + gen.Upcoming().pieces == all.pieces && gen.Upcoming().error == all.error
      decreases |gen.Upcoming().pieces|
    {
      var step := gen.Next();
      match step
      case Yield(data) => pieces := pieces + [data];
      case Done => error := None; break;
      case Throw(e) => error := Some(e); break;
    }
  }

  // ---------- Both ends ----------

  /** Every header field of this chunk fits its 32 bits. */
  predicate FitsOne(settings: Settings, data: Bytes, index: nat) {
    index < U32 && |data| < U32 && settings.Seal(data, index).Some? && |settings.Seal(data, index).value| < U32
  }

  predicate Fits(settings: Settings, pieces: seq<Bytes>, index: nat) {
    forall k :: 0 <= k < |pieces| ==> FitsOne(settings, pieces[k], index + k)
  }

  lemma OpenWire(settings: Settings, receiver: Receiver, data: Bytes, index: nat, isLast: bool)
    requires receiver.cipher == settings.cipher && receiver.sha == settings.sha
    requires KeyPair(settings.cipher, settings.publicKey, receiver.privateKey)
    requires settings.Seal(data, index).Some?
    ensures var r := receiver.Open(settings.Wire(data, index, isLast));
            if |data| < U32 && |settings.Seal(data, index).value| < U32
            then r.Ok? && r.value.0 == data && r.value.1.index == index % U32 && r.value.1.IsLast() == isLast
            else r.Err?
  {
    hide OpenChunk, FrameBytes, KeyPair;
    ChunkRoundTrip(settings.cipher, settings.sha, settings.publicKey, receiver.privateKey, settings.salts(index),
                   data, settings.Seal(data, index).value, index, isLast, settings.includeChecksums);
  }

  lemma SealableTail(settings: Settings, pieces: seq<Bytes>, index: nat)
    requires pieces != [] && settings.Sealable(pieces, index)
    ensures settings.Sealable(pieces[1..], index + 1) && settings.Seal(pieces[0], index).Some?
  {
    hide Settings.Seal;
    assert settings.Seal(pieces[0], index + 0).Some?;
    assert forall k :: 0 <= k < |pieces[1..]| ==> pieces[1..][k] == pieces[k + 1] && index + 1 + k == index + (k + 1);
  }

  lemma ReceiveStep(receiver: Receiver, frames: seq<Bytes>, expected: nat)
    requires frames != []
    ensures var r := receiver.Open(frames[0]);
            && (!receiver.InSequence(frames[0], expected) ==>
                 Receive(receiver, frames, expected).pieces == [] && Receive(receiver, frames, expected).error.Some?)
            && (receiver.InSequence(frames[0], expected) && r.value.1.IsLast() ==>
                 Receive(receiver, frames, expected) == Received([r.value.0], None))
            && (receiver.InSequence(frames[0], expected) && !r.value.1.IsLast() ==>
                 var rest := Receive(receiver, frames[1..], expected + 1);
                 Receive(receiver, frames, expected) == rest.(pieces := [r.value.0] + rest.pieces))
  {
    hide Receiver.Open, Header.IsLast;
  }

  /** Receiving what was sent gives back exactly the pieces, without an error, if and only if the chunk count
      and the sizes fit the header fields. */
  lemma {:induction false} ReceiveSent(settings: Settings, receiver: Receiver, pieces: seq<Bytes>, index: nat)
    requires receiver.cipher == settings.cipher && receiver.sha == settings.sha
    requires KeyPair(settings.cipher, settings.publicKey, receiver.privateKey)
    requires settings.Sealable(pieces, index)
    ensures Receive(receiver, WireStream(settings, pieces, index), index) == Received(pieces, None)
       <==> Fits(settings, pieces, index)
    decreases |pieces|
  {
    hide KeyPair, Header.IsLast, Receiver.Open, Settings.Seal, Settings.Wire, Settings.Sealable;
    if pieces != [] {
      var data, rest := pieces[0], pieces[1..];
      var isLast := |pieces| == 1 && |data| < settings.chunkSize;
      SealableTail(settings, pieces, index);
      OpenWire(settings, receiver, data, index, isLast);
      ReceiveSent(settings, receiver, rest, index + 1);
      FitsStep(settings, pieces, index);
      var frames := WireStream(settings, pieces, index);
      assert frames[0] == settings.Wire(data, index, isLast) && frames[1..] == WireStream(settings, rest, index + 1);
      ReceiveStep(receiver, frames, index);
      assert pieces == [data] + rest;
      hide Receive, WireStream;
      if isLast {
        assert Fits(settings, rest, index + 1);
      }
      hide Fits;
    }
  }

  lemma FitsStep(settings: Settings, pieces: seq<Bytes>, index: nat)
    requires pieces != []
    ensures Fits(settings, pieces, index) <==>
      FitsOne(settings, pieces[0], index) && Fits(settings, pieces[1..], index + 1)
  {
    hide FitsOne;
    var rest := pieces[1..];
    if Fits(settings, pieces, index) {
      assert FitsOne(settings, pieces[0], index + 0);
      forall k | 0 <= k < |rest|
        ensures FitsOne(settings, rest[k], index + 1 + k)
      {
        assert FitsOne(settings, pieces[k + 1], index + (k + 1));
      }
    }
    if FitsOne(settings, pieces[0], index) && Fits(settings, rest, index + 1) {
      forall k | 0 <= k < |pieces|
        ensures FitsOne(settings, pieces[k], index + k)
      {
        if k > 0 {
          assert FitsOne(settings, rest[k - 1], index + 1 + (k - 1));
        }
      }
    }
  }

  /** The bytes sent for a source: one frame per piece of its fixed-size split. */
  function Sent(settings: Settings, source: seq<Bytes>): seq<Bytes>
    requires settings.chunkSize > 0 && settings.Sealable(Split(Flatten(source), settings.chunkSize), 0)
  {
    WireStream(settings, Split(Flatten(source), settings.chunkSize), 0)
  }

  /** What a consumer of the encrypting generator holds at the end is the sent stream. */
  lemma {:induction false} DeliveredIsSent(settings: Settings, pieces: seq<Bytes>, chunks: seq<EncryptedChunk>)
    requires Delivered(settings, pieces, chunks) && |chunks| == |pieces|
    requires settings.Sealable(pieces, 0)
    ensures forall k :: 0 <= k < |chunks| ==> chunks[k].data == WireStream(settings, pieces, 0)[k]
  {
    hide Settings.Wire, Settings.Seal;
    forall k | 0 <= k < |chunks|
      ensures chunks[k].data == WireStream(settings, pieces, 0)[k]
    {
      WireAt(settings, pieces, 0, k);
    }
  }

  lemma {:induction false} WireAt(settings: Settings, pieces: seq<Bytes>, index: nat, k: nat)
    requires settings.Sealable(pieces, index) && k < |pieces|
    ensures settings.Seal(pieces[k], index + k).Some?
    ensures WireStream(settings, pieces, index)[k]
         == settings.Wire(pieces[k], index + k, k == |pieces| - 1 && |pieces[k]| < settings.chunkSize)
    decreases k
  {
    hide Settings.Wire, Settings.Seal;
    if k > 0 {
      assert forall j :: 0 <= j < |pieces[1..]| ==> pieces[1..][j] == pieces[j + 1] && index + 1 + j == index + (j + 1);
      WireAt(settings, pieces[1..], index + 1, k - 1);
      assert pieces[1..][k - 1] == pieces[k];
    }
  }

  /** n is a multiple of size. */
  predicate Multiple(n: nat, size: nat)
    requires size > 0
  {
    n % size == 0
  }

  /** On the wire the end of a stream is marked exactly when its length is no multiple of the chunk size: then the last
      frame carries the flag and no other; otherwise none does. */
  lemma LastFlagIff(settings: Settings, source: seq<Bytes>, k: nat)
    requires settings.chunkSize > 0 && settings.Sealable(Split(Flatten(source), settings.chunkSize), 0)
    requires k < |Sent(settings, source)|
    ensures var frames := Sent(settings, source);
            var header := ParseChunkHeader(frames[k]);
            && header.Ok?
            && (header.value.IsLast() <==> k == |frames| - 1 && !Multiple(|Flatten(source)|, settings.chunkSize))
  {
    var pieces := Split(Flatten(source), settings.chunkSize);
    hide Split, Flatten, WireStream, ParseChunkHeader, Header.IsLast, Settings.Sealable, Multiple;
    ShortEnd(Flatten(source), settings.chunkSize);
    FlagAt(settings, pieces, k);
  }

  lemma FlagAt(settings: Settings, pieces: seq<Bytes>, k: nat)
    requires settings.Sealable(pieces, 0) && k < |pieces|
    ensures var header := ParseChunkHeader(WireStream(settings, pieces, 0)[k]);
            header.Ok? && header.value.IsLast() == (k == |pieces| - 1 && |pieces[k]| < settings.chunkSize)
  {
    hide *;
    WireAt(settings, pieces, 0, k);
    WireHeader(settings, pieces[k], k, k == |pieces| - 1 && |pieces[k]| < settings.chunkSize);
  }

  lemma ShortEnd(text: Bytes, size: nat)
    requires size > 0
    ensures var pieces := Split(text, size);
            pieces != [] ==> (|pieces[|pieces| - 1]| < size <==> !Multiple(|text|, size))
  {
    SplitStep(text, size);
    hide Split;
    if text != [] {
      LastPiece(text, size);
    }
  }

  lemma WireHeader(settings: Settings, data: Bytes, index: nat, isLast: bool)
    requires settings.Seal(data, index).Some?
    ensures var header := ParseChunkHeader(settings.Wire(data, index, isLast));
            header.Ok? && header.value.IsLast() == isLast && header.value.index == index % U32
  {
    hide HeaderBytes, ParseChunkHeader;
    var sealed, checksum := settings.Seal(data, index).value, settings.Checksum(data);
    var header := FrameHeader(data, sealed, index, isLast, checksum.Some?);
    var tail := if checksum.Some? then checksum.value else [];
    HeaderReadsBack(header, sealed + tail);
    assert settings.Wire(data, index, isLast) == HeaderBytes(header) + (sealed + tail);
  }

  /** Two full chunks of four bytes: no frame is marked as the last one. */
  lemma ExactMultipleUnmarked(settings: Settings)
    requires settings.chunkSize == 4 && settings.Sealable(Split(Flatten([[1, 2, 3, 4, 5], [6, 7, 8]]), 4), 0)
    ensures var frames := Sent(settings, [[1, 2, 3, 4, 5], [6, 7, 8]]);
            && |frames| == 2
            && ParseChunkHeader(frames[0]).Ok? && !ParseChunkHeader(frames[0]).value.IsLast()
            && ParseChunkHeader(frames[1]).Ok? && !ParseChunkHeader(frames[1]).value.IsLast()
  {
    var source: seq<Bytes> := [[1, 2, 3, 4, 5], [6, 7, 8]];
    assert source[1..] == [[6, 7, 8]];
    assert Flatten(source) == [1, 2, 3, 4, 5, 6, 7, 8];
    SplitOfPieces<Byte>([[1, 2, 3, 4], [5, 6, 7, 8]], 4);
    assert Flatten<Byte>([[1, 2, 3, 4], [5, 6, 7, 8]]) == [1, 2, 3, 4, 5, 6, 7, 8];
    hide Split, Flatten, WireStream, ParseChunkHeader, Header.IsLast;
    LastFlagIff(settings, source, 0);
    LastFlagIff(settings, source, 1);
  }

  /** The round trip: however the source is cut, the decrypting generator returns its text without an error
      if and only if there are at most 2^32 chunks and no chunk or ciphertext reaches 2^32 bytes. */
  lemma StreamRoundTrip(settings: Settings, receiver: Receiver, source: seq<Bytes>)
    requires settings.chunkSize > 0 && settings.Sealable(Split(Flatten(source), settings.chunkSize), 0)
    requires receiver.cipher == settings.cipher && receiver.sha == settings.sha
    requires KeyPair(settings.cipher, settings.publicKey, receiver.privateKey)
    ensures var pieces := Split(Flatten(source), settings.chunkSize);
            var r := Decrypted(receiver, Sent(settings, source), 0);
            && (r == Received(pieces, None) <==> |receiver.privateKey| == 32 && Fits(settings, pieces, 0))
            && (r == Received(pieces, None) ==> Flatten(r.pieces) == Flatten(source))
  {
    ReceiveSent(settings, receiver, Split(Flatten(source), settings.chunkSize), 0);
    SplitJoins(Flatten(source), settings.chunkSize);
  }

  /** Both generators in turn. Sending fails exactly for a wrong key length, an oversized source chunk or a failing
      encryption; what was sent comes back as the text of the source, without an error, if and only if the private key
      has 32 bytes and the header fields are wide enough. */
  method Transfer(settings: Settings, receiver: Receiver, source: seq<Bytes>)
    returns (sendError: Option<StreamError>, received: Received)
    requires settings.chunkSize > 0 && receiver.cipher == settings.cipher && receiver.sha == settings.sha
    requires KeyPair(settings.cipher, settings.publicKey, receiver.privateKey)
    ensures var pieces := Split(Flatten(source), settings.chunkSize);
            && (sendError.None? <==>
                  && (|settings.publicKey| == 65 || |settings.publicKey| == 33)
                  && (forall k :: 0 <= k < |source| ==> |source[k]| <= 100 * 1024 * 1024)
                  && settings.Sealable(pieces, 0))
            && (sendError == Some(InvalidPublicKeyLength) <==>
                  |settings.publicKey| != 65 && |settings.publicKey| != 33)
            && (sendError.None? ==>
                  (received == Received(pieces, None) <==> |receiver.privateKey| == 32 && Fits(settings, pieces, 0)))
            && (sendError.None? && received == Received(pieces, None) ==> Flatten(received.pieces) == Flatten(source))
  {
    var chunks;
    chunks, sendError := Collect(settings, source);
    PlannedSplit(settings, source);
    AcceptedIff(source);
    assert !settings.KeyLengthValid() ==> settings.Planned([], source) == Plan([], Some(InvalidPublicKeyLength));
    assert settings.Sealable([], 0) && settings.Planned([], source).failure != Some(EncryptionFailed);
    ghost var pieces := Split(Flatten(source), settings.chunkSize);
    hide Delivered, Settings.Planned, Settings.Sealable, Decrypted, KeyPair, Fits, Split, Flatten, WireStream;
    hide Accepted;
    var frames := seq(|chunks|, i requires 0 <= i < |chunks| => chunks[i].data);
    if sendError.None? {
      FramesAreSent(settings, pieces, chunks, frames);
      StreamRoundTrip(settings, receiver, source);
    }
    var plain, error := CollectPlain(receiver, frames);
    received := Received(plain, error);
  }

  /** No source chunk is too large. */
  lemma {:induction false} AcceptedIff(source: seq<Bytes>)
    ensures Accepted(source) == source <==> forall k :: 0 <= k < |source| ==> |source[k]| <= MAX_SOURCE_CHUNK
    decreases |source|
  {
    if source != [] {
      AcceptedIff(source[1..]);
      assert source == [source[0]] + source[1..];
      if |source[0]| <= MAX_SOURCE_CHUNK {
        assert Accepted(source)[1..] == Accepted(source[1..]);
      }
    }
  }

  lemma FramesAreSent(settings: Settings, pieces: seq<Bytes>, chunks: seq<EncryptedChunk>, frames: seq<Bytes>)
    requires Delivered(settings, pieces, chunks) && |chunks| == |pieces| == |frames| && settings.Sealable(pieces, 0)
    requires forall k :: 0 <= k < |frames| ==> frames[k] == chunks[k].data
    ensures frames == WireStream(settings, pieces, 0)
  {
    hide Delivered, WireStream, Settings.Sealable;
    DeliveredIsSent(settings, pieces, chunks);
  }

  lemma PlannedSplit(settings: Settings, source: seq<Bytes>)
    requires settings.chunkSize > 0
    ensures var plan := settings.Planned([], source);
            && (plan.failure.None? <==> settings.KeyLengthValid() && Accepted(source) == source)
            && (plan.failure.None? ==> plan.pieces == Split(Flatten(source), settings.chunkSize))
  {
    assert [] + Flatten(source) == Flatten(source);
  }

  /** Losing the end of a stream is not reported: every initial run of sent frames decrypts without an error
      to the same initial run of plaintexts. */
  lemma {:induction false} PrefixDecrypts(settings: Settings, receiver: Receiver, pieces: seq<Bytes>, index: nat,
                                          n: nat)
    requires receiver.cipher == settings.cipher && receiver.sha == settings.sha
    requires KeyPair(settings.cipher, settings.publicKey, receiver.privateKey)
    requires settings.Sealable(pieces, index) && Fits(settings, pieces, index) && n <= |pieces|
    ensures Receive(receiver, WireStream(settings, pieces, index)[..n], index) == Received(pieces[..n], None)
    decreases n
  {
    hide KeyPair, Header.IsLast, Receiver.Open, Settings.Seal, Settings.Wire;
    if n > 0 {
      var data, rest := pieces[0], pieces[1..];
      var frames := WireStream(settings, pieces, index);
      assert settings.Seal(data, index + 0).Some?;
      OpenWire(settings, receiver, data, index, |pieces| == 1 && |data| < settings.chunkSize);
      assert forall k :: 0 <= k < |rest| ==> rest[k] == pieces[k + 1] && index + 1 + k == index + (k + 1);
      FitsStep(settings, pieces, index);
      PrefixDecrypts(settings, receiver, rest, index + 1, n - 1);
      assert frames[..n][0] == frames[0] && frames[..n][1..] == frames[1..][..n - 1];
      assert pieces[..n] == [data] + rest[..n - 1];
    }
  }
}
