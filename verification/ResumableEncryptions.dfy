/** Pausing and resuming an encryption: the saved state names the next chunk, and a resumed run reads the
    whole source again and skips the chunks below it. */
module ResumableEncryptions {
  import opened BitOperations
  import opened ByteStrings
  import opened ChunkFormat
  import opened EncryptionStreams
  import opened Hashing
  import opened NumberTheory
  import opened Results
  import opened Sequences

  const STATE_VERSION: int := 1
  const DEFAULT_CHUNK_SIZE: nat := 1048576
  const MAX_AGE: int := 86400000

  datatype State = State(
    version: int, chunkIndex: int, bytesProcessed: nat, publicKey: string,
    chunkSize: nat, includeChecksums: bool, timestamp: int, hmac: Option<string>)

  datatype ResumeError =
    | AutoSaveIntervalMustBePositive
    | PublicKeyMismatch
    | ChunkSizeMismatch
    | IncludeChecksumsMismatch
    | NoStateToSave
    | UnsupportedStateVersion
    | InvalidChunkIndex
    | StateTooOld
    | InvalidPublicKeyInState
    | StateIntegrityCheckFailed
    | Stream(error: StreamError)

  datatype Options = Options(
    chunkSize: Option<nat>, includeChecksums: Option<bool>, autoSaveInterval: int, hasCallback: bool)
  {
    function StateChunkSize(): nat {
      if chunkSize.Some? then chunkSize.value else DEFAULT_CHUNK_SIZE
    }

    function StateChecksums(): bool {
      if includeChecksums.Some? then includeChecksums.value else false
    }

    /** The saved state names the chunk size that the stream really uses. */
    predicate TellsChunkSize(service: Service) {
      chunkSize.Some? || service.chunkSize == DEFAULT_CHUNK_SIZE
    }

    predicate TellsChecksums(service: Service) {
      includeChecksums.Some? || !service.includeChecksums
    }
  }

  /** The fixed part of the underlying stream service. */
  datatype Service = Service(cipher: Cipher, sha: Sha256, chunkSize: nat, includeChecksums: bool) {
    /** The stream falls back on its own configuration, the saved state on fixed defaults. */
    function RunSettings(publicKey: Bytes, options: Options, salts: nat -> Bytes): Settings {
      Settings(cipher, sha, publicKey,
               if options.chunkSize.Some? then options.chunkSize.value else chunkSize,
               if options.includeChecksums.Some? then options.includeChecksums.value else includeChecksums,
               salts)
    }
  }

  /** The number of chunks that the state records as done. */
  function DoneCount(state: Option<State>): int {
    if state.Some? then state.value.chunkIndex else 0
  }

  function DoneBytes(state: Option<State>): nat {
    if state.Some? then state.value.bytesProcessed else 0
  }

  /** The state agrees with the chunks of the source below its index. */
  ghost predicate Accounts(state: Option<State>, pieces: seq<Bytes>) {
    && 0 <= DoneCount(state) <= |pieces|
    && DoneBytes(state) == |Flatten(pieces[..DoneCount(state)])|
  }

  /** The checks made when the generator is first asked. */
  function StartFails(state: Option<State>, options: Options, publicKey: Bytes): (e: Option<ResumeError>)
    ensures e.Some? ==> !e.value.Stream?
  {
    if options.autoSaveInterval <= 0 then Some(AutoSaveIntervalMustBePositive)
    else if state.None? then None
    else if state.value.publicKey != BytesToHex(publicKey) then Some(PublicKeyMismatch)
    else if state.value.chunkSize != options.StateChunkSize() then Some(ChunkSizeMismatch)
    else if state.value.includeChecksums != options.StateChecksums() then Some(IncludeChecksumsMismatch)
    else None
  }

  class ResumableEncryption {
    const service: Service
    var state: Option<State>

    constructor (service: Service, state: Option<State>)
      ensures this.service == service && this.state == state
    {
      this.service, this.state := service, state;
    }
  }

  /** The stream ends with this error: some piece cannot be encrypted, or the source or key is refused. */
  ghost predicate StreamFails(settings: Settings, plan: Plan, error: StreamError) {
    || plan.failure == Some(error)
    || (error == EncryptionFailed && !settings.Sealable(plan.pieces, 0))
  }

  /** A source with chunks of at most 100 MiB, a key of 33 or 65 bytes and pieces that can be encrypted give no error of
      the stream, and the others give their own. */
  lemma StreamErrors(settings: Settings, source: seq<Bytes>, error: StreamError)
    requires settings.chunkSize > 0
    ensures var plan := settings.Planned([], source);
            var keyFits := |settings.publicKey| == 33 || |settings.publicKey| == 65;
            var small := forall k :: 0 <= k < |source| ==> |source[k]| <= 100 * 1024 * 1024;
            && (keyFits && small && settings.Sealable(plan.pieces, 0) ==> !StreamFails(settings, plan, error))
            && (!keyFits ==> (StreamFails(settings, plan, error) <==> error == InvalidPublicKeyLength))
  {
    AcceptedIff(source);
  }

  /** Nothing recorded accounts for nothing done. */
  lemma FreshStart(pieces: seq<Bytes>)
    ensures Accounts(None, pieces) && DoneCount(None) == 0
  {
    assert pieces[..0] == [];
  }

  datatype RunPhase = NotStarted | Skipping | Ended

  datatype RunStep = Yielded(chunk: EncryptedChunk) | RunDone | RunThrew(error: ResumeError)

  /** One call of encrypt(), as a step machine around the stream's step machine. */
  class ResumableRun {
    const owner: ResumableEncryption
    const settings: Settings
    const options: Options
    const inner: EncryptGenerator
    ghost const source: seq<Bytes>
    ghost const plan: Plan
    var phase: RunPhase
    var startIndex: int
    var chunkIndex: int
    var unaccounted: EncryptedChunk?
    var saved: seq<State>

    constructor (owner: ResumableEncryption, source: seq<Bytes>, publicKey: Bytes, options: Options,
                 salts: nat -> Bytes)
      requires owner.service.RunSettings(publicKey, options, salts).chunkSize > 0
      ensures this.owner == owner && this.options == options
      ensures settings == owner.service.RunSettings(publicKey, options, salts)
      ensures plan == settings.Planned([], source)
      ensures Valid() && phase == NotStarted && fresh(inner) && inner.Shared() == {} && saved == []
    {
      var s := owner.service.RunSettings(publicKey, options, salts);
      this.owner, this.settings, this.options := owner, s, options;
      inner := new EncryptGenerator(s, source);
      this.source, plan := source, s.Planned([], source);
      phase, startIndex, chunkIndex, unaccounted, saved := NotStarted, 0, 0, null, [];
    }

    /** Chunks taken from the stream so far. */
    ghost function Taken(): int
      reads this
    {
      if unaccounted == null then chunkIndex else chunkIndex + 1
    }

    /** The stream has delivered the first k pieces. */
    ghost predicate StreamAt(k: int)
      reads inner
    {
      && inner.Valid() && 0 <= k <= |plan.pieces|
      && inner.phase != Finished
      && inner.Upcoming() == plan.(pieces := plan.pieces[k..])
      && (inner.phase == Running ==> inner.chunkIndex == k)
    }

    ghost predicate Valid()
      reads this, owner, inner
    {
      && inner.Valid() && inner.settings == settings && plan == settings.Planned([], source)
      && 0 <= chunkIndex <= Taken() <= |plan.pieces|
      && (phase != Ended ==> StreamAt(Taken()))
      && (unaccounted != null ==>
           && phase == Skipping && chunkIndex >= startIndex
           && unaccounted.index == chunkIndex
           && unaccounted.originalSize == |plan.pieces[chunkIndex]|)
      && (phase == NotStarted ==> chunkIndex == 0 && unaccounted == null)
      && (phase == Skipping ==> 0 <= startIndex && options.autoSaveInterval > 0)
      && (phase == Skipping ==> DoneCount(owner.state) == if chunkIndex < startIndex then startIndex else chunkIndex)
    }

    function StartError(): Option<ResumeError>
      reads owner
    {
      StartFails(owner.state, options, settings.publicKey)
    }

    /** The state after the consumer has come back from a chunk. */
    function Advanced(state: Option<State>, chunk: EncryptedChunk, now: int): State {
      State(STATE_VERSION, chunk.index + 1, DoneBytes(state) + chunk.originalSize, BytesToHex(settings.publicKey),
            options.StateChunkSize(), options.StateChecksums(), now, None)
    }

    /** Records the chunk that the consumer has come back from. */
    method Settle(now: int)
      requires Valid() && phase == Skipping && unaccounted != null
      modifies this`saved, this`chunkIndex, this`unaccounted, owner
      ensures Valid() && unaccounted == null
      ensures owner.state == Some(Advanced(old(owner.state), old(unaccounted), now))
      ensures saved == if options.hasCallback && DoneCount(owner.state) % options.autoSaveInterval == 0
                       then old(saved) + [owner.state.value] else old(saved)
      ensures old(Accounts(owner.state, plan.pieces)) ==> Accounts(owner.state, plan.pieces)
    {
      hide Settings.Planned, Flatten, ResumableRun.StreamAt, BytesToHex;
      FlattenTake(plan.pieces, chunkIndex);
      owner.state := Some(Advanced(owner.state, unaccounted, now));
      if options.hasCallback && (unaccounted.index + 1) % options.autoSaveInterval == 0 {
        saved := saved + [owner.state.value];
      }
      chunkIndex, unaccounted := chunkIndex + 1, null;
    }

    /** Asks the stream once. */
    method Ask(ghost k: nat) returns (r: Step<EncryptedChunk>)
      requires settings.chunkSize > 0 && inner.settings == settings
      requires plan == settings.Planned([], source) && StreamAt(k)
      modifies inner, inner.Shared()
      ensures inner.Valid() && fresh(inner.Shared() - old(inner.Shared()))
      ensures r.Yield? ==>
        && fresh(r.value) && k < |plan.pieces| && StreamAt(k + 1)
        && r.value.index == k && r.value.originalSize == |plan.pieces[k]|
        && r.value.Carries(settings, plan.pieces[k], k == |plan.pieces| - 1 && |plan.pieces[k]| < settings.chunkSize)
      ensures r.Done? ==> k == |plan.pieces| && plan.failure.None?
      ensures r.Throw? ==> StreamFails(settings, plan, r.error)
    {
      hide EncryptedChunk.Carries, Settings.Planned;
      PieceShape(settings, source, k);
      r := inner.Next();
    }

    /** Takes chunks from the stream, passing over those below the start index, up to the one to yield. */
    method Pull() returns (step: RunStep)
      requires Valid() && phase == Skipping && unaccounted == null
      modifies this`phase, this`chunkIndex, this`unaccounted, inner, inner.Shared()
      ensures Valid() && fresh(inner.Shared() - old(inner.Shared()))
      ensures step.Yielded? ==>
        && fresh(step.chunk) && unaccounted == step.chunk && phase == Skipping
        && step.chunk.index == DoneCount(owner.state) < |plan.pieces|
        && step.chunk.Carries(settings, plan.pieces[step.chunk.index],
             step.chunk.index == |plan.pieces| - 1 && |plan.pieces[step.chunk.index]| < settings.chunkSize)
      ensures !step.Yielded? ==> phase == Ended && unaccounted == null
      ensures step.RunDone? ==> DoneCount(owner.state) >= |plan.pieces| && plan.failure.None?
      ensures step.RunThrew? ==> step.error.Stream? && StreamFails(settings, plan, step.error.error)
    {
      hide EncryptedChunk.Carries, Settings.Planned, StreamAt;
      while true
        invariant Valid() && phase == Skipping && unaccounted == null
        invariant fresh(inner.Shared() - old(inner.Shared()))
        decreases |plan.pieces| - chunkIndex
      {
        var r := Ask(chunkIndex);
        match r
        case Yield(chunk) =>
          if chunkIndex < startIndex {
            chunkIndex := chunkIndex + 1;
          } else {
            unaccounted := chunk;
            return Yielded(chunk);
          }
        case Done =>
          phase := Ended;
          return RunDone;
        case Throw(e) =>
          phase := Ended;
          return RunThrew(Stream(e));
      }
    }

    /** Runs to the next suspension. The chunk yielded before is recorded only now that the consumer has come
        back; then chunks below the start index are passed over without being yielded. */
    method Next(now: int) returns (step: RunStep)
      requires Valid() && DoneCount(owner.state) >= 0
      modifies this, owner, inner, inner.Shared()
      ensures Valid() && fresh(inner.Shared() - old(inner.Shared()))
      ensures old(unaccounted) == null ==> unchanged(owner)
      ensures old(unaccounted) != null ==> owner.state == Some(Advanced(old(owner.state), old(unaccounted), now))
      ensures saved == if old(unaccounted) != null && options.hasCallback
                          && options.autoSaveInterval > 0 && DoneCount(owner.state) % options.autoSaveInterval == 0
                       then old(saved) + [owner.state.value] else old(saved)
      ensures old(Accounts(owner.state, plan.pieces)) ==> Accounts(owner.state, plan.pieces)
      ensures step.Yielded? ==>
        && fresh(step.chunk) && unaccounted == step.chunk && phase == Skipping
        && step.chunk.index == DoneCount(owner.state) < |plan.pieces|
        && step.chunk.Carries(settings, plan.pieces[step.chunk.index],
             step.chunk.index == |plan.pieces| - 1 && |plan.pieces[step.chunk.index]| < settings.chunkSize)
      ensures !step.Yielded? ==> phase == Ended && unaccounted == null
      ensures step.RunDone? && old(phase) != Ended ==>
        DoneCount(owner.state) >= |plan.pieces| && plan.failure.None?
      ensures old(phase) == NotStarted && old(StartError()).Some? ==> step == RunThrew(old(StartError()).value)
      ensures step.RunThrew? && !(old(phase) == NotStarted && old(StartError()).Some?) ==>
        step.error.Stream? && StreamFails(settings, plan, step.error.error)
    {
      hide EncryptedChunk.Carries, Settings.Planned;
      if phase == Ended {
        return RunDone;
      }
      if phase == NotStarted {
        var error := StartError();
        if error.Some? {
          phase := Ended;
          return RunThrew(error.value);
        }
        startIndex := DoneCount(owner.state);
        phase := Skipping;
      }
      if unaccounted != null {
        Settle(now);
      }
      step := Pull();
    }
  }

  lemma PieceShape(settings: Settings, source: seq<Bytes>, k: nat)
    requires settings.chunkSize > 0
    ensures var pieces := settings.Planned([], source).pieces;
            && (k < |pieces| ==> 0 < |pieces[k]| <= settings.chunkSize)
            && (k < |pieces| - 1 ==> |pieces[k]| == settings.chunkSize)
            && (k < |pieces| ==> pieces[k..][0] == pieces[k] && pieces[k..][1..] == pieces[k + 1..])
  {
    hide Ahead;
    AheadShape([], source, settings.chunkSize);
  }

  // ---------- Interrupted runs ----------

  /** These chunks carry the pieces from `start` on, under their own indices. */
  ghost predicate Continues(settings: Settings, pieces: seq<Bytes>, start: int, chunks: seq<EncryptedChunk>) {
    && 0 <= start && (chunks != [] ==> start + |chunks| <= |pieces|)
    && forall j :: 0 <= j < |chunks| ==>
         && chunks[j].index == start + j
         && chunks[j].Carries(settings, pieces[start + j],
                              start + j == |pieces| - 1 && |pieces[start + j]| < settings.chunkSize)
  }

  /** Every chunk carries the piece of its own index. */
  ghost predicate CarriesPieces(settings: Settings, pieces: seq<Bytes>, chunks: seq<EncryptedChunk>) {
    forall chunk :: chunk in chunks ==>
      && chunk.index < |pieces|
      && chunk.Carries(settings, pieces[chunk.index],
                       chunk.index == |pieces| - 1 && |pieces[chunk.index]| < settings.chunkSize)
  }

  lemma ContinuesCarries(settings: Settings, pieces: seq<Bytes>, start: int, chunks: seq<EncryptedChunk>)
    requires Continues(settings, pieces, start, chunks)
    ensures CarriesPieces(settings, pieces, chunks)
  {
    hide EncryptedChunk.Carries;
  }

  /** The state carries what a run with these options records of its settings. */
  predicate RecordedUnder(state: Option<State>, options: Options) {
    && state.Some?
    && state.value.chunkSize == options.StateChunkSize() && state.value.includeChecksums == options.StateChecksums()
  }

  /** A consumer that asks at most this often and then walks away. */
  method RunInterrupted(owner: ResumableEncryption, source: seq<Bytes>, publicKey: Bytes, options: Options,
                        salts: nat -> Bytes, requests: nat, now: int)
    returns (chunks: seq<EncryptedChunk>, ended: bool, error: Option<ResumeError>)
    requires owner.service.RunSettings(publicKey, options, salts).chunkSize > 0 && DoneCount(owner.state) >= 0
    modifies owner
    ensures var settings := owner.service.RunSettings(publicKey, options, salts);
            var plan := settings.Planned([], source);
            var start := DoneCount(old(owner.state));
            && Continues(settings, plan.pieces, start, chunks)
            && DoneCount(owner.state) == start + |chunks| - (if ended || chunks == [] then 0 else 1)
            && (old(Accounts(owner.state, plan.pieces)) ==> Accounts(owner.state, plan.pieces))
            && (ended && error.None? ==> DoneCount(owner.state) >= |plan.pieces| && plan.failure.None?)
            && (ended && error.None? ==> old(StartFails(owner.state, options, publicKey)).None?)
            && (owner.state == old(owner.state) || RecordedUnder(owner.state, options))
            && (!ended ==> |chunks| == requests && error.None?)
            && (error.Some? && error.value.Stream? ==> StreamFails(settings, plan, error.value.error))
            && (error.Some? && !error.value.Stream? ==> old(StartFails(owner.state, options, publicKey)) == error)
  {
    hide EncryptedChunk.Carries, Settings.Planned, Accounts, ResumableRun.StreamAt, StartFails, StreamFails;
    var run := new ResumableRun(owner, source, publicKey, options, salts);
    ghost var start, pieces := DoneCount(owner.state), run.plan.pieces;
    chunks, ended, error := [], false, None;
    while |chunks| < requests
      invariant run.Valid() && fresh(run) && fresh(run.inner) && fresh(run.inner.Shared())
      invariant run.owner == owner && run.settings == owner.service.RunSettings(publicKey, options, salts)
      invariant run.plan == run.settings.Planned([], source) && run.plan.pieces == pieces
      invariant Continues(run.settings, pieces, start, chunks)
      invariant DoneCount(owner.state) == start + |chunks| - if chunks == [] then 0 else 1
      invariant chunks != [] <==> run.unaccounted != null
      invariant chunks == [] ==> run.phase == NotStarted && owner.state == old(owner.state)
      invariant old(Accounts(owner.state, pieces)) ==> Accounts(owner.state, pieces)
      invariant owner.state == old(owner.state) || RecordedUnder(owner.state, options)
      invariant run.options == options
      invariant chunks != [] ==> old(StartFails(owner.state, options, publicKey)).None?
      invariant !ended && error.None? && run.phase != Ended && |chunks| <= requests
    {
      var step := run.Next(now);
      match step
      case Yielded(chunk) => chunks := chunks + [chunk];
      case RunDone => ended := true; break;
      case RunThrew(e) => ended, error := true, Some(e); break;
    }
  }

  /** One attempt of a session: the service and options it is made with, how the source is cut this time, the
      randomness, and when the consumer leaves. */
  datatype Attempt = Attempt(
    service: Service, options: Options, source: seq<Bytes>, salts: nat -> Bytes, requests: nat)
  {
    function RunSettings(publicKey: Bytes): Settings {
      service.RunSettings(publicKey, options, salts)
    }
  }

  /** All attempts cut their text into the same pieces. */
  ghost predicate SamePieces(publicKey: Bytes, attempts: seq<Attempt>, pieces: seq<Bytes>) {
    forall a :: a in attempts ==>
      a.RunSettings(publicKey).chunkSize > 0 && a.RunSettings(publicKey).Planned([], a.source).pieces == pieces
  }

  /** However a source is cut, as long as no cut is oversized, the pieces are the split of its text. */
  lemma CutsDoNotMatter(settings: Settings, source: seq<Bytes>)
    requires settings.chunkSize > 0 && settings.KeyLengthValid() && Accepted(source) == source
    ensures settings.Planned([], source) == Plan(Split(Flatten(source), settings.chunkSize), None)
  {
    assert [] + Flatten(source) == Flatten(source);
  }

  function Total(out: seq<seq<EncryptedChunk>>): nat
    decreases |out|
  {
    if out == [] then 0 else Total(out[..|out| - 1]) + |out[|out| - 1]|
  }

  ghost predicate Covered(out: seq<seq<EncryptedChunk>>, k: int) {
    exists r, j :: 0 <= r < |out| && 0 <= j < |out[r]| && out[r][j].index == k
  }

  /** Each of these chunks was delivered in some run. */
  ghost predicate CoveredRange(out: seq<seq<EncryptedChunk>>, from: int, to: int) {
    forall k :: from <= k < to ==> Covered(out, k)
  }

  /** In every run each chunk carries the piece of its index. */
  ghost predicate AllCarry(publicKey: Bytes, attempts: seq<Attempt>, pieces: seq<Bytes>,
                           out: seq<seq<EncryptedChunk>>)
  {
    |out| <= |attempts|
    && forall r :: 0 <= r < |out| ==> CarriesPieces(attempts[r].RunSettings(publicKey), pieces, out[r])
  }

  predicate OpensTo(service: Service, privateKey: Bytes, frame: Bytes, piece: Bytes, index: nat) {
    var result := OpenChunk(service.cipher, service.sha, privateKey, frame);
    result.Ok? && result.value.0 == piece && result.value.1.index == index
  }

  /** What the recipient makes of a session: for every piece that counts as done some delivered chunk opens to it, and
      shows its index, as long as sizes and index fit 32 bits. */
  lemma DeliveredPieceOpens(publicKey: Bytes, privateKey: Bytes, attempts: seq<Attempt>, pieces: seq<Bytes>,
                            out: seq<seq<EncryptedChunk>>, from: nat, to: nat, k: nat)
    requires CoveredRange(out, from, to) && AllCarry(publicKey, attempts, pieces, out) && from <= k < to
    requires k < |pieces| && |pieces[k]| < U32 && k < U32
    requires forall a :: a in attempts ==>
      && KeyPair(a.service.cipher, publicKey, privateKey)
      && forall salt :: a.service.cipher.seal(publicKey, salt, pieces[k]).Some? ==>
         |a.service.cipher.seal(publicKey, salt, pieces[k]).value| < U32
    ensures exists r, j :: 0 <= r < |out| <= |attempts| && 0 <= j < |out[r]| &&
                           OpensTo(attempts[r].service, privateKey, out[r][j].data, pieces[k], k)
  {
    assert Covered(out, k);
    var r, j :| 0 <= r < |out| && 0 <= j < |out[r]| && out[r][j].index == k;
    assert attempts[r] in attempts;
    var settings, chunk := attempts[r].RunSettings(publicKey), out[r][j];
    assert CarriesPieces(settings, pieces, out[r]) && chunk in out[r];
    CarriedChunk(chunk, settings, pieces[k], k == |pieces| - 1 && |pieces[k]| < settings.chunkSize, privateKey);
    hide OpenChunk, KeyPair, EncryptedChunk.Carries;
  }

  /** Pausing and resuming loses nothing: after any number of interrupted runs that cut one text into the same pieces,
      each handed the state of the one before, the state accounts for its chunks, every chunk it counts as done was
      delivered in some run, and the runs repeated at most one chunk each. When the last one ends without an error,
      all pieces are done. */
  method Session(first: Option<State>, publicKey: Bytes, attempts: seq<Attempt>, ghost pieces: seq<Bytes>, now: int)
    returns (out: seq<seq<EncryptedChunk>>, last: Option<State>, ended: bool, error: Option<ResumeError>)
    requires SamePieces(publicKey, attempts, pieces) && Accounts(first, pieces)
    ensures Accounts(last, pieces) && |out| == |attempts|
    ensures DoneCount(first) <= DoneCount(last) <= DoneCount(first) + Total(out) <= DoneCount(last) + |attempts|
    ensures CoveredRange(out, DoneCount(first), DoneCount(last)) && AllCarry(publicKey, attempts, pieces, out)
    ensures ended && error.None? ==> DoneCount(last) == |pieces|
    ensures !ended && attempts != [] ==> |out[|out| - 1]| == attempts[|out| - 1].requests && error.None?
    ensures attempts == [] ==> !ended
  {
    hide EncryptedChunk.Carries, Settings.Planned, Accounts, Service.RunSettings, CarriesPieces;
    hide StartFails, StreamFails, RecordedUnder, CoveredRange, AllCarry, Continues;
    AccountsBounds(first, pieces);
    NothingCovered(publicKey, attempts, pieces, DoneCount(first));
    out, last, ended, error := [], first, false, None;
    for i := 0 to |attempts|
      invariant |out| == i && Accounts(last, pieces)
      invariant DoneCount(first) <= DoneCount(last) <= DoneCount(first) + Total(out) <= DoneCount(last) + i
      invariant CoveredRange(out, DoneCount(first), DoneCount(last)) && AllCarry(publicKey, attempts, pieces, out)
      invariant ended && error.None? ==> DoneCount(last) == |pieces|
      invariant !ended && i > 0 ==> |out[i - 1]| == attempts[i - 1].requests && error.None?
      invariant i == 0 ==> !ended
    {
      var a := attempts[i];
      ghost var start: int := DoneCount(last);
      ghost var before: seq<seq<EncryptedChunk>> := out;
      var owner := new ResumableEncryption(a.service, last);
      var chunks;
      chunks, ended, error := RunInterrupted(owner, a.source, publicKey, a.options, a.salts, a.requests, now);
      last := owner.state;
      AccountsBounds(last, pieces);
      CoveredGrows(publicKey, attempts, pieces, before, chunks, DoneCount(first), start, DoneCount(last));
      out := out + [chunks];
      assert out[..|out| - 1] == before;
    }
  }

  lemma NothingCovered(publicKey: Bytes, attempts: seq<Attempt>, pieces: seq<Bytes>, from: int)
    ensures CoveredRange([], from, from) && AllCarry(publicKey, attempts, pieces, [])
  {
  }

  lemma CoveredGrows(publicKey: Bytes, attempts: seq<Attempt>, pieces: seq<Bytes>, out: seq<seq<EncryptedChunk>>,
                     more: seq<EncryptedChunk>, from: int, start: int, to: int)
    requires CoveredRange(out, from, start) && to <= start + |more|
    requires AllCarry(publicKey, attempts, pieces, out) && |out| < |attempts|
    requires Continues(attempts[|out|].RunSettings(publicKey), pieces, start, more)
    ensures CoveredRange(out + [more], from, to) && AllCarry(publicKey, attempts, pieces, out + [more])
  {
    hide EncryptedChunk.Carries;
    ContinuesCarries(attempts[|out|].RunSettings(publicKey), pieces, start, more);
    forall k | from <= k < to
      ensures Covered(out + [more], k)
    {
      if k < start {
        assert Covered(out, k);
        var r, j :| 0 <= r < |out| && 0 <= j < |out[r]| && out[r][j].index == k;
        assert (out + [more])[r][j].index == k;
      } else {
        assert (out + [more])[|out|][k - start].index == k;
      }
    }
  }

  lemma AccountsBounds(state: Option<State>, pieces: seq<Bytes>)
    requires Accounts(state, pieces)
    ensures 0 <= DoneCount(state) <= |pieces|
  {
  }

  // ---------- Saved states ----------

  function Decimal(n: int): (s: string)
    decreases if n < 0 then 1 - n else n
  {
    if n < 0 then "-" + Decimal(-n)
    else if n < 10 then [('0' as int + n) as char]
    else Decimal(n / 10) + [('0' as int + n % 10) as char]
  }

  /** The text that the integrity value covers; the integrity value itself is not part of it. */
  function StateText(state: State): string {
    Progress(state) + state.publicKey + Circumstances(state)
  }

  function Progress(state: State): string {
    Decimal(state.version) + "|" + Decimal(state.chunkIndex) + "|" + Decimal(state.bytesProcessed) + "|"
  }

  function Circumstances(state: State): string {
    "|" + Decimal(state.chunkSize) + "|" + (if state.includeChecksums then "true" else "false")
    + "|" + Decimal(state.timestamp)
  }

  /** All bytes added modulo 2 into 32 places, in turn. */
  function XorFold(bytes: Bytes): (hash: Bytes)
    ensures |hash| == 32
  {
    if bytes == [] then seq(32, i => 0)
    else
      var i, hash := |bytes| - 1, XorFold(bytes[..|bytes| - 1]);
      hash[i % 32 := Xor(hash[i % 32], bytes[i])]
  }

  /** utf8 stands for TextEncoder. */
  function StateHash(utf8: string -> Bytes, state: State): string {
    BytesToHex(XorFold(utf8(StateText(state))))
  }

  method CalculateHash(bytes: Bytes) returns (hash: array<Byte>)
    ensures fresh(hash) && hash[..] == XorFold(bytes)
  {
    hide Xor;
    hash := new Byte[32](_ => 0);
    var i := 0;
    assert hash[..] == XorFold(bytes[..0]);
    while i < |bytes|
      invariant 0 <= i <= |bytes| && hash[..] == XorFold(bytes[..i])
    {
      assert bytes[..i + 1][..i] == bytes[..i];
      hash[i % 32] := Xor(hash[i % 32], bytes[i]);
      i := i + 1;
    }
    assert bytes[..i] == bytes;
  }

  /** A change of the byte at i adds the difference into place i mod 32. */
  lemma {:induction false} FoldChange(x: Bytes, i: nat, b: Byte)
    requires i < |x|
    ensures var h, p := XorFold(x), i % 32;
            XorFold(x[i := b]) == h[p := Xor(h[p], Xor(x[i], b))]
    decreases |x|
  {
    hide Xor;
    var last := |x| - 1;
    var h, p, q := XorFold(x[..last]), i % 32, last % 32;
    var y := x[i := b];
    if i < last {
      FoldChange(x[..last], i, b);
      assert y[..last] == x[..last][i := b];
      XorLaws(h[p], Xor(x[i], b), x[last]);
      XorLaws(h[p], x[last], Xor(x[i], b));
      XorLaws(Xor(x[i], b), x[last], 0);
    } else {
      assert y[..last] == x[..last];
      XorLaws(h[p], x[i], Xor(x[i], b));
      XorLaws(x[i], x[i], b);
      XorLaws(b, 0, 0);
      XorLaws(0, b, 0);
    }
  }

  /** Up to 32 bytes stand in the fold as they are, with zeros behind them. */
  lemma {:induction false} ShortFold(x: Bytes, p: nat)
    requires |x| <= 32 && p < 32
    ensures XorFold(x)[p] == if p < |x| then x[p] else 0
    decreases |x|
  {
    hide Xor;
    if x != [] {
      ShortFold(x[..|x| - 1], p);
      ShortFold(x[..|x| - 1], |x| - 1);
      XorLaws(x[|x| - 1], 0, 0);
      XorLaws(0, x[|x| - 1], 0);
    }
  }

  /** Blocks of 32 bytes are added place by place. */
  lemma {:induction false} FoldBlocks(block: Bytes, x: Bytes, p: nat)
    requires |block| == 32 && p < 32
    ensures XorFold(block + x)[p] == Xor(block[p], XorFold(x)[p])
    decreases |x|
  {
    hide Xor;
    if x == [] {
      assert block + x == block;
      ShortFold(block, p);
      XorLaws(block[p], 0, 0);
    } else {
      var last := |x| - 1;
      FoldBlocks(block, x[..last], p);
      assert (block + x)[..|block + x| - 1] == block + x[..last];
      if p == last % 32 {
        XorLaws(block[p], XorFold(x[..last])[p], x[last]);
      }
    }
  }

  /** A change of one byte of the covered text always changes the integrity value. */
  lemma ByteChangeChangesHash(x: Bytes, i: nat, b: Byte)
    requires i < |x| && x[i] != b
    ensures XorFold(x[i := b]) != XorFold(x)
  {
    hide Xor, XorFold;
    FoldChange(x, i, b);
    ChangeShows(XorFold(x)[i % 32], x[i], b);
  }

  lemma ChangeShows(h: Byte, a: Byte, b: Byte)
    ensures Xor(h, Xor(a, b)) == h <==> a == b
  {
    hide Xor;
    XorLaws(h, 0, 0);
    XorCancels(Xor(a, b), 0, h);
    XorLaws(a, b, 0);
  }

  /** A change of two bytes goes unnoticed exactly when their places agree modulo 32 and both differences are equal. */
  lemma TwoChangesIff(x: Bytes, i: nat, b: Byte, j: nat, c: Byte)
    requires i < |x| && j < |x| && i != j && x[i] != b && x[j] != c
    ensures XorFold(x[i := b][j := c]) == XorFold(x) <==> i % 32 == j % 32 && Xor(x[i], b) == Xor(x[j], c)
  {
    hide Xor, XorFold;
    var h, p, q := XorFold(x), i % 32, j % 32;
    var d, e := Xor(x[i], b), Xor(x[j], c);
    FoldChange(x, i, b);
    FoldChange(x[i := b], j, c);
    XorLaws(h[p], d, e);
    ChangeShows(h[p], d, e);
    ChangeShows(h[p], x[i], b);
  }

  /** An altered state that validates like the saved one: two zeros of its public key, 32 places apart, have become
      ones. */
  lemma AlteredStateValidates(utf8: string -> Bytes, state: State, i: nat, now: int)
    requires forall s :: IsAscii(s) ==> utf8(s) == Encode(s)
    requires IsAscii(state.publicKey) && i + 32 < |state.publicKey|
    requires state.publicKey[i] == '0' && state.publicKey[i + 32] == '0'
    ensures var saved := state.(hmac := Some(StateHash(utf8, state)));
            var altered := saved.(publicKey := state.publicKey[i := '1'][i + 32 := '1']);
            altered != saved && ValidateState(utf8, altered, now) == ValidateState(utf8, saved, now)
  {
    var saved := state.(hmac := Some(StateHash(utf8, state)));
    var altered := saved.(publicKey := state.publicKey[i := '1'][i + 32 := '1']);
    SavedText(state, StateHash(utf8, state));
    var k := AlteredKeyText(saved, i);
    StateTextIsAscii(state);
    hide StateText, IsAscii, Encode, XorFold, BytesToHex;
    AlteredText(StateText(state), k);
  }

  /** The integrity value is not part of the text that it covers. */
  lemma SavedText(state: State, hash: string)
    ensures StateText(state.(hmac := Some(hash))) == StateText(state)
  {
  }

  lemma AlteredKeyText(state: State, i: nat) returns (k: nat)
    requires i + 32 < |state.publicKey|
    ensures var altered := state.(publicKey := state.publicKey[i := '1'][i + 32 := '1']);
            && k + 32 < |StateText(state)|
            && StateText(state)[k] == state.publicKey[i] && StateText(state)[k + 32] == state.publicKey[i + 32]
            && StateText(altered) == StateText(state)[k := '1'][k + 32 := '1']
  {
    var before, key, after := Progress(state), state.publicKey, Circumstances(state);
    var altered := state.(publicKey := key[i := '1'][i + 32 := '1']);
    assert Progress(altered) == before && Circumstances(altered) == after;
    hide Progress, Circumstances;
    ChangedInside(before, key, after, i, '1');
    ChangedInside(before, key[i := '1'], after, i + 32, '1');
    ChangedInside(before, key, after, i + 32, '1');
    k := |before| + i;
  }

  lemma AlteredText(text: string, k: nat)
    requires IsAscii(text) && k + 32 < |text| && text[k] == '0' && text[k + 32] == '0'
    ensures var altered := text[k := '1'][k + 32 := '1'];
            IsAscii(altered) && XorFold(Encode(altered)) == XorFold(Encode(text))
  {
    hide XorFold;
    var bytes := Encode(text);
    assert Encode(text[k := '1'][k + 32 := '1']) == bytes[k := 49][k + 32 := 49];
    TwoChangesIff(bytes, k, 49, k + 32, 49);
  }

  lemma ChangedInside(a: string, s: string, b: string, i: nat, c: char)
    requires i < |s|
    ensures (a + s + b)[|a| + i] == s[i] && (a + s + b)[|a| + i := c] == a + s[i := c] + b
  {
  }

  lemma StateTextIsAscii(state: State)
    requires IsAscii(state.publicKey)
    ensures IsAscii(StateText(state))
  {
    DecimalIsAscii(state.version);
    DecimalIsAscii(state.chunkIndex);
    DecimalIsAscii(state.bytesProcessed);
    DecimalIsAscii(state.chunkSize);
    DecimalIsAscii(state.timestamp);
  }

  lemma {:induction false} DecimalIsAscii(n: int)
    ensures IsAscii(Decimal(n))
    decreases if n < 0 then 1 - n else n
  {
    if n < 0 {
      DecimalIsAscii(-n);
    } else if n >= 10 {
      DecimalIsAscii(n / 10);
    }
  }

  /** The first check that a state to resume from fails, if any. */
  function ValidateState(utf8: string -> Bytes, state: State, now: int): Option<ResumeError> {
    if state.version != STATE_VERSION then Some(UnsupportedStateVersion)
    else if state.chunkIndex < 0 then Some(InvalidChunkIndex)
    else if now - state.timestamp > MAX_AGE then Some(StateTooOld)
    else if state.publicKey == "" then Some(InvalidPublicKeyInState)
    else if state.hmac.Some? && state.hmac.value != "" && state.hmac.value != StateHash(utf8, state) then
      Some(StateIntegrityCheckFailed)
    else None
  }

  method SaveState(owner: ResumableEncryption, utf8: string -> Bytes) returns (r: Result<State, ResumeError>)
    ensures r.Err? <==> owner.state.None?
    ensures r.Err? ==> r.error == NoStateToSave
    ensures r.Ok? ==> r.value == owner.state.value.(hmac := Some(StateHash(utf8, owner.state.value)))
  {
    if owner.state.None? { return Err(NoStateToSave); }
    var state := owner.state.value;
    var bytes := utf8(StateText(state));
    var hash := CalculateHash(bytes);
    return Ok(state.(hmac := Some(BytesToHex(hash[..]))));
  }

  method Resume(service: Service, utf8: string -> Bytes, state: State, now: int)
    returns (r: Result<ResumableEncryption, ResumeError>)
    ensures r.Ok? <==> ValidateState(utf8, state, now).None?
    ensures r.Err? ==> Some(r.error) == ValidateState(utf8, state, now)
    ensures r.Ok? ==> fresh(r.value) && r.value.service == service && r.value.state == Some(state)
  {
    var error := ValidateState(utf8, state, now);
    if error.Some? { return Err(error.value); }
    var resumed := new ResumableEncryption(service, Some(state));
    return Ok(resumed);
  }

  /** A state that a run has just recorded passes validation after saving for exactly one day, and the saved
      copy accounts for the same chunks. */
  lemma SavedStateValidates(run: ResumableRun, state: Option<State>, chunk: EncryptedChunk, utf8: string -> Bytes,
                            recorded: int, now: int, pieces: seq<Bytes>)
    requires run.settings.publicKey != []
    ensures var advanced := run.Advanced(state, chunk, recorded);
            var saved := advanced.(hmac := Some(StateHash(utf8, advanced)));
            && (ValidateState(utf8, saved, now).None? <==> now - recorded <= MAX_AGE)
            && (Accounts(Some(saved), pieces) <==> Accounts(Some(advanced), pieces))
  {
    var advanced := run.Advanced(state, chunk, recorded);
    SavedText(advanced, StateHash(utf8, advanced));
  }

  /** Pieces left after passing over the first ones. */
  function SkipDone(pieces: seq<Bytes>, done: nat): seq<Bytes> {
    if done <= |pieces| then pieces[done..] else []
  }

  // ---------- What the integrity text determines ----------

  lemma {:induction false} NoBar(n: int)
    ensures '|' !in Decimal(n) && Decimal(n) != ""
    decreases if n < 0 then 1 - n else n
  {
    if n < 0 {
      NoBar(-n);
    } else if n >= 10 {
      NoBar(n / 10);
    }
  }

  lemma {:induction false} NoSign(n: nat)
    ensures Decimal(n)[0] != '-' && (n < 10 <==> |Decimal(n)| == 1)
  {
    NoBar(n / 10);
    if n >= 10 {
      NoSign(n / 10);
    }
  }

  /** Different numbers have different decimal text. */
  lemma {:induction false} DecimalInjective(m: int, n: int)
    requires Decimal(m) == Decimal(n)
    ensures m == n
    decreases if m < 0 then 1 - m else m
  {
    if m < 0 && n < 0 {
      assert Decimal(m)[1..] == Decimal(-m) && Decimal(n)[1..] == Decimal(-n);
      DecimalInjective(-m, -n);
    } else if m < 0 || n < 0 {
      NoSign(if m < 0 then n else m);
    } else {
      NoSign(m);
      NoSign(n);
      if m >= 10 {
        var s, t := Decimal(m), Decimal(n);
        assert s[..|s| - 1] == Decimal(m / 10) && t[..|t| - 1] == Decimal(n / 10);
        assert s[|s| - 1] == ('0' as int + m % 10) as char && t[|t| - 1] == ('0' as int + n % 10) as char;
        DecimalInjective(m / 10, n / 10);
        assert m == m / 10 * 10 + m % 10 && n == n / 10 * 10 + n % 10;
      }
    }
  }

  /** Text up to the first bar. */
  lemma SplitAtBar(a: string, x: string, b: string, y: string)
    requires '|' !in a && '|' !in b && a + "|" + x == b + "|" + y
    ensures a == b && x == y
  {
    FirstBar(a, x);
    FirstBar(b, y);
    assert |a| == |b|;
    var s := a + "|" + x;
    assert s[..|a|] == a && (b + "|" + y)[..|b|] == b;
    assert s[|a| + 1..] == x && (b + "|" + y)[|b| + 1..] == y;
  }

  lemma FirstBar(a: string, x: string)
    requires '|' !in a
    ensures var s := a + "|" + x;
            |a| < |s| && s[|a|] == '|' && forall i :: 0 <= i < |a| ==> s[i] != '|'
  {
  }

  lemma SplitNumbers(m: int, x: string, n: int, y: string)
    requires Decimal(m) + "|" + x == Decimal(n) + "|" + y
    ensures m == n && x == y
  {
    NoBar(m);
    NoBar(n);
    SplitAtBar(Decimal(m), x, Decimal(n), y);
    DecimalInjective(m, n);
  }

  function Flag(b: bool): string {
    if b then "true" else "false"
  }

  lemma StateTextParts(s: State)
    ensures StateText(s) ==
      Decimal(s.version) + "|" + (Decimal(s.chunkIndex) + "|" + (Decimal(s.bytesProcessed) + "|" + (s.publicKey + "|" +
      (Decimal(s.chunkSize) + "|" + (Flag(s.includeChecksums) + "|" + Decimal(s.timestamp))))))
  {
    Nested(Decimal(s.version), Decimal(s.chunkIndex), Decimal(s.bytesProcessed), s.publicKey, Decimal(s.chunkSize),
           Flag(s.includeChecksums), Decimal(s.timestamp));
    hide Decimal;
  }

  lemma Nested(a: string, b: string, c: string, d: string, e: string, f: string, g: string)
    ensures (a + "|" + b + "|" + c + "|") + d + ("|" + e + "|" + f + "|" + g)
         == a + "|" + (b + "|" + (c + "|" + (d + "|" + (e + "|" + (f + "|" + g)))))
  {
    var x := "|" + e + "|" + f + "|" + g;
    assert x == "|" + (e + "|" + (f + "|" + g));
    assert (a + "|" + b + "|" + c + "|") + d + x == a + "|" + (b + "|" + (c + "|" + (d + x)));
  }

  /** The integrity text determines every field of the state, for keys without a bar, which hexadecimal text never has:
      the integrity value covers all of them. */
  lemma StateTextInjective(s: State, t: State)
    requires '|' !in s.publicKey && '|' !in t.publicKey && StateText(s) == StateText(t)
    ensures s.(hmac := None) == t.(hmac := None)
  {
    StateTextParts(s);
    StateTextParts(t);
    hide StateText, Decimal;
    var s5 := Flag(s.includeChecksums) + "|" + Decimal(s.timestamp);
    var t5 := Flag(t.includeChecksums) + "|" + Decimal(t.timestamp);
    var s4, t4 := Decimal(s.chunkSize) + "|" + s5, Decimal(t.chunkSize) + "|" + t5;
    var s3, t3 := s.publicKey + "|" + s4, t.publicKey + "|" + t4;
    var s2, t2 := Decimal(s.bytesProcessed) + "|" + s3, Decimal(t.bytesProcessed) + "|" + t3;
    var s1, t1 := Decimal(s.chunkIndex) + "|" + s2, Decimal(t.chunkIndex) + "|" + t2;
    SplitNumbers(s.version, s1, t.version, t1);
    SplitNumbers(s.chunkIndex, s2, t.chunkIndex, t2);
    SplitNumbers(s.bytesProcessed, s3, t.bytesProcessed, t3);
    SplitAtBar(s.publicKey, s4, t.publicKey, t4);
    SplitNumbers(s.chunkSize, s5, t.chunkSize, t5);
    SplitAtBar(Flag(s.includeChecksums), Decimal(s.timestamp), Flag(t.includeChecksums), Decimal(t.timestamp));
    DecimalInjective(s.timestamp, t.timestamp);
    assert Flag(true) != Flag(false);
  }

  /** A saved state whose chunk index was changed, here from one digit to another, is refused. */
  lemma ChangedIndexRefused(utf8: string -> Bytes, state: State, index: int, now: int)
    requires forall s :: IsAscii(s) ==> utf8(s) == Encode(s)
    requires IsAscii(state.publicKey) && state.publicKey != "" && state.version == 1
    requires now - state.timestamp <= 86400000
    requires 0 <= state.chunkIndex < 10 && 0 <= index < 10 && index != state.chunkIndex
    ensures var saved := state.(hmac := Some(StateHash(utf8, state)));
            ValidateState(utf8, saved.(chunkIndex := index), now) == Some(StateIntegrityCheckFailed)
  {
    var hash := StateHash(utf8, state);
    var saved := state.(hmac := Some(hash));
    var changed := saved.(chunkIndex := index);
    SavedText(state, hash);
    StateTextIsAscii(state);
    StateTextIsAscii(changed);
    var k := |Decimal(state.version)| + 1;
    var x, y := StateText(state), StateText(changed);
    IndexInText(state, index);
    assert y == x[k := y[k]];
    hide StateText, Decimal, XorFold, BytesToHex;
    var bytes := Encode(x);
    assert Encode(y) == bytes[k := y[k] as int];
    ByteChangeChangesHash(bytes, k, y[k] as int);
    HashesDiffer(XorFold(bytes), XorFold(Encode(y)));
    SavedText(changed, hash);
    ValidationChecks(utf8, changed, now);
    hide *;
  }

  lemma IndexInText(state: State, index: int)
    requires 0 <= state.chunkIndex < 10 && 0 <= index < 10
    ensures var k := |Decimal(state.version)| + 1;
            var x, y := StateText(state), StateText(state.(chunkIndex := index));
            && k < |x| == |y| && y == x[k := y[k]]
            && x[k] == ('0' as int + state.chunkIndex) as char && y[k] == ('0' as int + index) as char
            && StateText(state.(hmac := Some(""))) == x
  {
    var before := Decimal(state.version) + "|";
    var after := "|" + Decimal(state.bytesProcessed) + "|" + state.publicKey + Circumstances(state);
    var changed := state.(chunkIndex := index);
    assert Decimal(state.chunkIndex) == [('0' as int + state.chunkIndex) as char];
    assert Decimal(index) == [('0' as int + index) as char];
    assert Circumstances(changed) == Circumstances(state);
    hide Circumstances;
    assert StateText(state) == before + Decimal(state.chunkIndex) + after;
    assert StateText(changed) == before + Decimal(index) + after;
  }

  lemma HashesDiffer(x: Bytes, y: Bytes)
    requires |x| == |y| == 32 && x != y
    ensures BytesToHex(x) != BytesToHex(y) && BytesToHex(x) != ""
  {
    if BytesToHex(x) == BytesToHex(y) {
      BytesToHexInjective(x, y);
    }
  }

  /** The checks on a state to resume from, in their order. */
  lemma ValidationChecks(utf8: string -> Bytes, state: State, now: int)
    ensures var r := ValidateState(utf8, state, now);
            var current, young := state.version == 1, now - state.timestamp <= 24 * 60 * 60 * 1000;
            var sealed := state.hmac.None? || state.hmac.value == ""
                       || state.hmac.value == BytesToHex(XorFold(utf8(StateText(state))));
            && (r == Some(UnsupportedStateVersion) <==> !current)
            && (r == Some(InvalidChunkIndex) <==> current && state.chunkIndex < 0)
            && (r == Some(StateTooOld) <==> current && state.chunkIndex >= 0 && !young)
            && (r == Some(InvalidPublicKeyInState) <==>
                current && state.chunkIndex >= 0 && young && state.publicKey == "")
            && (r == Some(StateIntegrityCheckFailed) <==>
                current && state.chunkIndex >= 0 && young && state.publicKey != "" && !sealed)
            && (r == None <==> current && state.chunkIndex >= 0 && young && state.publicKey != "" && sealed)
  {
    hide StateText, XorFold, BytesToHex;
  }

  // ---------- Which run a state belongs to ----------

  /** The checks at the start of a run on a recorded state, in their order: it must be for the same public key, and say
      the same chunk size and checksum setting, 1 MiB and `false` standing for settings that were left open. */
  lemma StartChecks(state: State, publicKey1: Bytes, options1: Options, publicKey2: Bytes, options2: Options)
    requires state.publicKey == BytesToHex(publicKey1) && RecordedUnder(Some(state), options1)
    ensures var r := StartFails(Some(state), options2, publicKey2);
            var interval, sameKey := options2.autoSaveInterval > 0, publicKey1 == publicKey2;
            var sameSize := (if options1.chunkSize.Some? then options1.chunkSize.value else 1024 * 1024)
                         == (if options2.chunkSize.Some? then options2.chunkSize.value else 1024 * 1024);
            var sameChecksums := (options1.includeChecksums == Some(true)) == (options2.includeChecksums == Some(true));
            && (r == Some(AutoSaveIntervalMustBePositive) <==> !interval)
            && (r == Some(PublicKeyMismatch) <==> interval && !sameKey)
            && (r == Some(ChunkSizeMismatch) <==> interval && sameKey && !sameSize)
            && (r == Some(IncludeChecksumsMismatch) <==> interval && sameKey && sameSize && !sameChecksums)
            && (r == None <==> interval && sameKey && sameSize && sameChecksums)
  {
    hide BytesToHex;
    if BytesToHex(publicKey1) == BytesToHex(publicKey2) {
      BytesToHexInjective(publicKey1, publicKey2);
    }
  }

  /** What a run records is accepted by a run with its own key and options. */
  lemma OwnStateAccepted(run: ResumableRun, state: Option<State>, chunk: EncryptedChunk, now: int)
    requires run.options.autoSaveInterval > 0
    ensures StartFails(Some(run.Advanced(state, chunk, now)), run.options, run.settings.publicKey) == None
  {
  }

  // ---------- Resuming under another configuration ----------

  /** What the two runs must have been given for their settings to be the same. */
  predicate SameChunkSize(options1: Options, service1: Service, options2: Options, service2: Service) {
    || (options1.TellsChunkSize(service1) && options2.TellsChunkSize(service2))
    || (options1.chunkSize.None? && options2.chunkSize.None? && service1.chunkSize == service2.chunkSize)
  }

  predicate SameChecksums(options1: Options, service1: Service, options2: Options, service2: Service) {
    || (options1.TellsChecksums(service1) && options2.TellsChecksums(service2))
    || (options1.includeChecksums.None? && options2.includeChecksums.None?
        && service1.includeChecksums == service2.includeChecksums)
  }

  /** The checks on resumption compare what the state says, not what the streams use. A resumption that they accept goes
      on with the same chunk size exactly when both states told the truth or neither run was given a chunk size and
      the configurations agree; likewise for the checksums. */
  lemma AcceptedSettingsIff(state: State, publicKey: Bytes, options1: Options, service1: Service, salts1: nat -> Bytes,
                            options2: Options, service2: Service, salts2: nat -> Bytes)
    requires RecordedUnder(Some(state), options1) && StartFails(Some(state), options2, publicKey).None?
    ensures var settings1, settings2 :=
              service1.RunSettings(publicKey, options1, salts1), service2.RunSettings(publicKey, options2, salts2);
            && (settings1.chunkSize == settings2.chunkSize <==> SameChunkSize(options1, service1, options2, service2))
            && (settings1.includeChecksums == settings2.includeChecksums <==>
                SameChecksums(options1, service1, options2, service2))
  {
  }

  /** The first `done` pieces of one size and the later ones of another make up the text exactly when nothing was done,
      the sizes are the same, or both had reached the end of the text. */
  lemma AssembledIff(text: Bytes, size1: nat, size2: nat, done: nat)
    requires size1 > 0 && size2 > 0 && done <= |Split(text, size1)|
    ensures Flatten(Split(text, size1)[..done]) + Flatten(SkipDone(Split(text, size2), done)) == text
       <==> done == 0 || size1 == size2 || (|text| <= done * size1 && |text| <= done * size2)
  {
    hide Split, Flatten;
    SplitTake(text, size1, done);
    SkippedText(text, size2, done);
    var a, b := Least(done * size1, |text|), Least(done * size2, |text|);
    assert text[..a] + text[b..] == text <==> a == b by {
      if text[..a] + text[b..] == text {
        assert |text[..a] + text[b..]| == |text|;
      }
    }
    MultiplesDiffer(done, size1, size2);
  }

  lemma MultiplesDiffer(k: nat, a: nat, b: nat)
    ensures k * a >= 0 && k * b >= 0
    ensures k * a == k * b <==> k == 0 || a == b
  {
    Distribute(k, a, b);
  }

  lemma SkippedText(text: Bytes, size: nat, done: nat)
    requires size > 0
    ensures done * size >= 0
    ensures Flatten(SkipDone(Split(text, size), done)) == text[Least(done * size, |text|)..]
  {
    var pieces := Split(text, size);
    hide Split, Flatten;
    if done <= |pieces| {
      SplitTake(text, size, done);
    } else {
      SplitTake(text, size, |pieces|);
      SplitJoins(text, size);
      assert pieces[..|pieces|] == pieces;
      var n := |pieces| * size;
      assert |text[..Least(n, |text|)]| == |text|;
      LargerMultiple(|pieces|, done, size);
      assert text[Least(done * size, |text|)..] == [];
    }
  }

  lemma LargerMultiple(k: nat, done: nat, size: nat)
    requires k <= done
    ensures 0 <= k * size <= done * size
  {
    Distribute(size, done, k);
    assert size * (done - k) >= 0;
  }

  /** A first run on one service, left after some chunks, and a second one on another service that is given the state
      of the first. If the second ends without an error, it sent the pieces of its own size that follow the recorded
      ones, and together they sent the text exactly when nothing had been recorded, the chunk sizes were the same, or
      the end had been reached. */
  method ResumeElsewhere(owner: ResumableEncryption, service2: Service, source1: seq<Bytes>, source2: seq<Bytes>,
                         publicKey: Bytes, options1: Options, options2: Options, salts1: nat -> Bytes,
                         salts2: nat -> Bytes, requests: nat, limit: nat, now: int)
    returns (chunks1: seq<EncryptedChunk>, chunks2: seq<EncryptedChunk>, done: nat, ended: bool,
             error: Option<ResumeError>)
    requires owner.state.None? && Accepted(source1) == source1 && Accepted(source2) == source2
    requires Flatten(source1) == Flatten(source2)
    requires owner.service.RunSettings(publicKey, options1, salts1).chunkSize > 0
    requires service2.RunSettings(publicKey, options2, salts2).chunkSize > 0
    modifies owner
    ensures done == DoneCount(owner.state) && (!ended ==> |chunks2| == limit && error.None?)
    ensures error.Some? && !error.value.Stream? ==> error == StartFails(owner.state, options2, publicKey)
    ensures var settings1 := owner.service.RunSettings(publicKey, options1, salts1);
            var settings2 := service2.RunSettings(publicKey, options2, salts2);
            var size1, size2 := settings1.chunkSize, settings2.chunkSize;
            ended && error.None? ==>
              && Handover(settings1, settings2, Flatten(source1), chunks1, chunks2, done)
              && (done > 0 ==> (size1 == size2 <==> SameChunkSize(options1, owner.service, options2, service2)))
  {
    hide EncryptedChunk.Carries, Settings.Planned, Accounts, StartFails, StreamFails, SameChunkSize, RecordedUnder;
    var settings1 := owner.service.RunSettings(publicKey, options1, salts1);
    var settings2 := service2.RunSettings(publicKey, options2, salts2);
    PlannedSplit(settings1, source1);
    PlannedSplit(settings2, source2);
    hide Settings.KeyLengthValid, Accepted, Service.RunSettings, Continues, Split, Flatten, Handover;
    var left, failure;
    chunks1, left, failure := RunInterrupted(owner, source1, publicKey, options1, salts1, requests, now);
    done := DoneCount(owner.state);
    var second := new ResumableEncryption(service2, owner.state);
    chunks2, ended, error := RunInterrupted(second, source2, publicKey, options2, salts2, limit, now);
    if ended && error.None? {
      HandedOver(settings1, settings2, Flatten(source1), chunks1, chunks2, done);
      if owner.state.Some? {
        AcceptedSettingsIff(owner.state.value, publicKey, options1, owner.service, salts1, options2, service2, salts2);
      }
    }
  }

  /** The first `done` chunks of one run and all chunks of the other are what is sent of a text, and whether that is
      the text. */
  ghost predicate Handover(settings1: Settings, settings2: Settings, text: Bytes, chunks1: seq<EncryptedChunk>,
                           chunks2: seq<EncryptedChunk>, done: nat)
    requires settings1.chunkSize > 0 && settings2.chunkSize > 0
  {
    var size1, size2 := settings1.chunkSize, settings2.chunkSize;
    var pieces1, pieces2 := Split(text, size1), Split(text, size2);
    && done <= |chunks1| && done <= |pieces1| && Continues(settings1, pieces1, 0, chunks1)
    && |chunks2| == |SkipDone(pieces2, done)| && Continues(settings2, pieces2, done, chunks2)
    && (Flatten(pieces1[..done]) + Flatten(SkipDone(pieces2, done)) == text <==>
        done == 0 || size1 == size2 || (|text| <= done * size1 && |text| <= done * size2))
  }

  /** The chunks of a handover: the second run delivers one for each of its pieces from `done` on, and each chunk of
      either run carries the piece of its own index and size. */
  lemma HandoverChunks(settings1: Settings, settings2: Settings, text: Bytes, chunks1: seq<EncryptedChunk>,
                       chunks2: seq<EncryptedChunk>, done: nat, k: nat)
    requires settings1.chunkSize > 0 && settings2.chunkSize > 0
    requires Handover(settings1, settings2, text, chunks1, chunks2, done)
    ensures var pieces1, pieces2 := Split(text, settings1.chunkSize), Split(text, settings2.chunkSize);
            && |chunks2| == (if done <= |pieces2| then |pieces2| - done else 0)
            && (k < |chunks1| ==> k < |pieces1| && chunks1[k].index == k && chunks1[k].originalSize == |pieces1[k]|)
            && (k < |chunks2| ==> chunks2[k].index == done + k && chunks2[k].originalSize == |pieces2[done + k]|)
  {
  }

  lemma HandedOver(settings1: Settings, settings2: Settings, text: Bytes, chunks1: seq<EncryptedChunk>,
                   chunks2: seq<EncryptedChunk>, done: nat)
    requires settings1.chunkSize > 0 && settings2.chunkSize > 0
    requires Continues(settings1, Split(text, settings1.chunkSize), 0, chunks1) && done <= |chunks1|
    requires Continues(settings2, Split(text, settings2.chunkSize), done, chunks2)
    requires done + |chunks2| >= |Split(text, settings2.chunkSize)|
    ensures Handover(settings1, settings2, text, chunks1, chunks2, done)
  {
    hide EncryptedChunk.Carries, Split, Flatten;
    AssembledIff(text, settings1.chunkSize, settings2.chunkSize, done);
  }

  /** Accepted and wrong: no options on either side, a first service configured for chunks of four bytes and a second
      one for chunks of two. Bytes three and four are sent twice. */
  lemma WrongResumption(service1: Service, service2: Service, publicKey: Bytes, salts: nat -> Bytes, interval: int)
    requires service1.chunkSize == 4 && service2.chunkSize == 2 && interval > 0
    ensures var text: Bytes := [1, 2, 3, 4, 5, 6];
            var options := Options(None, None, interval, false);
            var state := State(STATE_VERSION, 1, 4, BytesToHex(publicKey), options.StateChunkSize(),
                               options.StateChecksums(), 0, None);
            var pieces1 := Split(text, service1.RunSettings(publicKey, options, salts).chunkSize);
            var pieces2 := Split(text, service2.RunSettings(publicKey, options, salts).chunkSize);
            && Accounts(Some(state), pieces1) && RecordedUnder(Some(state), options)
            && StartFails(Some(state), options, publicKey).None?
            && Flatten(pieces1[..1]) + Flatten(SkipDone(pieces2, 1)) == [1, 2, 3, 4, 3, 4, 5, 6]
  {
    hide Split, Flatten, SkipDone, BytesToHex;
    TwoCuts([1, 2, 3, 4, 5, 6]);
  }

  lemma TwoCuts(text: Bytes)
    requires |text| == 6
    ensures |Split(text, 4)| > 0 && Flatten(Split(text, 4)[..1]) == text[..4]
    ensures Flatten(SkipDone(Split(text, 2), 1)) == text[2..]
  {
    SplitStep(text, 4);
    hide Split, Flatten, SkipDone;
    SplitTake(text, 4, 1);
    SkippedText(text, 2, 1);
  }

  // ---------- Where the source must be on resumption ----------

  /** `source.seek(position)` */
  function Seek(text: Bytes, position: nat): Bytes {
    if position <= |text| then text[position..] else []
  }

  /** Positioning the source at bytesProcessed before resuming, as the streaming guide advises, skips chunks a
      second time: the run then yields the right chunks only when nothing was done before or nothing is left. */
  lemma SeekingSkipsTwice(text: Bytes, size: nat, done: nat)
    requires size > 0 && done <= |Split(text, size)|
    ensures var pieces := Split(text, size);
            var rest := Split(Seek(text, |Flatten(pieces[..done])|), size);
            && rest == pieces[done..]
            && (SkipDone(rest, done) == pieces[done..] <==> done == 0 || done == |pieces|)
  {
    var pieces := Split(text, size);
    SplitJoins(text, size);
    FlattenConcat(pieces[..done], pieces[done..]);
    assert pieces[..done] + pieces[done..] == pieces;
    assert Seek(text, |Flatten(pieces[..done])|) == Flatten(pieces[done..]);
    SplitOfPieces(pieces[done..], size);
  }

  /** Three full chunks of two bytes, one of them done: after positioning the source, only the third is delivered. */
  lemma SeekingExample(text: Bytes)
    requires |text| == 6
    ensures var pieces := Split(text, 2);
            && pieces == [text[..2], text[2..4], text[4..]]
            && Seek(text, |Flatten(pieces[..1])|) == text[2..]
            && SkipDone(Split(text[2..], 2), 1) == [text[4..]]
  {
    var three: seq<Bytes> := [text[..2], text[2..4], text[4..]];
    assert three[1..] == [text[2..4], text[4..]] && three[..1] == [text[..2]];
    assert Flatten(three[1..]) == text[2..4] + Flatten([text[4..]]) && Flatten([text[4..]]) == text[4..];
    assert Flatten(three) == text && Flatten(three[..1]) == text[..2] && Flatten(three[1..]) == text[2..];
    SplitOfPieces(three, 2);
    SplitOfPieces(three[1..], 2);
  }

  /** A resumed run on a source positioned at bytesProcessed and asked to the end: the chunks that are missing are
      delivered exactly when none or all were done. */
  method ResumeAfterSeek(owner: ResumableEncryption, ghost text: Bytes, rest: seq<Bytes>, publicKey: Bytes,
                         options: Options, salts: nat -> Bytes, limit: nat, now: int)
    returns (chunks: seq<EncryptedChunk>, ended: bool, error: Option<ResumeError>)
    requires owner.service.RunSettings(publicKey, options, salts).chunkSize > 0
    requires Accounts(owner.state, Split(text, owner.service.RunSettings(publicKey, options, salts).chunkSize))
    requires Accepted(rest) == rest && Flatten(rest) == Seek(text, DoneBytes(owner.state))
    modifies owner
    ensures var settings := owner.service.RunSettings(publicKey, options, salts);
            var pieces := Split(text, settings.chunkSize);
            var done := DoneCount(old(owner.state));
            && (!ended ==> |chunks| == limit && error.None?)
            && (ended && error.None? ==>
              && |chunks| == |SkipDone(pieces[done..], done)|
              && Continues(settings, pieces[done..], done, chunks)
              && (|chunks| == |pieces| - done <==> done == 0 || done == |pieces|))
  {
    hide EncryptedChunk.Carries, Settings.Planned, StartFails, StreamFails;
    var settings := owner.service.RunSettings(publicKey, options, salts);
    ghost var done := DoneCount(owner.state);
    SeekingSkipsTwice(text, settings.chunkSize, done);
    hide Split, Flatten, Seek, Accounts;
    PlannedSplit(settings, rest);
    hide Settings.KeyLengthValid, Accepted;
    chunks, ended, error := RunInterrupted(owner, rest, publicKey, options, salts, limit, now);
  }
}
