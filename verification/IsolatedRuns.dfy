/** Whole runs over isolated keys: expressions under one instance id, and arbitrary interleavings of
    encryptions, homomorphic operations and changes of the instance id. */
module IsolatedRuns {
  import opened NumberTheory
  import opened ByteStrings
  import opened Hashing
  import opened Results
  import opened Paillier
  import opened IsolatedKeys

  /** A key that passes its own key-id check, with the generator that key generation gives it. */
  predicate Sound(v: KeyView) {
    v.n > 1 && v.g == v.n + 1 && v.KeyIdValid()
  }

  /** tagged is an encryption of m, tagged as the key does under the given instance id. */
  ghost predicate Genuine(v: KeyView, id: Bytes, tagged: int, m: int) {
    exists c: nat :: IsGenuine(v, id, tagged, m, c)
  }

  ghost predicate IsGenuine(v: KeyView, id: Bytes, tagged: int, m: int, c: nat) {
    c > 0 && EncryptionOf(c, m, v.n) && tagged == v.(instanceId := id).Tag(c)
  }

  // ---------- Single operations ----------

  lemma EncryptGenuine(v: KeyView, m: int, r: nat)
    requires Sound(v) && Unit(r, v.n)
    ensures v.EncryptAsync(m, r).Ok?
    ensures Genuine(v, v.instanceId, v.EncryptAsync(m, r).value, m)
  {
    hide Encrypt, EncryptionOf, Unit, KeyView.Tag, KeyView.KeyIdValid;
    EncryptIsEncryption(v.n, m, r);
    var c := Encrypt(v.Key(), m, r).value;
    EncryptionIsPositive(c, m, v.n);
    assert v.(instanceId := v.instanceId) == v;
    assert IsGenuine(v, v.instanceId, v.Tag(c), m, c);
  }

  lemma InnerCiphertext(v: KeyView, id: Bytes, tagged: int, m: int) returns (c: nat)
    requires Genuine(v, id, tagged, m)
    ensures c > 0 && EncryptionOf(c, m, v.n) && ParseHex(AllButLast(Text(tagged), HMAC_LENGTH)) == Some(c)
    ensures Accepts(v, tagged) <==> SameMac(v.(instanceId := id), v, c) || v.instanceId == [0]
  {
    hide ParseHex, AllButLast, Text, EncryptionOf, KeyView.Tag, KeyView.Mac, Accepts, SameMac;
    c :| IsGenuine(v, id, tagged, m, c);
    TagSplits(v.(instanceId := id), c);
    AcceptedIff(v.(instanceId := id), v, c);
  }

  lemma AddGenuine(v: KeyView, idA: Bytes, idB: Bytes, a: int, b: int, m1: int, m2: int)
    requires Sound(v) && Genuine(v, idA, a, m1) && Genuine(v, idB, b, m2)
    ensures v.AdditionAsync(a, b).Ok? <==> Accepts(v, a) && Accepts(v, b)
    ensures v.AdditionAsync(a, b).Ok? ==> Genuine(v, v.instanceId, v.AdditionAsync(a, b).value, m1 + m2)
  {
    hide ParseHex, AllButLast, Text, EncryptionOf, KeyView.Tag, KeyView.KeyIdValid, SameMac, Genuine;
    hide KeyView.ExtractInstanceId, Add;
    var c1 := InnerCiphertext(v, idA, a, m1);
    var c2 := InnerCiphertext(v, idB, b, m2);
    var c := Add(v.Key(), c1, c2);
    AddIsEncryption(v.n, c1, m1, c2, m2);
    EncryptionIsPositive(c, m1 + m2, v.n);
    TaggedIsGenuine(v, c, m1 + m2);
  }

  lemma TaggedIsGenuine(v: KeyView, c: nat, m: int)
    requires c > 0 && EncryptionOf(c, m, v.n)
    ensures Genuine(v, v.instanceId, v.Tag(c), m)
  {
    hide EncryptionOf, KeyView.Tag;
    assert v.(instanceId := v.instanceId) == v;
    assert IsGenuine(v, v.instanceId, v.Tag(c), m, c);
  }

  /** For every constant; a negative one gives the residue of the product, as modular arithmetic has it. */
  lemma MultiplyGenuine(v: KeyView, id: Bytes, a: int, m: int, k: int)
    requires Sound(v) && Genuine(v, id, a, m)
    ensures v.MultiplyAsync(a, k).Ok? <==> Accepts(v, a)
    ensures v.MultiplyAsync(a, k).Ok? ==> Genuine(v, v.instanceId, v.MultiplyAsync(a, k).value, m * k)
  {
    hide ParseHex, AllButLast, Text, EncryptionOf, KeyView.Tag, KeyView.KeyIdValid, SameMac, Genuine;
    hide KeyView.ExtractInstanceId, Multiply;
    var c := InnerCiphertext(v, id, a, m);
    var d := Multiply(v.Key(), c, k);
    MultiplyIsEncryption(v.n, c, m, k);
    EncryptionIsPositive(d.value, m * k, v.n);
    TaggedIsGenuine(v, d.value, m * k);
  }

  /** Tagged under the current id: the operations accept. */
  lemma CurrentAccepted(v: KeyView, tagged: int, m: int)
    requires Genuine(v, v.instanceId, tagged, m)
    ensures Accepts(v, tagged)
  {
    var c := InnerCiphertext(v, v.instanceId, tagged, m);
    assert v.(instanceId := v.instanceId) == v;
  }

  // ---------- Expressions under one instance id ----------

  datatype Expr =
    | Enc(m: int, r: nat)
    | Sum(left: Expr, right: Expr)
    | Scale(e: Expr, k: int)

  function Evaluate(v: KeyView, e: Expr): Result<nat, VotingError>
    requires v.n > 0
  {
    match e
    case Enc(m, r) => v.EncryptAsync(m, r)
    case Sum(left, right) =>
      var a :- Evaluate(v, left);
      var b :- Evaluate(v, right);
      v.AdditionAsync(a, b)
    case Scale(e', k) =>
      var a :- Evaluate(v, e');
      v.MultiplyAsync(a, k)
  }

  function Plain(e: Expr): int {
    match e
    case Enc(m, _) => m
    case Sum(left, right) => Plain(left) + Plain(right)
    case Scale(e', k) => Plain(e') * k
  }

  ghost predicate UnitRandomness(e: Expr, n: nat) {
    match e
    case Enc(_, r) => Unit(r, n)
    case Sum(left, right) => UnitRandomness(left, n) && UnitRandomness(right, n)
    case Scale(e', _) => UnitRandomness(e', n)
  }

  /** Every expression evaluates to a tagged encryption of its plain value. */
  lemma {:induction false} EvaluateGenuine(v: KeyView, e: Expr)
    requires Sound(v) && UnitRandomness(e, v.n)
    ensures Evaluate(v, e).Ok? && Genuine(v, v.instanceId, Evaluate(v, e).value, Plain(e))
  {
    hide Genuine, Accepts, KeyView.EncryptAsync, KeyView.AdditionAsync, KeyView.MultiplyAsync, KeyView.KeyIdValid, Unit;
    match e
    case Enc(m, r) =>
      EncryptGenuine(v, m, r);
    case Sum(left, right) =>
      EvaluateGenuine(v, left);
      EvaluateGenuine(v, right);
      var a, b := Evaluate(v, left).value, Evaluate(v, right).value;
      CurrentAccepted(v, a, Plain(left));
      CurrentAccepted(v, b, Plain(right));
      AddGenuine(v, v.instanceId, v.instanceId, a, b, Plain(left), Plain(right));
    case Scale(e', k) =>
      EvaluateGenuine(v, e');
      var a := Evaluate(v, e').value;
      CurrentAccepted(v, a, Plain(e'));
      MultiplyGenuine(v, v.instanceId, a, Plain(e'), k);
  }

  /** Decrypting a genuine ciphertext under the same instance id. */
  lemma DecryptGenuine(p: nat, q: nat, keys: KeyPair, v: KeyView, tagged: int, m: int)
    requires Prime(p) && Prime(q) && p != q && KeysFor(p, q, keys) && v.n == keys.publicKey.n
    requires Genuine(v, v.instanceId, tagged, m)
    ensures keys.privateKey.n > 0 && v.n > 0
    ensures Decryption(keys.privateKey, v, v, tagged) == Ok(m % v.n)
  {
    hide ParseHex, AllButLast, LastChars, Text, EncryptionOf, KeyView.Tag, KeyView.Mac;
    hide KeysFor, Prime, Decrypt, BytesToHex;
    KeyFacts(p, q, keys);
    assert v.(instanceId := v.instanceId) == v;
    var c: nat :| IsGenuine(v, v.instanceId, tagged, m, c);
    TagSplits(v, c);
    DecryptionCorrect(p, q, keys, c, m);
  }

  /** The homomorphism: any expression of additions and scalings over encryptions decrypts to its value. */
  lemma ExpressionDecrypts(p: nat, q: nat, keys: KeyPair, v: KeyView, e: Expr)
    requires Prime(p) && Prime(q) && p != q && KeysFor(p, q, keys)
    requires Sound(v) && v.n == keys.publicKey.n && UnitRandomness(e, v.n)
    ensures keys.privateKey.n > 0 && Evaluate(v, e).Ok?
    ensures Decryption(keys.privateKey, v, v, Evaluate(v, e).value) == Ok(Plain(e) % v.n)
  {
    hide Genuine, KeysFor, Prime, Decryption;
    EvaluateGenuine(v, e);
    DecryptGenuine(p, q, keys, v, Evaluate(v, e).value, Plain(e));
  }

  // ---------- Runs with changes of the instance id ----------

  datatype Step =
    | EncryptStep(m: int, r: nat)
    | AddStep(i: nat, j: nat)
    | ScaleStep(i: nat, k: int)
    | UpdateStep(salt: Bytes)

  /** A produced ciphertext, with the plain value and the instance id it was produced under. */
  datatype Entry = Entry(tagged: nat, plain: int, instanceId: Bytes)

  datatype World = World(key: KeyView, table: seq<Entry>)

  function Append(w: World, r: Result<nat, VotingError>, plain: int): World {
    if r.Ok? then w.(table := w.table + [Entry(r.value, plain, w.key.instanceId)]) else w
  }

  /** One step; an operation that throws, or names no produced ciphertext, leaves everything as it was. */
  function DoStep(w: World, s: Step): (w': World)
    requires w.key.n > 0
    ensures w'.key.n == w.key.n
  {
    match s
    case EncryptStep(m, r) => Append(w, w.key.EncryptAsync(m, r), m)
    case AddStep(i, j) =>
      if i >= |w.table| || j >= |w.table| then w
      else Append(w, w.key.AdditionAsync(w.table[i].tagged, w.table[j].tagged), w.table[i].plain + w.table[j].plain)
    case ScaleStep(i, k) =>
      if i >= |w.table| then w
      else Append(w, w.key.MultiplyAsync(w.table[i].tagged, k), w.table[i].plain * k)
    case UpdateStep(salt) => w.(key := w.key.(instanceId := w.key.NextInstanceId(salt)))
  }

  function RunSteps(w: World, steps: seq<Step>): (w': World)
    requires w.key.n > 0
    ensures w'.key.n == w.key.n
    decreases |steps|
  {
    if steps == [] then w else RunSteps(DoStep(w, steps[0]), steps[1..])
  }

  ghost predicate UnitSteps(steps: seq<Step>, n: nat) {
    forall i :: 0 <= i < |steps| && steps[i].EncryptStep? ==> Unit(steps[i].r, n)
  }

  /** Every ciphertext produced so far is a correctly tagged encryption of its plain value. */
  ghost predicate Consistent(w: World) {
    Sound(w.key)
    && forall i :: 0 <= i < |w.table| ==> Genuine(w.key, w.table[i].instanceId, w.table[i].tagged, w.table[i].plain)
  }

  /** Genuineness does not depend on the current instance id. */
  lemma GenuineAnyView(v: KeyView, id: Bytes, other: Bytes, tagged: int, m: int)
    requires Genuine(v, id, tagged, m)
    ensures Genuine(v.(instanceId := other), id, tagged, m)
  {
    hide EncryptionOf, KeyView.Tag;
    var c: nat :| IsGenuine(v, id, tagged, m, c);
    var v' := v.(instanceId := other);
    assert v'.(instanceId := id) == v.(instanceId := id);
    assert IsGenuine(v', id, tagged, m, c);
  }

  lemma AppendKeeps(w: World, r: Result<nat, VotingError>, plain: int)
    requires Consistent(w) && (r.Ok? ==> Genuine(w.key, w.key.instanceId, r.value, plain))
    ensures Consistent(Append(w, r, plain))
  {
    hide Genuine, Sound;
  }

  lemma StepKeeps(w: World, s: Step)
    requires Consistent(w) && UnitSteps([s], w.key.n)
    ensures w.key.n > 0 && Consistent(DoStep(w, s))
  {
    hide Genuine, Unit, KeyView.EncryptAsync, KeyView.AdditionAsync, KeyView.MultiplyAsync, KeyView.KeyIdValid;
    hide Accepts, Append, KeyView.NextInstanceId;
    match s
    case EncryptStep(m, r) =>
      assert [s][0] == s;
      EncryptGenuine(w.key, m, r);
      AppendKeeps(w, w.key.EncryptAsync(m, r), m);
    case AddStep(i, j) =>
      if i < |w.table| && j < |w.table| {
        var a, b := w.table[i], w.table[j];
        AddGenuine(w.key, a.instanceId, b.instanceId, a.tagged, b.tagged, a.plain, b.plain);
        AppendKeeps(w, w.key.AdditionAsync(a.tagged, b.tagged), a.plain + b.plain);
      }
    case ScaleStep(i, k) =>
      if i < |w.table| {
        var a := w.table[i];
        MultiplyGenuine(w.key, a.instanceId, a.tagged, a.plain, k);
        AppendKeeps(w, w.key.MultiplyAsync(a.tagged, k), a.plain * k);
      }
    case UpdateStep(salt) =>
      UpdateKeeps(w, w.key.NextInstanceId(salt));
  }

  lemma UpdateKeeps(w: World, id: Bytes)
    requires Consistent(w)
    ensures Consistent(w.(key := w.key.(instanceId := id)))
  {
    hide Genuine;
    var w' := w.(key := w.key.(instanceId := id));
    forall i | 0 <= i < |w'.table|
      ensures Genuine(w'.key, w'.table[i].instanceId, w'.table[i].tagged, w'.table[i].plain)
    {
      GenuineAnyView(w.key, w.table[i].instanceId, id, w.table[i].tagged, w.table[i].plain);
    }
  }

  /** Over every run, whatever is interleaved and whatever throws. */
  lemma {:induction false} RunKeeps(w: World, steps: seq<Step>)
    requires Consistent(w) && UnitSteps(steps, w.key.n)
    ensures w.key.n > 0 && Consistent(RunSteps(w, steps))
    decreases |steps|
  {
    hide Consistent, DoStep, Unit;
    SoundModulus(w);
    if steps != [] {
      StepKeeps(w, steps[0]);
      RunKeeps(DoStep(w, steps[0]), steps[1..]);
    }
  }

  lemma SoundModulus(w: World)
    requires Consistent(w)
    ensures w.key.n > 1
  {
  }

  // ---------- What a change of the instance id ends ----------

  /** No two HMACs collide: no ciphertext of the run has under the current id the tag it was given under another. */
  ghost predicate NoTagCollision(w: World) {
    forall i, c: nat :: 0 <= i < |w.table| && InnerOf(w, i, c) && w.table[i].instanceId != w.key.instanceId ==>
      !SameMac(w.key.(instanceId := w.table[i].instanceId), w.key, c)
  }

  /** c is the ciphertext that the i-th entry carries. */
  ghost predicate InnerOf(w: World, i: nat, c: nat)
    requires i < |w.table|
  {
    var e := w.table[i];
    IsGenuine(w.key, e.instanceId, e.tagged, e.plain, c)
  }

  function LastBytes(bs: Bytes): (last: Bytes)
    ensures |last| == 32
  {
    if |bs| >= 32 then bs[|bs| - 32..] else seq(32, _ => 0)
  }

  function SeparatingHmac(): (hmac: Hmac256)
    ensures forall key, data :: hmac(key, data) == LastBytes(key)
  {
    var hmac := (key: Bytes, data: Bytes) => LastBytes(key);
    assert Macs32(hmac);
    hmac
  }

  /** All ids of a state of a run have 32 bytes, as the library makes them. */
  predicate HashedIds(w: World) {
    |w.key.instanceId| == 32 && forall i :: 0 <= i < |w.table| ==> |w.table[i].instanceId| == 32
  }

  lemma StepHashedIds(w: World, s: Step)
    requires w.key.n > 0 && HashedIds(w)
    ensures HashedIds(DoStep(w, s))
  {
    hide KeyView.EncryptAsync, KeyView.AdditionAsync, KeyView.MultiplyAsync;
  }

  lemma {:induction false} RunHashedIds(w: World, steps: seq<Step>)
    requires w.key.n > 0 && HashedIds(w)
    ensures HashedIds(RunSteps(w, steps))
    decreases |steps|
  {
    hide HashedIds, DoStep;
    if steps != [] {
      StepHashedIds(w, steps[0]);
      RunHashedIds(DoStep(w, steps[0]), steps[1..]);
    }
  }

  /** There is an HMAC function under which no run on ids as the library makes them has a collision. */
  lemma CollisionsAvoidable(w: World, steps: seq<Step>)
    requires w.key.n > 0 && w.key.hmac == SeparatingHmac() && HashedIds(w)
    ensures NoTagCollision(RunSteps(w, steps))
  {
    RunHashedIds(w, steps);
    RunInstance(w, steps);
    hide RunSteps, LastSalt;
    SeparatedTags(RunSteps(w, steps));
  }

  lemma SeparatedTags(w: World)
    requires w.key.hmac == SeparatingHmac() && HashedIds(w)
    ensures NoTagCollision(w)
  {
    hide SeparatingHmac;
    forall i, c: nat | 0 <= i < |w.table| && InnerOf(w, i, c) && w.table[i].instanceId != w.key.instanceId
      ensures !SameMac(w.key.(instanceId := w.table[i].instanceId), w.key, c)
    {
      var before := w.key.(instanceId := w.table[i].instanceId);
      assert before.Mac(c) == before.instanceId && w.key.Mac(c) == w.key.instanceId;
    }
  }

  /** So every run of a fresh key with that HMAC satisfies all that the following theorems ask for. */
  lemma FreshRun(n: nat, sha: Sha256, salt: Bytes, steps: seq<Step>)
    requires n > 1 && UnitSteps(steps, n)
    ensures var v := KeyView(n, n + 1, sha(NumberText(n)), [], sha, SeparatingHmac());
            var w := World(v.(instanceId := v.NextInstanceId(salt)), []);
            Consistent(RunSteps(w, steps)) && NoTagCollision(RunSteps(w, steps))
  {
    var v := KeyView(n, n + 1, sha(NumberText(n)), [], sha, SeparatingHmac());
    var w := World(v.(instanceId := v.NextInstanceId(salt)), []);
    assert Consistent(w);
    hide RunSteps, NoTagCollision, Consistent, KeyView.NextInstanceId;
    RunKeeps(w, steps);
    CollisionsAvoidable(w, steps);
  }

  /** A ciphertext of a run is usable exactly while its own instance lasts; only under the placeholder id [0], which is
      no hash value, is everything. */
  lemma UsableIff(w: World, i: nat)
    requires Consistent(w) && i < |w.table| && NoTagCollision(w)
    ensures Accepts(w.key, w.table[i].tagged)
       <==> w.table[i].instanceId == w.key.instanceId || w.key.instanceId == [0]
  {
    hide Accepts, SameMac, Sound, EncryptionOf, KeyView.Tag;
    var e, v := w.table[i], w.key;
    assert v.(instanceId := v.instanceId) == v;
    var c: nat :| IsGenuine(v, e.instanceId, e.tagged, e.plain, c);
    assert InnerOf(w, i, c);
    AcceptedIff(v.(instanceId := e.instanceId), v, c);
    if e.instanceId == v.instanceId {
      CurrentAccepted(v, e.tagged, e.plain);
    }
  }

  /** An addition in a run succeeds exactly when both ciphertexts belong to the current instance. */
  lemma AddSucceedsIff(w: World, i: nat, j: nat)
    requires Consistent(w) && i < |w.table| && j < |w.table| && NoTagCollision(w)
    ensures w.key.n > 0
    ensures w.key.AdditionAsync(w.table[i].tagged, w.table[j].tagged).Ok?
       <==> (w.table[i].instanceId == w.key.instanceId && w.table[j].instanceId == w.key.instanceId)
            || w.key.instanceId == [0]
  {
    hide Accepts, Genuine, NoTagCollision, KeyView.AdditionAsync, KeyView.KeyIdValid;
    var a, b := w.table[i], w.table[j];
    UsableIff(w, i);
    UsableIff(w, j);
    AddGenuine(w.key, a.instanceId, b.instanceId, a.tagged, b.tagged, a.plain, b.plain);
  }

  /** The salt of the last change of the instance id. */
  function LastSalt(steps: seq<Step>): Option<Bytes>
    decreases |steps|
  {
    if steps == [] then None
    else
      var later := LastSalt(steps[1..]);
      if later.Some? then later
      else if steps[0].UpdateStep? then Some(steps[0].salt)
      else None
  }

  function KeyAfter(v: KeyView, last: Option<Bytes>): KeyView {
    if last.Some? then v.(instanceId := v.NextInstanceId(last.value)) else v
  }

  /** The state of the key after a run depends on the last salt alone. */
  lemma {:induction false} RunInstance(w: World, steps: seq<Step>)
    requires w.key.n > 0
    ensures RunSteps(w, steps).key == KeyAfter(w.key, LastSalt(steps))
    decreases |steps|
  {
    hide KeyView.EncryptAsync, KeyView.AdditionAsync, KeyView.MultiplyAsync, KeyView.NextInstanceId, DoStep;
    if steps != [] {
      StepInstance(w, steps[0]);
      RunInstance(DoStep(w, steps[0]), steps[1..]);
      NextIdStays(w.key, DoStep(w, steps[0]).key.instanceId);
    }
  }

  lemma StepInstance(w: World, s: Step)
    requires w.key.n > 0
    ensures DoStep(w, s).key == KeyAfter(w.key, if s.UpdateStep? then Some(s.salt) else None)
  {
    hide KeyView.EncryptAsync, KeyView.AdditionAsync, KeyView.MultiplyAsync, KeyView.NextInstanceId;
  }

  /** The next id does not depend on the current one. */
  lemma NextIdStays(v: KeyView, id: Bytes)
    ensures forall salt :: v.(instanceId := id).NextInstanceId(salt) == v.NextInstanceId(salt)
  {
  }

  /** A private key made at some point of a run, asked at a later point for any ciphertext produced by then: it refuses
      everything if the id has changed in between, and otherwise returns the plain value of the ciphertexts of the
      instance and finds the tags of all others wrong. */
  lemma RunDecrypts(p: nat, q: nat, keys: KeyPair, w: World, before: seq<Step>, after: seq<Step>, i: nat)
    requires Prime(p) && Prime(q) && p != q && KeysFor(p, q, keys) && w.key.n == keys.publicKey.n
    requires Consistent(w) && UnitSteps(before, w.key.n) && UnitSteps(after, w.key.n) && w.key.n > 0
    requires i < |RunSteps(RunSteps(w, before), after).table| && NoTagCollision(RunSteps(RunSteps(w, before), after))
    ensures keys.privateKey.n > 0
    ensures var made := RunSteps(w, before);
            var now := RunSteps(made, after);
            var e := now.table[i];
            Decryption(keys.privateKey, made.key, now.key, e.tagged) ==
            if now.key.instanceId != made.key.instanceId then Err(InstanceIdMismatch)
            else if e.instanceId == now.key.instanceId then Ok(e.plain % w.key.n)
            else Err(InvalidCiphertextHmac)
  {
    RunKeeps(w, before);
    var made := RunSteps(w, before);
    RunKeeps(made, after);
    RunInstance(made, after);
    var now := RunSteps(made, after);
    KeyFacts(p, q, keys);
    hide KeysFor, Prime, RunSteps, LastSalt, Sound, Decryption;
    EntryDecrypts(p, q, keys, made.key, now, i);
  }

  lemma EntryDecrypts(p: nat, q: nat, keys: KeyPair, remembered: KeyView, now: World, i: nat)
    requires Prime(p) && Prime(q) && p != q && KeysFor(p, q, keys) && now.key.n == keys.publicKey.n
    requires Consistent(now) && i < |now.table| && NoTagCollision(now)
    requires now.key.(instanceId := remembered.instanceId) == remembered
    ensures keys.privateKey.n > 0 && now.key.n > 0
    ensures var e := now.table[i];
            Decryption(keys.privateKey, remembered, now.key, e.tagged) ==
            if now.key.instanceId != remembered.instanceId then Err(InstanceIdMismatch)
            else if e.instanceId == now.key.instanceId then Ok(e.plain % now.key.n)
            else Err(InvalidCiphertextHmac)
  {
    hide KeysFor, Prime, EncryptionOf, KeyView.Tag, KeyView.Mac, Decrypt, Decryption, Sound;
    var e, v := now.table[i], now.key;
    KeyFacts(p, q, keys);
    var c: nat :| IsGenuine(v, e.instanceId, e.tagged, e.plain, c);
    assert InnerOf(now, i, c);
    DecryptionIff(keys.privateKey, v.(instanceId := e.instanceId), remembered, v, c);
    DecryptionCorrect(p, q, keys, c, e.plain);
    if e.instanceId == v.instanceId == remembered.instanceId {
      assert v.(instanceId := e.instanceId) == remembered;
    }
  }

  /** What is hashed to the next instance id. */
  function IdInput(v: KeyView, salt: Bytes): Bytes {
    v.keyId + HexPairs(EvenHex(PadStart(ToHex(v.n), PUB_KEY_OFFSET))) + salt
  }

  /** A private key made under one salt is refused after a run exactly when the last salt of the run is another one,
      unless SHA-256 gives both the same id. Coming back to the old salt brings the old instance back. */
  lemma RefusedIff(sk: PrivateKey, w: World, salt: Bytes, after: seq<Step>, tagged: int)
    requires w.key.n > 0 && sk.n > 0 && w.key.instanceId == w.key.NextInstanceId(salt)
    requires var last := LastSalt(after);
             last.Some? && w.key.sha(IdInput(w.key, last.value)) == w.key.sha(IdInput(w.key, salt)) ==>
             IdInput(w.key, last.value) == IdInput(w.key, salt)
    ensures Decryption(sk, w.key, RunSteps(w, after).key, tagged) == Err(InstanceIdMismatch)
       <==> LastSalt(after).Some? && LastSalt(after).value != salt
  {
    RunInstance(w, after);
    hide RunSteps, LastSalt, ParseHex, AllButLast, LastChars, Text, Decrypt, BytesToHex, KeyView.Mac, HexPairs;
    var last := LastSalt(after);
    if last.Some? && IdInput(w.key, last.value) == IdInput(w.key, salt) {
      var front := |IdInput(w.key, salt)| - |salt|;
      assert IdInput(w.key, salt)[front..] == salt && IdInput(w.key, last.value)[front..] == last.value;
    }
  }
}
