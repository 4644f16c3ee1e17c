/** Configuration values, the recursive merge of overrides, the validated creation of a configuration, and the
    registry that keeps named configurations beside their provenance. */
module Configurations {
  import opened Results

  /** JavaScript values as far as the merge tells them apart. An instance is an object with its own prototype,
      which is passed on by reference; its id stands for its identity. */
  datatype Value =
    | Undefined
    | Text(text: string)
    | Number(number: int)
    | Instance(id: nat, byteLength: int)
    | List(items: seq<Value>)
    | Plain(entries: map<string, Value>)

  // ---------- The merge ----------

  /** The keys that overrides really set. */
  function SetKeys(overrides: map<string, Value>): set<string> {
    set k | k in overrides && !overrides[k].Undefined?
  }

  /** Overrides win, except that plain objects on both sides are merged in turn. */
  function Merge(target: Value, overrides: Value): (merged: Value)
    requires target.Plain? && overrides.Plain?
    ensures merged.Plain?
    decreases overrides
  {
    Plain(map k | k in target.entries.Keys + SetKeys(overrides.entries) ::
      if k in SetKeys(overrides.entries) then
        if k in target.entries && target.entries[k].Plain? && overrides.entries[k].Plain?
        then Merge(target.entries[k], overrides.entries[k])
        else overrides.entries[k]
      else target.entries[k])
  }

  /** Key by key, as the loop over the entries does it. */
  method ApplyOverrides(target: Value, overrides: Option<Value>) returns (result: Value)
    requires target.Plain? && (overrides.Some? ==> overrides.value.Plain?)
    ensures result == if overrides.None? then target else Merge(target, overrides.value)
    decreases if overrides.Some? then overrides.value else Undefined
  {
    if overrides.None? { return target; }
    var o := overrides.value.entries;
    var current := target.entries;
    var todo := o.Keys;
    while todo != {}
      invariant todo <= o.Keys
      invariant current.Keys == target.entries.Keys + (SetKeys(o) - todo)
      invariant forall k :: k in current && (k in todo || k !in o) ==>
        k in target.entries && current[k] == target.entries[k]
      invariant forall k :: k in current && k !in todo && k in o ==>
        current[k] == Merge(target, overrides.value).entries[k]
      decreases |todo|
    {
      var key :| key in todo;
      todo := todo - {key};
      if !o[key].Undefined? {
        if key in current && current[key].Plain? && o[key].Plain? {
          var merged := ApplyOverrides(current[key], Some(o[key]));
          current := current[key := merged];
        } else {
          current := current[key := o[key]];
        }
      }
    }
    result := Plain(current);
    assert current.Keys == target.entries.Keys + SetKeys(o);
  }

  /** Merging a plain object into itself changes nothing. */
  lemma {:induction false} MergeSelf(v: Value)
    requires v.Plain?
    ensures Merge(v, v) == v
    decreases v
  {
    var m := Merge(v, v);
    assert m.entries.Keys == v.entries.Keys;
    forall k | k in v.entries
      ensures m.entries[k] == v.entries[k]
    {
      if v.entries[k].Plain? {
        MergeSelf(v.entries[k]);
      }
    }
    assert m.entries == v.entries;
  }

  /** Applying the same overrides twice is applying them once. */
  lemma {:induction false} MergeTwice(target: Value, overrides: Value)
    requires target.Plain? && overrides.Plain?
    ensures Merge(Merge(target, overrides), overrides) == Merge(target, overrides)
    decreases overrides
  {
    var once := Merge(target, overrides);
    var twice := Merge(once, overrides);
    assert twice.entries.Keys == once.entries.Keys;
    forall k | k in once.entries
      ensures twice.entries[k] == once.entries[k]
    {
      if k in SetKeys(overrides.entries) && overrides.entries[k].Plain? {
        if k in target.entries && target.entries[k].Plain? {
          MergeTwice(target.entries[k], overrides.entries[k]);
        } else {
          MergeSelf(overrides.entries[k]);
        }
      }
    }
    assert twice.entries == once.entries;
  }

  // ---------- Validated creation ----------

  function Property(v: Value, key: string): Value {
    if v.Plain? && key in v.entries then v.entries[key] else Undefined
  }

  function Path2(v: Value, a: string, b: string): Value {
    Property(Property(v, a), b)
  }

  function Path3(v: Value, a: string, b: string, c: string): Value {
    Property(Path2(v, a, b), c)
  }

  function ByteLength(provider: Value): Value {
    if provider.Instance? then Number(provider.byteLength) else Property(provider, "byteLength")
  }

  /** The lengths that must agree with the id provider. */
  predicate LengthsAgree(config: Value) {
    var length := ByteLength(Property(config, "idProvider"));
    && length.Number? && 1 <= length.number <= 255
    && Property(config, "MEMBER_ID_LENGTH") == length
    && Path3(config, "ECIES", "MULTIPLE", "RECIPIENT_ID_SIZE") == length
  }

  /** The remaining checks on sizes. */
  predicate SizesAgree(config: Value) {
    var ecies := Property(config, "ECIES");
    var checksum := Property(config, "CHECKSUM");
    var bits, buffer := Property(checksum, "SHA3_DEFAULT_HASH_BITS"), Property(checksum, "SHA3_BUFFER_LENGTH");
    var iv, tag := Property(ecies, "IV_SIZE"), Property(ecies, "AUTH_TAG_SIZE");
    var key := Path2(ecies, "SYMMETRIC", "KEY_SIZE");
    var publicKey, rawKey := Property(ecies, "PUBLIC_KEY_LENGTH"), Property(ecies, "RAW_PUBLIC_KEY_LENGTH");
    && bits.Number? && buffer.Number? && buffer.number * 8 == bits.number
    && iv.Number? && tag.Number? && key.Number?
    && Path2(ecies, "MULTIPLE", "ENCRYPTED_KEY_SIZE") == Number(iv.number + tag.number + key.number)
    && rawKey.Number? && publicKey == Number(rawKey.number + 1)
    && Path2(ecies, "MULTIPLE", "RECIPIENT_COUNT_SIZE") == Number(2)
    && Path2(ecies, "MULTIPLE", "DATA_LENGTH_SIZE") == Number(8)
  }

  /** validateConstants */
  predicate ValidConstants(config: Value) {
    config.Plain? && SizesAgree(config) && LengthsAgree(config)
  }

  /** `merged.idProvider !== base.idProvider` for a provider that is there; a plain object is always a new copy. */
  predicate ProviderChanged(base: Value, merged: Value) {
    var provider := Property(merged, "idProvider");
    && !provider.Undefined? && provider != Text("") && provider != Number(0)
    && (provider.Plain? || provider.List? || provider != Property(base, "idProvider"))
  }

  function With(v: Value, key: string, value: Value): (w: Value)
    ensures w.Plain?
  {
    Plain((if v.Plain? then v.entries else map[])[key := value])
  }

  /** The lengths that follow a changed provider; the last one only where it exists. */
  function Synchronized(base: Value, merged: Value): (v: Value)
    requires merged.Plain?
    ensures v.Plain?
  {
    if !ProviderChanged(base, merged) then merged
    else
      var length := ByteLength(Property(merged, "idProvider"));
      var ecies := Property(merged, "ECIES");
      var v1 := With(merged, "MEMBER_ID_LENGTH", length);
      var multiple := With(Property(ecies, "MULTIPLE"), "RECIPIENT_ID_SIZE", length);
      var v2 := With(v1, "ECIES", With(ecies, "MULTIPLE", multiple));
      var encryption := Property(merged, "ENCRYPTION");
      if encryption.Plain? && "RECIPIENT_ID_SIZE" in encryption.entries
      then With(v2, "ENCRYPTION", With(encryption, "RECIPIENT_ID_SIZE", length))
      else v2
  }

  /** createRuntimeConfiguration; `invariants` stands for the further relations that are checked. */
  function Created(invariants: Value -> bool, base: Value, overrides: Option<Value>): (r: Option<Value>)
    requires base.Plain? && (overrides.Some? ==> overrides.value.Plain?)
    ensures r.Some? ==> ValidConstants(r.value)
  {
    var merged := Synchronized(base, if overrides.None? then base else Merge(base, overrides.value));
    if ValidConstants(merged) && invariants(merged) then Some(merged) else None
  }

  // ---------- The built-in configuration ----------

  /** The numbers of a configuration that are checked. */
  datatype Sizes = Sizes(hashBits: int, hashBytes: int, iv: int, tag: int, key: int, encryptedKey: int,
                         publicKey: int, rawPublicKey: int, recipientCount: int, dataLength: int,
                         recipientId: int, memberId: int, provider: int)

  ghost predicate HasSizes(config: Value, s: Sizes) {
    && config.Plain?
    && (match Property(config, "idProvider")
        case Instance(_, length) => length == s.provider
        case provider => Property(provider, "byteLength") == Number(s.provider))
    && Property(config, "MEMBER_ID_LENGTH") == Number(s.memberId)
    && Path2(config, "CHECKSUM", "SHA3_DEFAULT_HASH_BITS") == Number(s.hashBits)
    && Path2(config, "CHECKSUM", "SHA3_BUFFER_LENGTH") == Number(s.hashBytes)
    && Path2(config, "ECIES", "IV_SIZE") == Number(s.iv) && Path2(config, "ECIES", "AUTH_TAG_SIZE") == Number(s.tag)
    && Path3(config, "ECIES", "SYMMETRIC", "KEY_SIZE") == Number(s.key)
    && Path2(config, "ECIES", "PUBLIC_KEY_LENGTH") == Number(s.publicKey)
    && Path2(config, "ECIES", "RAW_PUBLIC_KEY_LENGTH") == Number(s.rawPublicKey)
    && Path3(config, "ECIES", "MULTIPLE", "ENCRYPTED_KEY_SIZE") == Number(s.encryptedKey)
    && Path3(config, "ECIES", "MULTIPLE", "RECIPIENT_COUNT_SIZE") == Number(s.recipientCount)
    && Path3(config, "ECIES", "MULTIPLE", "DATA_LENGTH_SIZE") == Number(s.dataLength)
    && Path3(config, "ECIES", "MULTIPLE", "RECIPIENT_ID_SIZE") == Number(s.recipientId)
  }

  /** The numbers agree with each other. */
  predicate SizesConsistent(s: Sizes) {
    && s.hashBits == 8 * s.hashBytes && s.encryptedKey == s.iv + s.tag + s.key
    && s.publicKey == s.rawPublicKey + 1 && s.recipientCount == 2 && s.dataLength == 8
    && 1 <= s.provider <= 255 && s.memberId == s.provider && s.recipientId == s.provider
  }

  lemma SizesValidIff(config: Value, s: Sizes)
    requires HasSizes(config, s)
    ensures ValidConstants(config) <==> SizesConsistent(s)
  {
  }

  /** An override of one number. */
  predicate Changes(said: Value, before: int, after: int) {
    (said.Undefined? && after == before) || said == Number(after)
  }

  predicate ObjectOrNothing(v: Value) {
    v.Plain? || v.Undefined?
  }

  /** Overrides that turn the numbers s into t and leave the provider alone; other entries may be set as well. */
  ghost predicate ChangesSizes(o: Value, s: Sizes, t: Sizes) {
    && o.Plain? && Property(o, "idProvider").Undefined? && t.provider == s.provider
    && ObjectOrNothing(Property(o, "CHECKSUM")) && ObjectOrNothing(Property(o, "ECIES"))
    && ObjectOrNothing(Path2(o, "ECIES", "SYMMETRIC")) && ObjectOrNothing(Path2(o, "ECIES", "MULTIPLE"))
    && Changes(Property(o, "MEMBER_ID_LENGTH"), s.memberId, t.memberId)
    && Changes(Path2(o, "CHECKSUM", "SHA3_DEFAULT_HASH_BITS"), s.hashBits, t.hashBits)
    && Changes(Path2(o, "CHECKSUM", "SHA3_BUFFER_LENGTH"), s.hashBytes, t.hashBytes)
    && Changes(Path2(o, "ECIES", "IV_SIZE"), s.iv, t.iv)
    && Changes(Path2(o, "ECIES", "AUTH_TAG_SIZE"), s.tag, t.tag)
    && Changes(Path3(o, "ECIES", "SYMMETRIC", "KEY_SIZE"), s.key, t.key)
    && Changes(Path2(o, "ECIES", "PUBLIC_KEY_LENGTH"), s.publicKey, t.publicKey)
    && Changes(Path2(o, "ECIES", "RAW_PUBLIC_KEY_LENGTH"), s.rawPublicKey, t.rawPublicKey)
    && Changes(Path3(o, "ECIES", "MULTIPLE", "ENCRYPTED_KEY_SIZE"), s.encryptedKey, t.encryptedKey)
    && Changes(Path3(o, "ECIES", "MULTIPLE", "RECIPIENT_COUNT_SIZE"), s.recipientCount, t.recipientCount)
    && Changes(Path3(o, "ECIES", "MULTIPLE", "DATA_LENGTH_SIZE"), s.dataLength, t.dataLength)
    && Changes(Path3(o, "ECIES", "MULTIPLE", "RECIPIENT_ID_SIZE"), s.recipientId, t.recipientId)
  }

  /** A merged entry is the entry of the base, the override's, or both merged in turn. */
  lemma MergedEntry(base: Value, overrides: Value, key: string)
    requires base.Plain? && overrides.Plain?
    ensures var b, o, m := Property(base, key), Property(overrides, key), Property(Merge(base, overrides), key);
            m == if o.Undefined? then b else if b.Plain? && o.Plain? then Merge(b, o) else o
  {
  }

  lemma MergedNumber(base: Value, overrides: Value, key: string, before: int, after: int)
    requires ObjectOrNothing(overrides) && Property(base, key) == Number(before)
    requires Changes(Property(overrides, key), before, after)
    ensures Property(Merged(base, overrides), key) == Number(after)
  {
    hide Merge;
    if overrides.Plain? {
      MergedEntry(base, overrides, key);
    }
  }

  /** An object under a key of the base, after the merge. */
  function Merged(base: Value, overrides: Value): Value
    requires base.Plain? && ObjectOrNothing(overrides)
  {
    if overrides.Plain? then Merge(base, overrides) else base
  }

  lemma MergedObject(base: Value, overrides: Value, key: string)
    requires Property(base, key).Plain?
    requires ObjectOrNothing(overrides) && ObjectOrNothing(Property(overrides, key))
    ensures Property(Merged(base, overrides), key) == Merged(Property(base, key), Property(overrides, key))
  {
    hide Merge;
    if overrides.Plain? {
      MergedEntry(base, overrides, key);
    }
  }

  lemma MergedSizes(base: Value, o: Value, s: Sizes, t: Sizes)
    requires HasSizes(base, s) && ChangesSizes(o, s, t)
    ensures HasSizes(Merge(base, o), t)
    ensures Property(Merge(base, o), "idProvider") == Property(base, "idProvider")
  {
    var e, p := Property(base, "ECIES"), Property(o, "ECIES");
    assert Merge(base, o) == Merged(base, o);
    MergedEntry(base, o, "idProvider");
    hide Merge, Merged;
    MergedNumber(base, o, "MEMBER_ID_LENGTH", s.memberId, t.memberId);
    MergedObject(base, o, "CHECKSUM");
    MergedObject(base, o, "ECIES");
    MergedObject(e, p, "SYMMETRIC");
    MergedObject(e, p, "MULTIPLE");
    hide ObjectOrNothing, Changes;
    var c, d := Property(base, "CHECKSUM"), Property(o, "CHECKSUM");
    MergedNumber(c, d, "SHA3_DEFAULT_HASH_BITS", s.hashBits, t.hashBits);
    MergedNumber(c, d, "SHA3_BUFFER_LENGTH", s.hashBytes, t.hashBytes);
    MergedNumber(e, p, "IV_SIZE", s.iv, t.iv);
    MergedNumber(e, p, "AUTH_TAG_SIZE", s.tag, t.tag);
    MergedNumber(e, p, "PUBLIC_KEY_LENGTH", s.publicKey, t.publicKey);
    MergedNumber(e, p, "RAW_PUBLIC_KEY_LENGTH", s.rawPublicKey, t.rawPublicKey);
    MergedNumber(Property(e, "SYMMETRIC"), Property(p, "SYMMETRIC"), "KEY_SIZE", s.key, t.key);
    var m, q := Property(e, "MULTIPLE"), Property(p, "MULTIPLE");
    MergedNumber(m, q, "ENCRYPTED_KEY_SIZE", s.encryptedKey, t.encryptedKey);
    MergedNumber(m, q, "RECIPIENT_COUNT_SIZE", s.recipientCount, t.recipientCount);
    MergedNumber(m, q, "DATA_LENGTH_SIZE", s.dataLength, t.dataLength);
    MergedNumber(m, q, "RECIPIENT_ID_SIZE", s.recipientId, t.recipientId);
  }

  /** Overrides that leave a provider object alone are accepted exactly when the numbers that come out agree: a buffer
      of hashBits / 8 bytes, an encrypted key of vector, tag and key, a public key one byte longer than the raw one, a
      count of two bytes, a length of eight, and ids as long as the provider's. */
  lemma OverridesAcceptedIff(invariants: Value -> bool, base: Value, o: Value, s: Sizes, t: Sizes)
    requires HasSizes(base, s) && Property(base, "idProvider").Instance? && ChangesSizes(o, s, t)
    requires invariants(Merge(base, o))
    ensures Created(invariants, base, Some(o)).Some? <==>
      && t.hashBits == 8 * t.hashBytes && t.encryptedKey == t.iv + t.tag + t.key
      && t.publicKey == t.rawPublicKey + 1 && t.recipientCount == 2 && t.dataLength == 8
      && 1 <= t.provider <= 255 && t.memberId == t.provider && t.recipientId == t.provider
    ensures Created(invariants, base, Some(o)).Some? ==> HasSizes(Created(invariants, base, Some(o)).value, t)
  {
    hide Merge, HasSizes, ValidConstants, ChangesSizes, ProviderChanged, Created;
    assert o.Plain? && base.Plain? by { PlainSizes(base, o, s, t); }
    MergedSizes(base, o, s, t);
    SizesValidIff(Merge(base, o), t);
    ProviderKept(base, Merge(base, o));
    CreatedUnsynchronized(invariants, base, Some(o));
  }

  lemma PlainSizes(base: Value, o: Value, s: Sizes, t: Sizes)
    requires HasSizes(base, s) && ChangesSizes(o, s, t)
    ensures base.Plain? && o.Plain?
  {
  }

  /** Where the provider stays, what is created is the merge, if it is valid. */
  lemma CreatedUnsynchronized(invariants: Value -> bool, base: Value, overrides: Option<Value>)
    requires base.Plain? && (overrides.Some? ==> overrides.value.Plain?)
    requires !ProviderChanged(base, if overrides.None? then base else Merge(base, overrides.value))
    ensures var merged := if overrides.None? then base else Merge(base, overrides.value);
            Created(invariants, base, overrides)
            == if ValidConstants(merged) && invariants(merged) then Some(merged) else None
  {
    hide ValidConstants, ProviderChanged, Merge;
  }

  lemma ProviderKept(base: Value, merged: Value)
    requires Property(base, "idProvider").Instance? && Property(merged, "idProvider") == Property(base, "idProvider")
    ensures !ProviderChanged(base, merged)
  {
  }

  /** What the library ships, as far as it is checked: SHA3-512, AES-256-GCM with vectors of 12 bytes, compressed keys,
      and object ids of 12 bytes. */
  function BuiltInConstants(): Value {
    Plain(map[
      "MEMBER_ID_LENGTH" := Number(12),
      "idProvider" := Instance(0, 12),
      "CHECKSUM" := Plain(map["SHA3_DEFAULT_HASH_BITS" := Number(512), "SHA3_BUFFER_LENGTH" := Number(64)]),
      "ECIES" := BuiltInEcies()])
  }

  function BuiltInEcies(): Value {
    Plain(map[
      "IV_SIZE" := Number(12), "AUTH_TAG_SIZE" := Number(16),
      "PUBLIC_KEY_LENGTH" := Number(33), "RAW_PUBLIC_KEY_LENGTH" := Number(32),
      "SYMMETRIC" := Plain(map["KEY_SIZE" := Number(32)]),
      "MULTIPLE" := BuiltInMultiple()])
  }

  function BuiltInMultiple(): Value {
    Plain(map["ENCRYPTED_KEY_SIZE" := Number(60), "RECIPIENT_COUNT_SIZE" := Number(2),
              "DATA_LENGTH_SIZE" := Number(8), "RECIPIENT_ID_SIZE" := Number(12)])
  }

  function BuiltInSizes(): Sizes {
    Sizes(512, 64, 12, 16, 32, 60, 33, 32, 2, 8, 12, 12, 12)
  }

  lemma BuiltInHasSizes()
    ensures HasSizes(BuiltInConstants(), BuiltInSizes())
    ensures Property(BuiltInConstants(), "idProvider") == Instance(0, 12)
  {
    assert Property(BuiltInConstants(), "ECIES") == BuiltInEcies();
    assert Property(BuiltInEcies(), "MULTIPLE") == BuiltInMultiple();
    EciesSizes();
    MultipleSizes();
    hide BuiltInMultiple, BuiltInEcies;
  }

  lemma EciesSizes()
    ensures var e := BuiltInEcies();
            && Property(e, "IV_SIZE") == Number(12) && Property(e, "AUTH_TAG_SIZE") == Number(16)
            && Property(e, "PUBLIC_KEY_LENGTH") == Number(33) && Property(e, "RAW_PUBLIC_KEY_LENGTH") == Number(32)
            && Path2(e, "SYMMETRIC", "KEY_SIZE") == Number(32)
  {
    hide BuiltInMultiple;
  }

  lemma MultipleSizes()
    ensures var m := BuiltInMultiple();
            && Property(m, "ENCRYPTED_KEY_SIZE") == Number(60) && Property(m, "RECIPIENT_COUNT_SIZE") == Number(2)
            && Property(m, "DATA_LENGTH_SIZE") == Number(8) && Property(m, "RECIPIENT_ID_SIZE") == Number(12)
  {
  }

  /** The built-in configuration is accepted as it is. With a vector of 16 bytes it is refused, unless the overrides
      also set the key size that follows from it. */
  lemma BuiltInAccepted(invariants: Value -> bool, o: Value)
    requires ChangesSizes(o, BuiltInSizes(), BuiltInSizes().(iv := 16))
          || ChangesSizes(o, BuiltInSizes(), BuiltInSizes().(iv := 16, encryptedKey := 64))
    requires invariants(BuiltInConstants()) && invariants(Merge(BuiltInConstants(), o))
    ensures Created(invariants, BuiltInConstants(), None) == Some(BuiltInConstants())
    ensures Created(invariants, BuiltInConstants(), Some(o)).Some?
       <==> Path3(o, "ECIES", "MULTIPLE", "ENCRYPTED_KEY_SIZE") == Number(64)
  {
    var s := BuiltInSizes();
    BuiltInHasSizes();
    SizesValidIff(BuiltInConstants(), s);
    hide BuiltInConstants, Merge, HasSizes, ValidConstants;
    if ChangesSizes(o, s, s.(iv := 16)) {
      OverridesAcceptedIff(invariants, BuiltInConstants(), o, s, s.(iv := 16));
    } else {
      OverridesAcceptedIff(invariants, BuiltInConstants(), o, s, s.(iv := 16, encryptedKey := 64));
    }
  }

  /** Replacing nothing but the provider of a valid configuration always gives one whose lengths agree again. */
  lemma NewProviderIsConsistent(base: Value, id: nat, length: int)
    requires ValidConstants(base) && 1 <= length <= 255
    requires Property(base, "idProvider") != Instance(id, length)
    ensures var overrides := Plain(map["idProvider" := Instance(id, length)]);
            var merged := Synchronized(base, Merge(base, overrides));
            ValidConstants(merged) && ByteLength(Property(merged, "idProvider")) == Number(length)
  {
    var provider := Instance(id, length);
    var merged := Merge(base, Plain(map["idProvider" := provider]));
    assert merged == With(base, "idProvider", provider);
    SynchronizedParts(base, merged, provider);
  }

  /** Synchronizing changes the three lengths and nothing else that is checked. */
  lemma SynchronizedParts(base: Value, merged: Value, provider: Value)
    requires ValidConstants(base) && merged == With(base, "idProvider", provider)
    requires ProviderChanged(base, merged) && provider.Instance? && 1 <= provider.byteLength <= 255
    ensures var v := Synchronized(base, merged);
            ValidConstants(v) && Property(v, "idProvider") == provider
  {
    var v := Synchronized(base, merged);
    hide ProviderChanged;
    var e, m := Property(base, "ECIES"), Path2(base, "ECIES", "MULTIPLE");
    var length := Number(provider.byteLength);
    assert Property(v, "idProvider") == provider && Property(v, "MEMBER_ID_LENGTH") == length;
    assert Property(v, "CHECKSUM") == Property(base, "CHECKSUM");
    assert Property(v, "ECIES") == With(e, "MULTIPLE", With(m, "RECIPIENT_ID_SIZE", length));
    hide Synchronized;
    SizesKept(base, v, length);
  }

  lemma SizesKept(base: Value, v: Value, length: Value)
    requires SizesAgree(base) && Property(v, "CHECKSUM") == Property(base, "CHECKSUM")
    requires Property(v, "ECIES")
          == With(Property(base, "ECIES"), "MULTIPLE",
                  With(Path2(base, "ECIES", "MULTIPLE"), "RECIPIENT_ID_SIZE", length))
    ensures SizesAgree(v) && Path3(v, "ECIES", "MULTIPLE", "RECIPIENT_ID_SIZE") == length
  {
    var e, m := Property(base, "ECIES"), Path2(base, "ECIES", "MULTIPLE");
    var m2 := With(m, "RECIPIENT_ID_SIZE", length);
    assert forall k :: k != "RECIPIENT_ID_SIZE" ==> Property(m2, k) == Property(m, k);
    assert forall k :: k != "MULTIPLE" ==> Property(Property(v, "ECIES"), k) == Property(e, k);
  }

  // ---------- Creating twice ----------

  /** Merging these overrides in changes nothing. */
  ghost predicate Absorbs(v: Value, overrides: Value) {
    v.Plain? && overrides.Plain? && Merge(v, overrides) == v
  }

  /** The same for one entry. */
  ghost predicate Takes(value: Value, override: Value) {
    if value.Plain? && override.Plain? then Absorbs(value, override) else value == override
  }

  /** Overrides are absorbed exactly when each of their entries is. */
  lemma AbsorbsIff(v: Value, overrides: Value)
    requires v.Plain? && overrides.Plain?
    ensures Absorbs(v, overrides) <==> forall k :: k in SetKeys(overrides.entries) ==>
      k in v.entries && Takes(v.entries[k], overrides.entries[k])
  {
    var m := Merge(v, overrides);
    if forall k :: k in SetKeys(overrides.entries) ==> k in v.entries && Takes(v.entries[k], overrides.entries[k]) {
      assert m.entries.Keys == v.entries.Keys;
      assert m.entries == v.entries;
    }
    if Absorbs(v, overrides) {
      forall k | k in SetKeys(overrides.entries)
        ensures k in v.entries && Takes(v.entries[k], overrides.entries[k])
      {
        assert k in m.entries;
      }
    }
  }

  /** A value that absorbs, except that some entries were replaced. */
  ghost predicate Replaced(v: Value, w: Value, overrides: Value, keys: set<string>) {
    && Absorbs(v, overrides) && w.Plain? && w.entries.Keys == v.entries.Keys + keys
    && forall k :: k in v.entries && k !in keys ==> w.entries[k] == v.entries[k]
  }

  lemma ReplacedAbsorbsIff(v: Value, w: Value, overrides: Value, keys: set<string>)
    requires Replaced(v, w, overrides, keys)
    ensures Absorbs(w, overrides) <==>
      forall k :: k in keys && k in SetKeys(overrides.entries) ==> Takes(w.entries[k], overrides.entries[k])
  {
    AbsorbsIff(v, overrides);
    AbsorbsIff(w, overrides);
    hide Absorbs, Takes, SetKeys;
  }

  /** Merging the overrides once more touches the replaced entries alone. */
  lemma MergeReplaced(v: Value, w: Value, overrides: Value, keys: set<string>)
    requires Replaced(v, w, overrides, keys)
    ensures var m := Merge(w, overrides);
            && m.entries.Keys == w.entries.Keys
            && forall k :: k in w.entries && k !in keys ==> m.entries[k] == w.entries[k]
  {
    AbsorbsIff(v, overrides);
  }

  /** What the overrides themselves say about a length. */
  predicate Unopposed(said: Value, length: Value) {
    said.Undefined? || said == length
  }

  /** The overrides set none of the lengths that follow the provider to anything else. */
  predicate LengthsUnopposed(overrides: Value, length: Value) {
    && Unopposed(Property(overrides, "MEMBER_ID_LENGTH"), length)
    && Unopposed(Path3(overrides, "ECIES", "MULTIPLE", "RECIPIENT_ID_SIZE"), length)
    && Unopposed(Path2(overrides, "ENCRYPTION", "RECIPIENT_ID_SIZE"), length)
  }

  lemma FieldIff(v: Value, overrides: Value, key: string, length: Value)
    requires Absorbs(v, overrides) && length.Number?
    ensures Absorbs(With(v, key, length), overrides) <==> Unopposed(Property(overrides, key), length)
  {
    ReplacedAbsorbsIff(v, With(v, key, length), overrides, {key});
    hide Absorbs;
  }

  function WithRecipientSize(ecies: Value, length: Value): Value {
    With(ecies, "MULTIPLE", With(Property(ecies, "MULTIPLE"), "RECIPIENT_ID_SIZE", length))
  }

  lemma NestedFieldIff(ecies: Value, overrides: Value, length: Value)
    requires Absorbs(ecies, overrides) && Property(ecies, "MULTIPLE").Plain? && length.Number?
    ensures Absorbs(WithRecipientSize(ecies, length), overrides)
       <==> Unopposed(Path2(overrides, "MULTIPLE", "RECIPIENT_ID_SIZE"), length)
  {
    var multiple := Property(ecies, "MULTIPLE");
    ReplacedAbsorbsIff(ecies, WithRecipientSize(ecies, length), overrides, {"MULTIPLE"});
    AbsorbsIff(ecies, overrides);
    hide Absorbs;
    if "MULTIPLE" in SetKeys(overrides.entries) {
      assert Takes(multiple, overrides.entries["MULTIPLE"]);
      FieldIff(multiple, overrides.entries["MULTIPLE"], "RECIPIENT_ID_SIZE", length);
    }
  }

  predicate HasRecipientSize(encryption: Value) {
    encryption.Plain? && "RECIPIENT_ID_SIZE" in encryption.entries
  }

  /** The entries that follow a changed provider. */
  function Followers(merged: Value): set<string> {
    {"MEMBER_ID_LENGTH", "ECIES"} + if HasRecipientSize(Property(merged, "ENCRYPTION")) then {"ENCRYPTION"} else {}
  }

  lemma SynchronizedEntries(base: Value, merged: Value)
    requires merged.Plain? && ProviderChanged(base, merged)
    ensures var length := ByteLength(Property(merged, "idProvider"));
            var v := Synchronized(base, merged);
            && v.entries.Keys == merged.entries.Keys + Followers(merged)
            && (forall k :: k in merged.entries && k !in Followers(merged) ==> v.entries[k] == merged.entries[k])
            && v.entries["MEMBER_ID_LENGTH"] == length
            && v.entries["ECIES"] == WithRecipientSize(Property(merged, "ECIES"), length)
            && (HasRecipientSize(Property(merged, "ENCRYPTION")) ==>
                v.entries["ENCRYPTION"] == With(Property(merged, "ENCRYPTION"), "RECIPIENT_ID_SIZE", length))
  {
    hide ProviderChanged;
  }

  /** Valid sizes leave no room for anything but objects there. */
  lemma SizesNeedObjects(config: Value, ecies: Value, length: Value)
    requires SizesAgree(config) && Property(config, "ECIES") == WithRecipientSize(ecies, length)
    ensures ecies.Plain? && Property(ecies, "MULTIPLE").Plain?
  {
    assert Property(WithRecipientSize(ecies, length), "IV_SIZE") == Property(ecies, "IV_SIZE");
    assert Path2(WithRecipientSize(ecies, length), "MULTIPLE", "ENCRYPTED_KEY_SIZE")
        == Path2(ecies, "MULTIPLE", "ENCRYPTED_KEY_SIZE");
  }

  lemma EciesTakesIff(merged: Value, overrides: Value, length: Value)
    requires Absorbs(merged, overrides) && length.Number?
    requires Property(merged, "ECIES").Plain? && Path2(merged, "ECIES", "MULTIPLE").Plain?
    ensures ("ECIES" in SetKeys(overrides.entries) ==>
               Takes(WithRecipientSize(Property(merged, "ECIES"), length), overrides.entries["ECIES"]))
       <==> Unopposed(Path3(overrides, "ECIES", "MULTIPLE", "RECIPIENT_ID_SIZE"), length)
  {
    var ecies, o := Property(merged, "ECIES"), overrides.entries;
    AbsorbsIff(merged, overrides);
    if "ECIES" in SetKeys(o) {
      assert Takes(ecies, o["ECIES"]);
      hide Absorbs, SetKeys;
      NestedFieldIff(ecies, o["ECIES"], length);
    }
  }

  lemma EncryptionTakesIff(merged: Value, overrides: Value, length: Value)
    requires Absorbs(merged, overrides) && length.Number?
    ensures (HasRecipientSize(Property(merged, "ENCRYPTION")) && "ENCRYPTION" in SetKeys(overrides.entries) ==>
               Takes(With(Property(merged, "ENCRYPTION"), "RECIPIENT_ID_SIZE", length),
                     overrides.entries["ENCRYPTION"]))
       <==> Unopposed(Path2(overrides, "ENCRYPTION", "RECIPIENT_ID_SIZE"), length)
  {
    var encryption, o := Property(merged, "ENCRYPTION"), overrides.entries;
    AbsorbsIff(merged, overrides);
    if "ENCRYPTION" in SetKeys(o) {
      assert Takes(encryption, o["ENCRYPTION"]);
      if HasRecipientSize(encryption) {
        hide Absorbs, SetKeys;
        FieldIff(encryption, o["ENCRYPTION"], "RECIPIENT_ID_SIZE", length);
      } else if encryption.Plain? {
        AbsorbsIff(encryption, o["ENCRYPTION"]);
      }
    }
  }

  /** What was synchronized still absorbs the overrides exactly when they oppose none of the lengths. */
  lemma SynchronizedAbsorbsIff(base: Value, merged: Value, overrides: Value)
    requires Absorbs(merged, overrides) && ProviderChanged(base, merged)
    requires ValidConstants(Synchronized(base, merged))
    ensures Absorbs(Synchronized(base, merged), overrides)
       <==> LengthsUnopposed(overrides, ByteLength(Property(merged, "idProvider")))
  {
    var length, c := ByteLength(Property(merged, "idProvider")), Synchronized(base, merged);
    SynchronizedEntries(base, merged);
    SizesNeedObjects(c, Property(merged, "ECIES"), length);
    assert length.Number?;
    hide Synchronized, SizesAgree, ProviderChanged, ByteLength, Absorbs, Merge;
    ReplacedAbsorbsIff(merged, c, overrides, Followers(merged));
    EciesTakesIff(merged, overrides, length);
    EncryptionTakesIff(merged, overrides, length);
    hide Takes, WithRecipientSize, With;
    assert "MEMBER_ID_LENGTH" in Followers(merged) && "ECIES" in Followers(merged);
    assert ("MEMBER_ID_LENGTH" in SetKeys(overrides.entries) ==> Takes(length, overrides.entries["MEMBER_ID_LENGTH"]))
      <==> Unopposed(Property(overrides, "MEMBER_ID_LENGTH"), length) by {
      NumberTakesIff(overrides, "MEMBER_ID_LENGTH", length);
    }
  }

  lemma NumberTakesIff(overrides: Value, key: string, length: Value)
    requires overrides.Plain? && length.Number?
    ensures (key in SetKeys(overrides.entries) ==> Takes(length, overrides.entries[key]))
       <==> Unopposed(Property(overrides, key), length)
  {
  }

  lemma FieldAgain(v: Value, overrides: Value, key: string, length: Value)
    requires Absorbs(v, overrides)
    ensures With(Merge(With(v, key, length), overrides), key, length) == With(v, key, length)
  {
    MergeReplaced(v, With(v, key, length), overrides, {key});
    hide Absorbs, Merge;
    assert With(Merge(With(v, key, length), overrides), key, length).entries == With(v, key, length).entries;
  }

  lemma NestedFieldAgain(ecies: Value, overrides: Value, length: Value)
    requires Absorbs(ecies, overrides) && Property(ecies, "MULTIPLE").Plain?
    ensures WithRecipientSize(Merge(WithRecipientSize(ecies, length), overrides), length)
         == WithRecipientSize(ecies, length)
  {
    var multiple, w := Property(ecies, "MULTIPLE"), WithRecipientSize(ecies, length);
    var m := Merge(w, overrides);
    MergeReplaced(ecies, w, overrides, {"MULTIPLE"});
    AbsorbsIff(ecies, overrides);
    if "MULTIPLE" in SetKeys(overrides.entries) {
      assert Takes(multiple, overrides.entries["MULTIPLE"]);
      FieldAgain(multiple, overrides.entries["MULTIPLE"], "RECIPIENT_ID_SIZE", length);
    }
    assert With(Property(m, "MULTIPLE"), "RECIPIENT_ID_SIZE", length) == Property(w, "MULTIPLE");
    assert WithRecipientSize(m, length).entries == w.entries;
  }

  lemma EciesAgain(merged: Value, c: Value, overrides: Value, length: Value)
    requires Replaced(merged, c, overrides, Followers(merged))
    requires Property(merged, "ECIES").Plain? && Path2(merged, "ECIES", "MULTIPLE").Plain?
    requires Property(c, "ECIES") == WithRecipientSize(Property(merged, "ECIES"), length)
    ensures WithRecipientSize(Property(Merge(c, overrides), "ECIES"), length) == Property(c, "ECIES")
  {
    var ecies, o := Property(merged, "ECIES"), overrides.entries;
    AbsorbsIff(merged, overrides);
    var w := WithRecipientSize(ecies, length);
    if "ECIES" in SetKeys(o) {
      assert Takes(ecies, o["ECIES"]);
      assert Property(Merge(c, overrides), "ECIES") == Merge(w, o["ECIES"]);
      hide *;
      NestedFieldAgain(ecies, o["ECIES"], length);
    } else {
      assert Property(Merge(c, overrides), "ECIES") == w;
      hide Merge, Absorbs;
      assert Property(WithRecipientSize(w, length), "MULTIPLE").entries == Property(w, "MULTIPLE").entries;
      assert WithRecipientSize(w, length).entries == w.entries;
    }
  }

  lemma EncryptionAgain(merged: Value, c: Value, overrides: Value, length: Value)
    requires Replaced(merged, c, overrides, Followers(merged)) && HasRecipientSize(Property(merged, "ENCRYPTION"))
    requires Property(c, "ENCRYPTION") == With(Property(merged, "ENCRYPTION"), "RECIPIENT_ID_SIZE", length)
    ensures var encryption := Property(Merge(c, overrides), "ENCRYPTION");
            HasRecipientSize(encryption) && With(encryption, "RECIPIENT_ID_SIZE", length) == Property(c, "ENCRYPTION")
  {
    var encryption, o := Property(merged, "ENCRYPTION"), overrides.entries;
    AbsorbsIff(merged, overrides);
    var w := With(encryption, "RECIPIENT_ID_SIZE", length);
    if "ENCRYPTION" in SetKeys(o) {
      assert Takes(encryption, o["ENCRYPTION"]);
      assert Property(Merge(c, overrides), "ENCRYPTION") == Merge(w, o["ENCRYPTION"]);
      MergeReplaced(encryption, w, o["ENCRYPTION"], {"RECIPIENT_ID_SIZE"});
      FieldAgain(encryption, o["ENCRYPTION"], "RECIPIENT_ID_SIZE", length);
    } else {
      assert Property(Merge(c, overrides), "ENCRYPTION") == w;
      assert With(w, "RECIPIENT_ID_SIZE", length).entries == w.entries;
    }
  }

  /** With a provider that is a plain object, and so always counts as changed, the lengths are set once more. */
  lemma SynchronizedAgain(base: Value, merged: Value, overrides: Value)
    requires Absorbs(merged, overrides) && ProviderChanged(base, merged) && Property(merged, "idProvider").Plain?
    requires ValidConstants(Synchronized(base, merged))
    ensures var c := Synchronized(base, merged);
            Synchronized(c, Merge(c, overrides)) == c
  {
    var length, c := ByteLength(Property(merged, "idProvider")), Synchronized(base, merged);
    var m := Merge(c, overrides);
    assert SizesAgree(c);
    hide SizesAgree, Absorbs, Merge, Synchronized, ByteLength;
    SynchronizedEntries(base, merged);
    SizesNeedObjects(c, Property(merged, "ECIES"), length);
    hide ProviderChanged;
    assert Replaced(merged, c, overrides, Followers(merged));
    MergeReplaced(merged, c, overrides, Followers(merged));
    EciesAgain(merged, c, overrides, length);
    ProviderStays(merged, c, overrides);
    if HasRecipientSize(Property(merged, "ENCRYPTION")) {
      EncryptionAgain(merged, c, overrides, length);
    }
    hide *;
    NothingLeft(c, m, length);
  }

  /** Where all that follows the provider has its length already, synchronizing finds what was there. */
  lemma NothingLeft(c: Value, m: Value, length: Value)
    requires c.Plain? && m.Plain? && ProviderChanged(c, m) && ByteLength(Property(m, "idProvider")) == length
    requires c.entries.Keys == m.entries.Keys + Followers(m)
    requires forall k :: k in m.entries && k !in Followers(m) ==> m.entries[k] == c.entries[k]
    requires Property(c, "MEMBER_ID_LENGTH") == length
    requires WithRecipientSize(Property(m, "ECIES"), length) == Property(c, "ECIES")
    requires HasRecipientSize(Property(m, "ENCRYPTION")) ==>
      With(Property(m, "ENCRYPTION"), "RECIPIENT_ID_SIZE", length) == Property(c, "ENCRYPTION")
    ensures Synchronized(c, m) == c
  {
    SynchronizedEntries(c, m);
    hide ProviderChanged, Synchronized, With, ByteLength;
    SameValue(Synchronized(c, m), c, m, Followers(m));
  }

  lemma ProviderStays(merged: Value, c: Value, overrides: Value)
    requires Replaced(merged, c, overrides, Followers(merged)) && Property(merged, "idProvider").Plain?
    ensures Property(Merge(c, overrides), "idProvider") == Property(merged, "idProvider")
    ensures ProviderChanged(c, Merge(c, overrides))
  {
    MergeReplaced(merged, c, overrides, Followers(merged));
    hide Absorbs, Merge;
  }

  lemma SameValue(v: Value, w: Value, m: Value, keys: set<string>)
    requires v.Plain? && w.Plain? && m.Plain? && v.entries.Keys == m.entries.Keys + keys == w.entries.Keys
    requires forall k :: k in m.entries && k !in keys ==> v.entries[k] == m.entries[k] == w.entries[k]
    requires forall k :: k in keys ==> v.entries[k] == w.entries[k]
    ensures v == w
  {
    assert v.entries == w.entries;
  }

  /** The overrides replace the provider object of the base. */
  predicate ReplacesProvider(base: Value, overrides: Value) {
    Property(overrides, "idProvider").Instance? && Property(overrides, "idProvider") != Property(base, "idProvider")
  }

  /** Creating once more from the result with the same overrides gives the same configuration if and only if the
      overrides do not replace the provider, or set none of the lengths that follow it to anything but its own. */
  lemma CreatedTwiceIff(invariants: Value -> bool, base: Value, overrides: Value)
    requires base.Plain? && overrides.Plain? && Created(invariants, base, Some(overrides)).Some?
    ensures var once := Created(invariants, base, Some(overrides)).value;
            Created(invariants, once, Some(overrides)) == Some(once) <==>
            (ReplacesProvider(base, overrides) ==>
               LengthsUnopposed(overrides, ByteLength(Property(overrides, "idProvider"))))
  {
    var merged := Merge(base, overrides);
    MergeTwice(base, overrides);
    assert Absorbs(merged, overrides);
    ReplacedOrNot(base, overrides);
    if !ProviderChanged(base, merged) {
      NotSynchronized(base, merged);
      NotSynchronized(merged, merged);
    } else if Property(merged, "idProvider").Plain? {
      SynchronizedAgain(base, merged, overrides);
    } else {
      hide Merge, SizesAgree;
      ReplacedProviderKept(base, merged, overrides);
      SynchronizedAbsorbsIff(base, merged, overrides);
    }
  }

  /** What creation makes of the provider: a valid one is an instance or a plain object. */
  lemma ReplacedOrNot(base: Value, overrides: Value)
    requires base.Plain? && overrides.Plain? && ValidConstants(Synchronized(base, Merge(base, overrides)))
    ensures var merged := Merge(base, overrides);
            var provider := Property(merged, "idProvider");
            && (provider.Plain? || provider.Instance?)
            && (ReplacesProvider(base, overrides) ==> provider == Property(overrides, "idProvider"))
            && (provider.Instance? ==> (ProviderChanged(base, merged) <==> ReplacesProvider(base, overrides)))
            && (provider.Plain? ==> !ReplacesProvider(base, overrides) && ProviderChanged(base, merged))
            && (!ProviderChanged(base, merged) ==> !ProviderChanged(merged, merged))
  {
    hide SizesAgree;
  }

  lemma ReplacedProviderKept(base: Value, merged: Value, overrides: Value)
    requires Absorbs(merged, overrides) && ProviderChanged(base, merged)
    requires Property(merged, "idProvider").Instance?
    ensures var once := Synchronized(base, merged);
            Synchronized(once, Merge(once, overrides)) == Merge(once, overrides)
  {
    var once := Synchronized(base, merged);
    SynchronizedEntries(base, merged);
    MergeReplaced(merged, once, overrides, Followers(merged));
    hide Absorbs, Synchronized;
    assert Property(Merge(once, overrides), "idProvider") == Property(merged, "idProvider");
    NotSynchronized(once, Merge(once, overrides));
  }

  /** A new provider of 16 bytes beside a member id length of 12: accepted at first, refused on its own result. */
  lemma CreatedTwiceExample(base: Value)
    requires ValidConstants(base) && Property(base, "idProvider") == Instance(0, 12)
    ensures var overrides := Plain(map["idProvider" := Instance(1, 16), "MEMBER_ID_LENGTH" := Number(12)]);
            var once := Created(_ => true, base, Some(overrides));
            once.Some? && Created(_ => true, once.value, Some(overrides)) == None
  {
    var provider, wanted := Instance(1, 16), Number(12);
    var overrides := Plain(map["idProvider" := provider, "MEMBER_ID_LENGTH" := wanted]);
    var with := With(base, "idProvider", provider);
    assert Merge(base, overrides) == With(with, "MEMBER_ID_LENGTH", wanted);
    assert ProviderChanged(base, with);
    SynchronizedParts(base, with, provider);
    MemberLengthIgnored(base, with, wanted);
    hide SizesAgree, Synchronized, With, ProviderChanged;
    var once := Synchronized(base, with);
    MergedAgain(once, overrides, provider, wanted);
    NotSynchronized(once, Merge(once, overrides));
    hide Merge;
    assert ValidConstants(once) && !LengthsAgree(Merge(once, overrides));
  }

  /** The synchronized length does not depend on the one before. */
  lemma MemberLengthIgnored(base: Value, v: Value, length: Value)
    requires v.Plain? && ProviderChanged(base, v)
    ensures Synchronized(base, With(v, "MEMBER_ID_LENGTH", length)) == Synchronized(base, v)
  {
    var w := With(v, "MEMBER_ID_LENGTH", length);
    assert ProviderChanged(base, w);
    SynchronizedEntries(base, v);
    SynchronizedEntries(base, w);
    assert Followers(w) == Followers(v);
    hide Synchronized, ProviderChanged, WithRecipientSize, Followers;
    SameValue(Synchronized(base, w), Synchronized(base, v), v, Followers(v));
  }

  lemma MergedAgain(v: Value, overrides: Value, provider: Value, length: Value)
    requires v.Plain? && Property(v, "idProvider") == provider && provider.Instance? && length.Number?
    requires overrides == Plain(map["idProvider" := provider, "MEMBER_ID_LENGTH" := length])
    ensures var m := Merge(v, overrides);
            Property(m, "MEMBER_ID_LENGTH") == length && Property(m, "idProvider") == provider
            && !ProviderChanged(v, m)
  {
  }

  lemma NotSynchronized(base: Value, merged: Value)
    requires merged.Plain? && !ProviderChanged(base, merged)
    ensures Synchronized(base, merged) == merged
  {
  }

  // ---------- The registry ----------

  datatype Key = DefaultKey | Named(name: string)

  datatype Source = Default | Custom | Runtime

  datatype Provenance = Provenance(baseKey: Option<Key>, overrides: Value, source: Source, checksum: string)

  datatype RegistryError = CannotOverwriteDefaultConfiguration | InvalidConfiguration

  predicate IsFullConfig(v: Value) {
    && v.Plain?
    && !Property(v, "CHECKSUM").Undefined? && !Property(v, "ECIES").Undefined? && !Property(v, "PBKDF2").Undefined?
    && !Property(v, "PBKDF2_PROFILES").Undefined? && !Property(v, "idProvider").Undefined?
  }

  class ConstantsRegistry {
    const constants: Value
    const invariants: Value -> bool
    const checksum: Value -> string
    var configurations: map<Key, Value>
    var provenances: map<Key, Provenance>

    /** The two maps have the same keys, the default entry is the built-in one, and everything stored is valid. */
    ghost predicate Valid()
      reads this
    {
      && configurations.Keys == provenances.Keys
      && DefaultKey in configurations && configurations[DefaultKey] == constants
      && forall k :: k in configurations ==> ValidConstants(configurations[k])
    }

    constructor (constants: Value, invariants: Value -> bool, checksum: Value -> string)
      requires ValidConstants(constants)
      ensures Valid() && configurations == map[DefaultKey := constants]
      ensures provenances == map[DefaultKey := Provenance(None, Plain(map[]), Default, checksum(constants))]
      ensures this.constants == constants && this.invariants == invariants && this.checksum == checksum
    {
      this.constants, this.invariants, this.checksum := constants, invariants, checksum;
      configurations := map[DefaultKey := constants];
      provenances := map[DefaultKey := Provenance(None, Plain(map[]), Default, checksum(constants))];
    }

    /** An unknown key gives the default configuration. */
    function Get(key: Key): (config: Value)
      requires Valid()
      reads this
      ensures ValidConstants(config)
    {
      if key in configurations then configurations[key] else configurations[DefaultKey]
    }

    /** What registering would store. */
    function Configuration(input: Option<Value>, baseKey: Option<Key>): Option<Value>
      requires Valid() && (input.Some? ==> input.value.Plain?)
      reads this
    {
      if input.Some? && IsFullConfig(input.value) then Created(invariants, input.value, None)
      else Created(invariants, Get(if baseKey.Some? then baseKey.value else DefaultKey), input)
    }

    /** A full configuration has no base overrides of its own. */
    function RuntimeProvenance(input: Option<Value>, baseKey: Option<Key>, created: Value): Provenance {
      var base := Some(if baseKey.Some? then baseKey.value else DefaultKey);
      if input.Some? && IsFullConfig(input.value) then Provenance(base, Plain(map[]), Custom, checksum(created))
      else Provenance(base, if input.Some? then input.value else Plain(map[]), Runtime, checksum(created))
    }

    /** Stores the created configuration under its key, or fails and leaves both maps as they were. */
    method Register(key: Key, input: Option<Value>, baseKey: Option<Key>) returns (r: Result<Value, RegistryError>)
      requires Valid() && (input.Some? ==> input.value.Plain?)
      modifies this
      ensures Valid()
      ensures r.Ok? <==> key != DefaultKey && old(Configuration(input, baseKey)).Some?
      ensures r.Ok? ==> r.value == old(Configuration(input, baseKey)).value
      ensures r.Ok? ==> configurations == old(configurations)[key := r.value]
      ensures r.Ok? ==> provenances == old(provenances)[key := RuntimeProvenance(input, baseKey, r.value)]
      ensures r.Err? ==> unchanged(this)
      ensures r.Err? ==>
        r.error == if key == DefaultKey then CannotOverwriteDefaultConfiguration else InvalidConfiguration
    {
      hide LengthsAgree, SizesAgree, Created, IsFullConfig;
      if key == DefaultKey { return Err(CannotOverwriteDefaultConfiguration); }
      var base := if baseKey.Some? then baseKey.value else DefaultKey;
      var full := input.Some? && IsFullConfig(input.value);
      var created := if full then Created(invariants, input.value, None) else Created(invariants, Get(base), input);
      if created.None? { return Err(InvalidConfiguration); }
      var overrides := if full || input.None? then Plain(map[]) else input.value;
      var source := if full then Custom else Runtime;
      configurations := configurations[key := created.value];
      provenances := provenances[key := Provenance(Some(base), overrides, source, checksum(created.value))];
      return Ok(created.value);
    }

    /** Removes a named entry from both maps; the default cannot be removed. */
    method Unregister(key: Key) returns (removed: bool)
      requires Valid()
      modifies this
      ensures Valid()
      ensures removed <==> key != DefaultKey && key in old(configurations)
      ensures configurations == if key == DefaultKey then old(configurations) else old(configurations) - {key}
      ensures provenances == if key == DefaultKey then old(provenances) else old(provenances) - {key}
    {
      hide LengthsAgree, SizesAgree;
      if key == DefaultKey { return false; }
      removed := key in configurations;
      provenances := provenances - {key};
      configurations := configurations - {key};
    }

    /** Removes everything but the default entry, whose provenance is kept. */
    method Clear()
      requires Valid()
      modifies this
      ensures Valid() && configurations == map[DefaultKey := constants]
      ensures provenances == map[DefaultKey := old(provenances)[DefaultKey]]
    {
      hide LengthsAgree, SizesAgree;
      var defaultProvenance := provenances[DefaultKey];
      configurations, provenances := map[], map[];
      configurations := configurations[DefaultKey := constants];
      provenances := provenances[DefaultKey := defaultProvenance];
    }
  }

  /** A configuration is full when it sets these five. With a provider object it is taken as it is or not at all,
      whatever the base, and nothing is recorded as overridden. */
  lemma FullConfiguration(registry: ConstantsRegistry, v: Value, baseKey: Option<Key>)
    requires registry.Valid() && v.Plain? && Property(v, "idProvider").Instance?
    requires forall k :: k in {"CHECKSUM", "ECIES", "PBKDF2", "PBKDF2_PROFILES"} ==> Property(v, k) != Undefined
    ensures registry.Configuration(Some(v), baseKey)
         == if ValidConstants(v) && registry.invariants(v) then Some(v) else None
    ensures registry.RuntimeProvenance(Some(v), baseKey, v)
         == Provenance(Some(if baseKey.Some? then baseKey.value else DefaultKey), Plain(map[]), Custom,
                       registry.checksum(v))
  {
    FiveMakeFull(v);
    ProviderKept(v, v);
    CreatedUnsynchronized(registry.invariants, v, None);
    hide ValidConstants, ProviderChanged, IsFullConfig, Property, Created;
  }

  lemma FiveMakeFull(v: Value)
    requires v.Plain? && Property(v, "idProvider").Instance?
    requires forall k :: k in {"CHECKSUM", "ECIES", "PBKDF2", "PBKDF2_PROFILES"} ==> Property(v, k) != Undefined
    ensures IsFullConfig(v)
  {
    assert Property(v, "CHECKSUM") != Undefined && Property(v, "ECIES") != Undefined;
    assert Property(v, "PBKDF2") != Undefined && Property(v, "PBKDF2_PROFILES") != Undefined;
    hide Property;
  }

  /** Where one of the five is missing, the input is merged into the configuration under the base key, or into the
      default one, and is recorded. */
  lemma PartialConfiguration(registry: ConstantsRegistry, v: Value, baseKey: Option<Key>, key: string, c: Value)
    requires registry.Valid() && v.Plain? && Property(v, key).Undefined?
    requires key in {"CHECKSUM", "ECIES", "PBKDF2", "PBKDF2_PROFILES", "idProvider"}
    ensures var base := if baseKey.Some? && baseKey.value in registry.configurations
                        then registry.configurations[baseKey.value] else registry.constants;
            registry.Configuration(Some(v), baseKey) == Created(registry.invariants, base, Some(v))
    ensures registry.RuntimeProvenance(Some(v), baseKey, c)
         == Provenance(Some(if baseKey.Some? then baseKey.value else DefaultKey), v, Runtime, registry.checksum(c))
  {
    hide LengthsAgree, SizesAgree, Created;
  }
}
