/** HMAC_DRBG as the voting service runs it, against sections 10.1.2.2, 10.1.2.3 and 10.1.2.5 of
    NIST SP 800-90A. HMAC is an arbitrary function whose output length is that of its hash. */
module Drbg {
  import opened NumberTheory
  import opened ByteStrings
  import opened Results

  datatype HashAlgorithm = Sha1 | Sha256 | Sha384 | Sha512

  function OutputLength(algorithm: HashAlgorithm): (n: nat)
    ensures n > 0
  {
    match algorithm
    case Sha1 => 20
    case Sha256 => 32
    case Sha384 => 48
    case Sha512 => 64
  }

  type Hmac = (Bytes, Bytes) -> Bytes

  ghost predicate HasLength(hmac: Hmac, n: nat) {
    forall key: Bytes, data: Bytes :: |hmac(key, data)| == n
  }

  // ---------- The standard ----------

  datatype State = State(k: Bytes, v: Bytes)

  /** HMAC_DRBG_Update (section 10.1.2.2), with None for absent provided data. */
  function Update(hmac: Hmac, st: State, data: Option<Bytes>): (st': State) {
    var bytes := if data.Some? then data.value else [];
    var k1 := hmac(st.k, st.v + [0] + bytes);
    var v1 := hmac(k1, st.v);
    if data.None? then State(k1, v1)
    else
      var k2 := hmac(k1, v1 + [1] + bytes);
      State(k2, hmac(k2, v1))
  }

  /** HMAC_DRBG_Instantiate (section 10.1.2.3) for an output length. */
  function Instantiate(hmac: Hmac, outLen: nat, seed: Bytes): (st: State) {
    Update(hmac, State(seq(outLen, i => 0), seq(outLen, i => 1)), Some(seed))
  }

  /** The i-th value of V under a fixed key. */
  function Chain(hmac: Hmac, st: State, i: nat): (v: Bytes) {
    if i == 0 then st.v else hmac(st.k, Chain(hmac, st, i - 1))
  }

  /** V_1 || V_2 || ... || V_count */
  function ChainOutput(hmac: Hmac, st: State, count: nat): (out: Bytes) {
    if count == 0 then [] else ChainOutput(hmac, st, count - 1) + Chain(hmac, st, count)
  }

  function BlockCount(n: nat, outLen: nat): (c: nat)
    requires outLen > 0
  {
    (n + outLen - 1) / outLen
  }

  lemma {:induction false} ChainOutputLength(hmac: Hmac, st: State, count: nat, outLen: nat)
    requires HasLength(hmac, outLen)
    ensures |ChainOutput(hmac, st, count)| == count * outLen
  {
    if count > 0 {
      ChainOutputLength(hmac, st, count - 1, outLen);
      assert count * outLen == (count - 1) * outLen + outLen;
    }
  }

  lemma EnoughBlocks(n: nat, outLen: nat)
    requires outLen > 0
    ensures n <= BlockCount(n, outLen) * outLen < n + outLen
  {
    var s := n + outLen - 1;
    assert s == outLen * (s / outLen) + s % outLen;
  }

  /** HMAC_DRBG_Generate (section 10.1.2.5) without additional input: the output bytes. */
  function GenerateOutput(hmac: Hmac, outLen: nat, st: State, n: nat): (out: Bytes)
    requires outLen > 0 && HasLength(hmac, outLen)
    ensures |out| == n
  {
    ChainOutputLength(hmac, st, BlockCount(n, outLen), outLen);
    EnoughBlocks(n, outLen);
    ChainOutput(hmac, st, BlockCount(n, outLen))[..n]
  }

  /** HMAC_DRBG_Generate: the state left behind. */
  function GenerateState(hmac: Hmac, outLen: nat, st: State, n: nat): (st': State)
    requires outLen > 0
  {
    Update(hmac, State(st.k, Chain(hmac, st, BlockCount(n, outLen))), None)
  }

  /** Byte i of the output is byte i mod L of the (i / L + 1)-th chain value. */
  lemma {:induction false} OutputByte(hmac: Hmac, outLen: nat, st: State, count: nat, i: nat)
    requires outLen > 0 && HasLength(hmac, outLen) && i < count * outLen
    ensures |ChainOutput(hmac, st, count)| == count * outLen
    ensures ChainOutput(hmac, st, count)[i] == Chain(hmac, st, i / outLen + 1)[i % outLen]
  {
    ChainOutputLength(hmac, st, count, outLen);
    ChainOutputLength(hmac, st, count - 1, outLen);
    assert count * outLen == (count - 1) * outLen + outLen;
    if i < (count - 1) * outLen {
      OutputByte(hmac, outLen, st, count - 1, i);
    } else {
      LastBlockIndex(i, count, outLen);
    }
  }

  lemma LastBlockIndex(i: nat, count: nat, outLen: nat)
    requires outLen > 0 && count > 0 && (count - 1) * outLen <= i < count * outLen
    ensures i / outLen + 1 == count && i % outLen == i - (count - 1) * outLen
  {
    var d := i / outLen - (count - 1);
    assert outLen * d == i - i % outLen - outLen * (count - 1);
    assert d >= 1 ==> outLen * d >= outLen;
    assert d <= -1 ==> outLen * d + outLen <= 0;
  }

  lemma GenerateOutputByte(hmac: Hmac, outLen: nat, st: State, n: nat, i: nat)
    requires outLen > 0 && HasLength(hmac, outLen) && i < n
    ensures GenerateOutput(hmac, outLen, st, n)[i] == Chain(hmac, st, i / outLen + 1)[i % outLen]
  {
    EnoughBlocks(n, outLen);
    OutputByte(hmac, outLen, st, BlockCount(n, outLen), i);
  }

  /** A shorter request under the same state is a prefix of a longer one. */
  lemma OutputPrefix(hmac: Hmac, outLen: nat, st: State, m: nat, n: nat)
    requires outLen > 0 && HasLength(hmac, outLen) && m <= n
    ensures GenerateOutput(hmac, outLen, st, m) == GenerateOutput(hmac, outLen, st, n)[..m]
  {
    forall i | 0 <= i < m
      ensures GenerateOutput(hmac, outLen, st, m)[i] == GenerateOutput(hmac, outLen, st, n)[i]
    {
      GenerateOutputByte(hmac, outLen, st, m, i);
      GenerateOutputByte(hmac, outLen, st, n, i);
    }
  }

  /** A whole run of requests. */
  function Outputs(hmac: Hmac, outLen: nat, st: State, requests: seq<nat>): (outs: seq<Bytes>)
    requires outLen > 0 && HasLength(hmac, outLen)
    ensures |outs| == |requests|
    decreases |requests|
  {
    if requests == [] then []
    else [GenerateOutput(hmac, outLen, st, requests[0])]
         + Outputs(hmac, outLen, GenerateState(hmac, outLen, st, requests[0]), requests[1..])
  }

  // ---------- The states in terms of the HMAC ----------

  /** K and V start as zeros and ones of the output length. The first HMAC covers V, a zero byte and the seed, the
      second the new V, a one byte and the seed. */
  lemma InstantiatedState(hmac: Hmac, outLen: nat, seed: Bytes)
    ensures var zeros: Bytes, ones: Bytes := seq(outLen, _ => 0x00), seq(outLen, _ => 0x01);
            var k1 := hmac(zeros, ones + [0x00] + seed);
            var v1 := hmac(k1, ones);
            var k2 := hmac(k1, v1 + [0x01] + seed);
            Instantiate(hmac, outLen, seed) == State(k2, hmac(k2, v1))
  {
    assert seq(outLen, _ => 0x00) == seq(outLen, i => 0) && seq(outLen, _ => 0x01) == seq(outLen, i => 1);
  }

  /** One request draws the HMACs of V under K in turn. What is left behind is the HMAC of the last one and a zero byte
      as the key, and that of the last one under it. */
  lemma StateAfterRequest(hmac: Hmac, outLen: nat, st: State, n: nat)
    requires outLen > 0 && HasLength(hmac, outLen)
    ensures n == 0 ==>
      var k := hmac(st.k, st.v + [0x00]);
      GenerateState(hmac, outLen, st, n) == State(k, hmac(k, st.v))
    ensures 0 < n <= outLen ==>
      var v := hmac(st.k, st.v);
      var k := hmac(st.k, v + [0x00]);
      && GenerateOutput(hmac, outLen, st, n) == v[..n]
      && GenerateState(hmac, outLen, st, n) == State(k, hmac(k, v))
    ensures n > outLen ==>
      var v := hmac(st.k, st.v);
      && GenerateOutput(hmac, outLen, st, n) == v + GenerateOutput(hmac, outLen, State(st.k, v), n - outLen)
      && GenerateState(hmac, outLen, st, n) == GenerateState(hmac, outLen, State(st.k, v), n - outLen)
  {
    if n == 0 {
      BlockCountIs(0, outLen, 0);
      assert st.v + [0] + [] == st.v + [0x00];
    } else if n <= outLen {
      BlockCountIs(n, outLen, 1);
      OneBlock(hmac, st);
      assert Chain(hmac, st, 1) + [0] + [] == hmac(st.k, st.v) + [0x00];
    } else {
      LaterBlocks(hmac, outLen, st, n);
    }
  }

  lemma OneBlock(hmac: Hmac, st: State)
    ensures Chain(hmac, st, 1) == hmac(st.k, st.v) && ChainOutput(hmac, st, 1) == hmac(st.k, st.v)
  {
    assert Chain(hmac, st, 1) == hmac(st.k, Chain(hmac, st, 0));
    assert ChainOutput(hmac, st, 1) == ChainOutput(hmac, st, 0) + Chain(hmac, st, 1);
  }

  lemma BlockCountIs(n: nat, outLen: nat, count: nat)
    requires outLen > 0 && (count - 1) * outLen < n <= count * outLen
    ensures BlockCount(n, outLen) == count
  {
    Distribute(outLen, count, 1);
    DivModUnique(n + outLen - 1, count, n - 1 - (count - 1) * outLen, outLen);
  }

  lemma {:induction false} ChainFromNext(hmac: Hmac, st: State, count: nat)
    ensures var next := State(st.k, hmac(st.k, st.v));
            && Chain(hmac, st, count + 1) == Chain(hmac, next, count)
            && ChainOutput(hmac, st, count + 1) == next.v + ChainOutput(hmac, next, count)
  {
    OneBlock(hmac, st);
    if count > 0 {
      ChainFromNext(hmac, st, count - 1);
      var next := State(st.k, hmac(st.k, st.v));
      assert ChainOutput(hmac, st, count + 1) == ChainOutput(hmac, st, count) + Chain(hmac, st, count + 1);
      assert next.v + ChainOutput(hmac, next, count - 1) + Chain(hmac, next, count)
          == next.v + (ChainOutput(hmac, next, count - 1) + Chain(hmac, next, count));
    }
  }

  lemma LaterBlocks(hmac: Hmac, outLen: nat, st: State, n: nat)
    requires outLen > 0 && HasLength(hmac, outLen) && n > outLen
    ensures var v := hmac(st.k, st.v);
            && GenerateOutput(hmac, outLen, st, n) == v + GenerateOutput(hmac, outLen, State(st.k, v), n - outLen)
            && GenerateState(hmac, outLen, st, n) == GenerateState(hmac, outLen, State(st.k, v), n - outLen)
  {
    var count := BlockCount(n - outLen, outLen);
    var next := State(st.k, hmac(st.k, st.v));
    DivModUnique(n + outLen - 1, count + 1, (n - 1) % outLen, outLen) by {
      Distribute(outLen, count, 1);
      assert n - 1 == outLen * ((n - 1) / outLen) + (n - 1) % outLen;
      assert count == (n - 1) / outLen;
    }
    assert BlockCount(n, outLen) == count + 1;
    ChainFromNext(hmac, st, count);
    ChainOutputLength(hmac, next, count, outLen);
    EnoughBlocks(n - outLen, outLen);
    hide Update;
    assert (next.v + ChainOutput(hmac, next, count))[..n] == next.v + ChainOutput(hmac, next, count)[..n - outLen];
  }

  /** An HMAC that repeats the byte at place 64 of what is hashed, or the first byte of the key where there is none. */
  function Echo(): (hmac: Hmac)
    ensures HasLength(hmac, 64)
  {
    (key: Bytes, data: Bytes) =>
      seq(64, _ => if |data| > 64 then data[64] else if key != [] then key[0] else 0)
  }

  /** With it the separating bytes show in what is drawn. */
  lemma SeparatorsShow()
    ensures var st := Instantiate(Echo(), 64, [7]);
            && GenerateOutput(Echo(), 64, st, 1) == [1]
            && GenerateState(Echo(), 64, st, 1).k[0] == 0
  {
    EchoStarts();
    var st := Instantiate(Echo(), 64, [7]);
    hide Instantiate;
    StateAfterRequest(Echo(), 64, st, 1);
    hide GenerateOutput, GenerateState;
    EchoOnce(st);
  }

  lemma EchoStarts()
    ensures var st := Instantiate(Echo(), 64, [7]);
            |st.k| == |st.v| == 64 && st.k[0] == 1
  {
    var hmac := Echo();
    InstantiatedState(hmac, 64, [7]);
    hide Instantiate;
    var zeros: Bytes, ones: Bytes := seq(64, _ => 0x00), seq(64, _ => 0x01);
    var k1 := hmac(zeros, ones + [0x00] + [7]);
    var v1 := hmac(k1, ones);
    assert |v1| == 64 && (v1 + [0x01] + [7])[64] == 1;
  }

  lemma EchoOnce(st: State)
    requires |st.k| == |st.v| == 64 && st.k[0] == 1
    ensures var v := Echo()(st.k, st.v);
            v[..1] == [1] && Echo()(st.k, v + [0x00])[0] == 0
  {
    var v := Echo()(st.k, st.v);
    assert (v + [0x00])[64] == 0;
  }

  // ---------- The implementation ----------

  /** The length the code gives K and V at first: 64 for SHA-512, 32 for anything else. */
  function CodeLength(algorithm: HashAlgorithm): nat {
    if algorithm == Sha512 then 64 else 32
  }

  /** The code's first state is the standard's, whatever the HMAC and the seed. */
  ghost predicate StartsAsPrescribed(algorithm: HashAlgorithm) {
    forall hmac: Hmac, seed: Bytes :: HasLength(hmac, OutputLength(algorithm)) ==>
      Instantiate(hmac, CodeLength(algorithm), seed) == Instantiate(hmac, OutputLength(algorithm), seed)
  }

  /** It is exactly for SHA-256 and SHA-512. */
  lemma PrescribedIff(algorithm: HashAlgorithm)
    ensures StartsAsPrescribed(algorithm) <==> algorithm == Sha256 || algorithm == Sha512
  {
    if algorithm == Sha1 || algorithm == Sha384 {
      var hmac := Recorder(OutputLength(algorithm));
      OtherLengthDiffers(OutputLength(algorithm));
      assert Instantiate(hmac, CodeLength(algorithm), []) != Instantiate(hmac, OutputLength(algorithm), []);
    }
  }

  /** A keyed function that records in every byte whether 33 bytes were hashed at some time. */
  function Recorder(n: nat): (hmac: Hmac)
    ensures HasLength(hmac, n)
  {
    (key: Bytes, data: Bytes) => seq(n, _ => if |data| == 33 || (key != [] && key[0] == 1) then 1 else 0)
  }

  /** With SHA-384 (48 bytes) or SHA-1 (20 bytes) even the first byte drawn after the empty seed can be another one. */
  lemma OtherLengthDiffers(n: nat)
    requires n == 20 || n == 48
    ensures var hmac := Recorder(n);
            var code, standard := Instantiate(hmac, 32, []), Instantiate(hmac, n, []);
            && code.k[0] == 1 && standard.k[0] == 0
            && GenerateOutput(hmac, n, code, 1) == [1] && GenerateOutput(hmac, n, standard, 1) == [0]
  {
    var hmac := Recorder(n);
    RecorderStarts(n, 32);
    RecorderStarts(n, n);
    hide *;
    RecorderDraws(n, Instantiate(hmac, 32, []));
    RecorderDraws(n, Instantiate(hmac, n, []));
  }

  lemma RecorderDraws(n: nat, st: State)
    requires (n == 20 || n == 48) && |st.k| == |st.v| == n
    ensures GenerateOutput(Recorder(n), n, st, 1) == [if st.k[0] == 1 then 1 else 0]
  {
    FirstByte(Recorder(n), n, st);
    hide GenerateOutput;
  }

  lemma RecorderStarts(n: nat, length: nat)
    requires (n == 20 || n == 48) && (length == 32 || length == n)
    ensures var st := Instantiate(Recorder(n), length, []);
            |st.k| == |st.v| == n && st.k[0] == if length == 32 then 1 else 0
  {
    var hmac := Recorder(n);
    var k0, v0 := seq(length, i => 0), seq(length, i => 1);
    var k1 := hmac(k0, v0 + [0] + []);
    var v1 := hmac(k1, v0);
    var k2 := hmac(k1, v1 + [1] + []);
    assert |v0 + [0] + []| == length + 1 && |v1 + [1] + []| == n + 1;
    assert Instantiate(hmac, length, []) == State(k2, hmac(k2, v1));
    hide *;
  }

  lemma FirstByte(hmac: Hmac, n: nat, st: State)
    requires n > 0 && HasLength(hmac, n)
    ensures |hmac(st.k, st.v)| == n && GenerateOutput(hmac, n, st, 1) == [hmac(st.k, st.v)[0]]
  {
    GenerateOutputByte(hmac, n, st, 1, 0);
    DivModUnique(0, 0, 0, n);
    assert Chain(hmac, st, 1) == hmac(st.k, Chain(hmac, st, 0));
  }

  class SecureDeterministicDrbg {
    var v: Bytes
    var k: Bytes
    const hmac: Hmac
    const outLen: nat

    ghost predicate Valid()
      reads this
    {
      outLen > 0 && HasLength(hmac, outLen) && |v| == outLen
    }

    ghost function Abstract(): State
      reads this
    {
      State(k, v)
    }

    /** The constructor and the first update of the factory method. */
    constructor (seed: Bytes, algorithm: HashAlgorithm, hmac: Hmac)
      requires HasLength(hmac, OutputLength(algorithm))
      ensures Valid() && this.hmac == hmac && outLen == OutputLength(algorithm)
      ensures Abstract() == Instantiate(hmac, CodeLength(algorithm), seed)
      ensures algorithm == Sha256 || algorithm == Sha512 ==>
        Abstract() == Instantiate(hmac, OutputLength(algorithm), seed)
    {
      var hashLength := CodeLength(algorithm);
      this.hmac := hmac;
      outLen := OutputLength(algorithm);
      v := seq(hashLength, i => 1);
      k := seq(hashLength, i => 0);
      new;
      Reseed(Some(seed));
    }

    method Reseed(providedData: Option<Bytes>)
      modifies this
      ensures Abstract() == Update(hmac, old(Abstract()), providedData)
    {
      var data := v + [0];
      if providedData.Some? { data := data + providedData.value; }
      assert data == v + [0] + (if providedData.Some? then providedData.value else []);
      k := hmac(k, data);
      v := hmac(k, v);
      if providedData.Some? {
        data := v + [1] + providedData.value;
        k := hmac(k, data);
        v := hmac(k, v);
      }
    }

    method Generate(numBytes: nat) returns (result: Bytes)
      requires Valid()
      modifies this
      ensures Valid()
      ensures result == GenerateOutput(hmac, outLen, old(Abstract()), numBytes)
      ensures Abstract() == GenerateState(hmac, outLen, old(Abstract()), numBytes)
    {
      ghost var st, count := Abstract(), 0;
      result := [];
      EnoughBlocksIff(numBytes, outLen, 0);
      while |result| < numBytes
        invariant Valid() && k == st.k && v == Chain(hmac, st, count)
        invariant count <= BlockCount(numBytes, outLen)
        invariant |result| == numBytes <==> count == BlockCount(numBytes, outLen)
        invariant |ChainOutput(hmac, st, count)| == count * outLen
        invariant |result| == if numBytes < count * outLen then numBytes else count * outLen
        invariant result == ChainOutput(hmac, st, count)[..|result|]
        decreases numBytes - |result|
      {
        v := hmac(k, v);
        var copyLength := if |v| < numBytes - |result| then |v| else numBytes - |result|;
        count := count + 1;
        EnoughBlocksIff(numBytes, outLen, count);
        ChainOutputLength(hmac, st, count, outLen);
        AppendBlock(ChainOutput(hmac, st, count - 1), v, result, copyLength);
        assert count * outLen == (count - 1) * outLen + outLen;
        result := result + v[..copyLength];
      }
      Reseed(None);
    }

    /** A run of calls returns the standard's outputs, request by request. */
    method GenerateAll(requests: seq<nat>) returns (results: seq<Bytes>)
      requires Valid()
      modifies this
      ensures Valid()
      ensures results == Outputs(hmac, outLen, old(Abstract()), requests)
      decreases |requests|
    {
      if requests == [] { return []; }
      var first := Generate(requests[0]);
      var rest := GenerateAll(requests[1..]);
      return [first] + rest;
    }
  }

  /** The number of blocks is the least one that covers the request. */
  lemma EnoughBlocksIff(n: nat, outLen: nat, count: nat)
    requires outLen > 0
    ensures count * outLen >= n <==> count >= BlockCount(n, outLen)
  {
    EnoughBlocks(n, outLen);
    var d := BlockCount(n, outLen) - count;
    assert outLen * d == BlockCount(n, outLen) * outLen - count * outLen;
    assert d >= 1 ==> outLen * d >= outLen;
    assert d <= 0 ==> outLen * d <= 0;
  }

  lemma AppendBlock(done: Bytes, block: Bytes, result: Bytes, copied: nat)
    requires copied <= |block| && result == done
    ensures result + block[..copied] == (done + block)[..|done| + copied]
  {
  }
}
