/** Big-endian fields read and written at byte offsets, and whole arrays copied to offsets, as DataView and
    Uint8Array.set do. Setters keep only the low bytes of a value that does not fit. */
module DataViews {
  import opened ByteStrings
  import opened Sequences

  function GetUint(data: Bytes, offset: nat, width: nat): (v: nat)
    requires offset + width <= |data|
  {
    BigEndian(data[offset..offset + width])
  }

  /** A field that occupies the bytes read returns its value modulo its range. */
  lemma FieldReadsBack(data: Bytes, offset: nat, width: nat, v: nat)
    requires offset + width <= |data| && data[offset..offset + width] == ToBigEndian(v, width)
    ensures GetUint(data, offset, width) == v % ByteRange(width)
  {
    ReadBackField(v, width);
  }

  /** The bytes of a buffer after `part` has been copied over them at `offset`. */
  function Overwrite(bytes: Bytes, part: Bytes, offset: nat): (r: Bytes)
    requires offset + |part| <= |bytes|
    ensures |r| == |bytes|
  {
    bytes[..offset] + part + bytes[offset + |part|..]
  }

  /** `result.set(part, offset)` */
  method SetBytes(buffer: array<Byte>, part: Bytes, offset: nat)
    requires offset + |part| <= buffer.Length
    modifies buffer
    ensures buffer[..] == Overwrite(old(buffer[..]), part, offset)
  {
    forall i | 0 <= i < |part| {
      buffer[offset + i] := part[i];
    }
  }

  /** `data.slice(from, to)`: bounds beyond the end are cut back to it */
  function Slice(data: Bytes, from: nat, to: nat): Bytes {
    if from < to <= |data| then data[from..to] else if from <= |data| < to then data[from..] else []
  }

  lemma Ranges()
    ensures ByteRange(1) == 0x100 && ByteRange(2) == 0x1_0000 && ByteRange(4) == 0x1_0000_0000
    ensures ByteRange(8) == 0x1_0000_0000_0000_0000
  {
  }

  function ZeroBytes(n: nat): (bs: Bytes)
    ensures |bs| == n
  {
    seq(n, i => 0)
  }

  /** A buffer that is filled from the front: `written`, then zeros. */
  ghost predicate Filled(buffer: array<Byte>, written: Bytes)
    reads buffer
  {
    |written| <= buffer.Length && buffer[..] == written + ZeroBytes(buffer.Length - |written|)
  }

  lemma FilledFresh(buffer: array<Byte>)
    requires forall i :: 0 <= i < buffer.Length ==> buffer[i] == 0
    ensures Filled(buffer, [])
  {
  }

  lemma FilledPrefix(buffer: array<Byte>, written: Bytes)
    requires Filled(buffer, written)
    ensures |written| <= buffer.Length && buffer[..|written|] == written
    ensures buffer[..] == written + ZeroBytes(buffer.Length - |written|)
  {
  }

  /** Bytes that are passed over stay zero. */
  lemma SkipPadding(buffer: array<Byte>, written: Bytes, n: nat)
    requires Filled(buffer, written) && |written| + n <= buffer.Length
    ensures Filled(buffer, written + ZeroBytes(n))
  {
    assert ZeroBytes(buffer.Length - |written|) == ZeroBytes(n) + ZeroBytes(buffer.Length - |written| - n);
  }

  /** Copies the next part to the first free offset. */
  method PutBytes(buffer: array<Byte>, part: Bytes, offset: nat, ghost written: Bytes)
    requires Filled(buffer, written) && offset == |written| && offset + |part| <= buffer.Length
    modifies buffer
    ensures Filled(buffer, written + part)
  {
    SetBytes(buffer, part, offset);
    assert buffer[..] == written + part + ZeroBytes(buffer.Length - |written + part|);
  }

  method PutUint(buffer: array<Byte>, offset: nat, width: nat, v: nat, ghost written: Bytes)
    requires Filled(buffer, written) && offset == |written| && offset + width <= buffer.Length
    modifies buffer
    ensures Filled(buffer, written + ToBigEndian(v, width))
  {
    PutBytes(buffer, ToBigEndian(v, width), offset, written);
  }

  function TotalLength(parts: seq<Bytes>): (n: nat)
    ensures n == |Flatten(parts)|
    decreases |parts|
  {
    if parts == [] then 0 else |parts[0]| + TotalLength(parts[1..])
  }

  /** All parts, one after the other, in one new array. */
  method ConcatBytes(parts: seq<Bytes>) returns (result: array<Byte>)
    ensures result[..] == Flatten(parts)
  {
    result := new Byte[TotalLength(parts)](_ => 0);
    var offset := 0;
    var k := 0;
    assert Filled(result, []);
    while k < |parts|
      invariant 0 <= k <= |parts| && Filled(result, Flatten(parts[..k]))
      invariant offset == |Flatten(parts[..k])|
    {
      FlattenTake(parts, k);
      FlattenConcat(parts[..k + 1], parts[k + 1..]);
      assert parts[..k + 1] + parts[k + 1..] == parts;
      PutBytes(result, parts[k], offset, Flatten(parts[..k]));
      offset := offset + |parts[k]|;
      k := k + 1;
    }
    assert parts[..k] == parts;
  }

  /** The bytes at an offset are the field of this value. */
  predicate HoldsField(data: Bytes, offset: nat, width: nat, v: nat) {
    offset + width <= |data| && v < ByteRange(width) && data[offset..offset + width] == ToBigEndian(v, width)
  }

  /** A field reads as v exactly when its bytes are the ones that writing v produces, and v fits. */
  lemma FieldIff(data: Bytes, offset: nat, width: nat, v: nat)
    requires offset + width <= |data|
    ensures GetUint(data, offset, width) == v <==> HoldsField(data, offset, width, v)
  {
    var field := data[offset..offset + width];
    BigEndianBound(field);
    WriteBackField(field);
    if HoldsField(data, offset, width, v) {
      ReadBackField(v, width);
      ModOfSmall(v, ByteRange(width));
    }
  }

  lemma ModOfSmall(v: nat, m: nat)
    requires v < m
    ensures v % m == v
  {
  }

  // ---------- Short fields ----------

  lemma SingleByte(v: nat)
    requires v < 256
    ensures ToBigEndian(v, 1) == [v]
  {
    assert ToBigEndian(v, 1) == ToBigEndian(v / 256, 0) + [v % 256];
  }

  lemma TwoBytes(v: nat)
    requires v < 0x1_0000
    ensures ToBigEndian(v, 2) == [v / 256, v % 256]
  {
    assert ToBigEndian(v, 2) == ToBigEndian(v / 256, 1) + [v % 256];
    assert ToBigEndian(v / 256, 1) == ToBigEndian(v / 256 / 256, 0) + [v / 256 % 256];
  }

  lemma FourBytes(v: nat)
    requires v < 0x1_0000_0000
    ensures ToBigEndian(v, 4) == [v / 0x100_0000, v / 0x1_0000 % 256, v / 256 % 256, v % 256]
  {
    Quotients(v);
    TwoBytes(v / 0x1_0000);
    LastByte(v, 4);
    LastByte(v / 256, 3);
    hide ToBigEndian;
  }

  lemma Quotients(v: nat)
    requires v < 0x1_0000_0000
    ensures v / 256 / 256 == v / 0x1_0000 < 0x1_0000 && v / 0x1_0000 / 256 == v / 0x100_0000
  {
  }

  lemma LastByte(v: nat, n: nat)
    requires n > 0
    ensures ToBigEndian(v, n) == ToBigEndian(v / 256, n - 1) + [v % 256]
  {
  }

  lemma FieldIs(data: Bytes, offset: nat, width: nat, v: nat)
    requires offset + width <= |data| && v < ByteRange(width)
    ensures GetUint(data, offset, width) == v <==> data[offset..offset + width] == ToBigEndian(v, width)
  {
    hide ByteRange, ToBigEndian, BigEndian;
    ReadBackField(v, width);
    ModOfSmall(v, ByteRange(width));
    WriteBackField(data[offset..offset + width]);
  }

  lemma PairValue(bytes: Bytes, offset: nat)
    requires offset + 2 <= |bytes|
    ensures GetUint(bytes, offset, 2) == (bytes[offset] as int) * 256 + bytes[offset + 1] as int
  {
    var field := bytes[offset..offset + 2];
    assert field[..1][..0] == [];
    assert BigEndian(field[..1]) == BigEndian(field[..1][..0]) * 256 + field[0] as int;
    assert BigEndian(field) == BigEndian(field[..1]) * 256 + field[1] as int;
  }
}
