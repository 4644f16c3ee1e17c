/** Data behind a type byte and a big-endian length of the type's width. */
module LengthEncoding {
  import opened ByteStrings
  import opened DataViews
  import opened Results

  const MAX_SAFE_INTEGER: nat := 0x1f_ffff_ffff_ffff

  datatype LengthError = LengthIsTooShort | LengthIsTooLong | LengthIsInvalidType

  datatype LengthEncodingType = UInt8 | UInt16 | UInt32 | UInt64 {
    function Value(): (v: Byte) {
      match this
      case UInt8 => 0
      case UInt16 => 1
      case UInt32 => 2
      case UInt64 => 3
    }

    /** The width of the length field. */
    function Size(): (size: nat)
      ensures 1 <= size <= 8
    {
      match this
      case UInt8 => 1
      case UInt16 => 2
      case UInt32 => 4
      case UInt64 => 8
    }
  }

  /** The narrowest type for a length. */
  function TypeForLength(length: nat): Result<LengthEncodingType, LengthError> {
    if length < 256 then Ok(UInt8)
    else if length < 65536 then Ok(UInt16)
    else if length < 4294967296 then Ok(UInt32)
    else if length < MAX_SAFE_INTEGER then Ok(UInt64)
    else Err(LengthIsTooLong)
  }

  function TypeFromValue(value: Byte): Result<LengthEncodingType, LengthError> {
    if value == 0 then Ok(UInt8)
    else if value == 1 then Ok(UInt16)
    else if value == 2 then Ok(UInt32)
    else if value == 3 then Ok(UInt64)
    else Err(LengthIsInvalidType)
  }

  /** Data in a field of a given type, which need not be the narrowest. */
  function Encoded(t: LengthEncodingType, data: Bytes): Bytes {
    [t.Value()] + ToBigEndian(|data|, t.Size()) + data
  }

  /** The length fits the type's field, and is a safe integer. */
  predicate Fits(t: LengthEncodingType, length: nat) {
    length < ByteRange(t.Size()) && length <= MAX_SAFE_INTEGER
  }

  method LengthEncodeData(data: Bytes) returns (r: Result<array<Byte>, LengthError>)
    ensures r.Ok? <==> |data| < MAX_SAFE_INTEGER
    ensures r.Err? ==> r.error == LengthIsTooLong
    ensures r.Ok? ==> r.value[..] == Encoded(TypeForLength(|data|).value, data)
  {
    var lengthType :- TypeForLength(|data|);
    var result := new Byte[1 + lengthType.Size() + |data|](_ => 0);
    FilledFresh(result);
    hide Filled, ToBigEndian;
    PutUint(result, 0, 1, lengthType.Value(), []);
    var t := lengthType.Value();
    assert [] + ToBigEndian(t, 1) == [t] by {
      OneByte(t);
    }
    PutUint(result, 1, lengthType.Size(), |data|, [t]);
    PutBytes(result, data, 1 + lengthType.Size(), [t] + ToBigEndian(|data|, lengthType.Size()));
    FilledPrefix(result, Encoded(lengthType, data));
    return Ok(result);
  }

  lemma OneByte(b: Byte)
    ensures ToBigEndian(b, 1) == [b]
  {
    assert ToBigEndian(b / 256, 0) == [];
  }

  /** The data and the number of bytes consumed. */
  function DecodeLengthEncodedData(buffer: Bytes): (r: Result<(Bytes, nat), LengthError>)
    ensures r.Ok? ==> |r.value.0| < r.value.1 <= |buffer|
  {
    if |buffer| < 1 then Err(LengthIsTooShort)
    else
      var lengthType := TypeFromValue(buffer[0]);
      if lengthType.Err? then Err(lengthType.error)
      else
        var size := lengthType.value.Size();
        if |buffer| < 1 + size then Err(LengthIsTooShort)
        else
          var length := GetUint(buffer, 1, size);
          if lengthType.value == UInt64 && length > MAX_SAFE_INTEGER then Err(LengthIsTooLong)
          else if 1 + size + length > |buffer| then Err(LengthIsTooShort)
          else Ok((buffer[1 + size..1 + size + length], 1 + size + length))
  }

  // ---------- Properties ----------

  /** The chosen type holds the length, and no narrower type would. */
  lemma NarrowestType(length: nat)
    requires length < MAX_SAFE_INTEGER
    ensures var t := TypeForLength(length).value;
            Fits(t, length) && forall u: LengthEncodingType :: Fits(u, length) ==> t.Size() <= u.Size()
  {
    Ranges();
  }

  lemma EncodedParts(t: LengthEncodingType, data: Bytes, rest: Bytes)
    requires Fits(t, |data|)
    ensures var buffer := Encoded(t, data) + rest;
            && buffer[0] == t.Value() && GetUint(buffer, 1, t.Size()) == |data|
            && buffer[1 + t.Size()..1 + t.Size() + |data|] == data
  {
    hide ToBigEndian, GetUint, ByteRange;
    var (size, buffer) := (t.Size(), Encoded(t, data) + rest);
    var field := ToBigEndian(|data|, size);
    assert buffer == [t.Value()] + field + data + rest;
    FieldReadsBack(buffer, 1, size, |data|);
    ModOfSmall(|data|, ByteRange(size));
  }

  /** Encoded data decodes to itself, whatever follows it, and the exact number of bytes is consumed. */
  lemma DecodeEncoded(t: LengthEncodingType, data: Bytes, rest: Bytes)
    requires Fits(t, |data|)
    ensures DecodeLengthEncodedData(Encoded(t, data) + rest) == Ok((data, |Encoded(t, data)|))
  {
    hide ToBigEndian, GetUint;
    EncodedParts(t, data, rest);
  }

  /** Decoding accepts exactly the buffers that begin with data encoded in some type that holds its length,
      not only the narrowest. */
  lemma DecodesIff(buffer: Bytes, data: Bytes)
    ensures (exists n :: DecodeLengthEncodedData(buffer) == Ok((data, n)))
       <==> exists t: LengthEncodingType :: Fits(t, |data|) && Encoded(t, data) <= buffer
  {
    if n :| DecodeLengthEncodedData(buffer) == Ok((data, n)) {
      DecodedType(buffer, data, n);
      var t := TypeFromValue(buffer[0]).value;
      hide DecodeLengthEncodedData, TypeFromValue, Fits, Encoded;
      DecodedParts(buffer, data, n, t);
      assert Fits(t, |data|) && Encoded(t, data) <= buffer;
    }
    if t: LengthEncodingType :| Fits(t, |data|) && Encoded(t, data) <= buffer {
      var rest := buffer[|Encoded(t, data)|..];
      assert buffer == Encoded(t, data) + rest;
      hide DecodeLengthEncodedData, Fits, Encoded;
      DecodeEncoded(t, data, rest);
    }
  }

  lemma DecodedType(buffer: Bytes, data: Bytes, n: nat)
    requires DecodeLengthEncodedData(buffer) == Ok((data, n))
    ensures buffer != [] && TypeFromValue(buffer[0]).Ok?
  {
  }

  lemma ThreeParts(buffer: Bytes, size: nat, n: nat)
    requires 1 + size <= n <= |buffer|
    ensures buffer[..n] == [buffer[0]] + buffer[1..1 + size] + buffer[1 + size..n]
  {
  }

  lemma NarrowRanges(t: LengthEncodingType)
    ensures t != UInt64 ==> ByteRange(t.Size()) <= MAX_SAFE_INTEGER
  {
    Ranges();
  }

  lemma DecodedParts(buffer: Bytes, data: Bytes, n: nat, t: LengthEncodingType)
    requires DecodeLengthEncodedData(buffer) == Ok((data, n)) && TypeFromValue(buffer[0]) == Ok(t)
    ensures Fits(t, |data|) && n == |Encoded(t, data)| && buffer[..n] == Encoded(t, data)
  {
    hide ToBigEndian, BigEndian;
    var size := t.Size();
    var field := buffer[1..1 + size];
    BigEndianBound(field);
    WriteBackField(field);
    NarrowRanges(t);
    hide ByteRange, GetUint;
    assert buffer[0] == t.Value() && n == 1 + size + |data| && data == buffer[1 + size..n];
    ThreeParts(buffer, size, n);
  }

  // ---------- Lists ----------

  function EncodeAll(list: seq<Bytes>): Bytes
    requires forall d :: d in list ==> |d| < MAX_SAFE_INTEGER
    decreases |list|
  {
    if list == [] then [] else Encoded(TypeForLength(|list[0]|).value, list[0]) + EncodeAll(list[1..])
  }

  /** Decoding `count` times, each time behind the bytes consumed before. */
  function DecodeMany(buffer: Bytes, count: nat): Result<(seq<Bytes>, nat), LengthError>
    decreases count
  {
    if count == 0 then Ok(([], 0))
    else
      var first := DecodeLengthEncodedData(buffer);
      if first.Err? then Err(first.error)
      else
        var rest := DecodeMany(buffer[first.value.1..], count - 1);
        if rest.Err? then Err(rest.error)
        else Ok(([first.value.0] + rest.value.0, first.value.1 + rest.value.1))
  }

  /** Repeated decoding of encoded data returns the list and consumes exactly its bytes. */
  lemma {:induction false} DecodeManyEncoded(list: seq<Bytes>, rest: Bytes)
    requires forall d :: d in list ==> |d| < MAX_SAFE_INTEGER
    ensures DecodeMany(EncodeAll(list) + rest, |list|) == Ok((list, |EncodeAll(list)|))
    decreases |list|
  {
    hide Encoded, DecodeLengthEncodedData;
    if list != [] {
      var t := TypeForLength(|list[0]|).value;
      hide TypeForLength, Fits;
      var first := Encoded(t, list[0]);
      NarrowestType(|list[0]|);
      DecodeEncoded(t, list[0], EncodeAll(list[1..]) + rest);
      DecodeManyEncoded(list[1..], rest);
      var later := EncodeAll(list[1..]) + rest;
      assert EncodeAll(list) + rest == first + later;
      hide EncodeAll;
      assert (first + later)[|first|..] == later;
      assert list == [list[0]] + list[1..];
    }
  }

  /** Unique decodability: equal concatenations of as many encoded buffers come from equal lists and leave equal
      rests. */
  lemma UniquelyDecodable(x: seq<Bytes>, y: seq<Bytes>, restX: Bytes, restY: Bytes)
    requires forall d :: d in x ==> |d| < MAX_SAFE_INTEGER
    requires forall d :: d in y ==> |d| < MAX_SAFE_INTEGER
    requires |x| == |y| && EncodeAll(x) + restX == EncodeAll(y) + restY
    ensures x == y && restX == restY
  {
    hide EncodeAll, DecodeMany;
    DecodeManyEncoded(x, restX);
    DecodeManyEncoded(y, restY);
    assert restX == (EncodeAll(x) + restX)[|EncodeAll(x)|..];
    assert restY == (EncodeAll(y) + restY)[|EncodeAll(y)|..];
  }

  // ---------- The bytes themselves ----------

  /** What encoding writes in front of the data, for each range of lengths; longer data is refused. */
  lemma EncodedBytes(data: Bytes)
    ensures |data| < 256 ==> TypeForLength(|data|) == Ok(UInt8) && Encoded(UInt8, data) == [0, |data|] + data
    ensures 256 <= |data| < 65536 ==>
      TypeForLength(|data|) == Ok(UInt16) && Encoded(UInt16, data) == [1, |data| / 256, |data| % 256] + data
    ensures 65536 <= |data| < 4294967296 ==>
      TypeForLength(|data|) == Ok(UInt32) && Encoded(UInt32, data) == [2] + ToBigEndian(|data|, 4) + data
    ensures 4294967296 <= |data| < 9007199254740991 ==>
      TypeForLength(|data|) == Ok(UInt64) && Encoded(UInt64, data) == [3] + ToBigEndian(|data|, 8) + data
    ensures TypeForLength(|data|).Err? <==> |data| >= 9007199254740991
  {
    if |data| < 256 {
      ShortEncoded(data);
    } else if |data| < 65536 {
      MediumEncoded(data);
    }
    hide ToBigEndian;
  }

  lemma ShortEncoded(data: Bytes)
    requires |data| < 256
    ensures Encoded(UInt8, data) == [0, |data|] + data
  {
    SingleByte(|data|);
    hide ToBigEndian;
    assert [0] + [|data|] == [0, |data|];
  }

  lemma MediumEncoded(data: Bytes)
    requires 256 <= |data| < 65536
    ensures Encoded(UInt16, data) == [1, |data| / 256, |data| % 256] + data
  {
    TwoBytes(|data|);
    hide ToBigEndian;
    assert [1] + [|data| / 256, |data| % 256] == [1, |data| / 256, |data| % 256];
  }

  /** The checks on decoding, in their order. */
  lemma DecodeErrors(buffer: Bytes)
    ensures buffer == [] ==> DecodeLengthEncodedData(buffer) == Err(LengthIsTooShort)
    ensures buffer != [] && buffer[0] > 3 ==> DecodeLengthEncodedData(buffer) == Err(LengthIsInvalidType)
    ensures buffer != [] && buffer[0] <= 3 ==>
      var width := [1, 2, 4, 8][buffer[0]];
      if |buffer| < 1 + width then DecodeLengthEncodedData(buffer) == Err(LengthIsTooShort)
      else
        var length := BigEndian(buffer[1..1 + width]);
        if width == 8 && length > 9007199254740991 then DecodeLengthEncodedData(buffer) == Err(LengthIsTooLong)
        else if 1 + width + length > |buffer| then DecodeLengthEncodedData(buffer) == Err(LengthIsTooShort)
        else DecodeLengthEncodedData(buffer) == Ok((buffer[1 + width..1 + width + length], 1 + width + length))
  {
  }
}
