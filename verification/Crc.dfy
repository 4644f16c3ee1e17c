/** The CRC-8 and CRC-16 of the checksum service and the independent bitwise CRC-16: table generation, the
    table-driven loops, their stream forms, and what the checksums detect. JavaScript's bitwise operators
    work on 32-bit integers, so values that the source leaves unmasked are bv32 here. */
module Crc {
  import opened CrcDivision
  import opened Words
  import opened Sequences

  type Message = seq<bv8>

  function MessageBits(data: Message): (bits: Bits)
    ensures |bits| == 8 * |data|
  {
    if data == [] then [] else ByteBits(data[0]) + MessageBits(data[1..])
  }

  lemma {:induction false} MessageBitsConcat(x: Message, y: Message)
    ensures MessageBits(x + y) == MessageBits(x) + MessageBits(y)
    decreases |x|
  {
    hide ByteBits;
    if x == [] {
      assert x + y == y;
    } else {
      MessageBitsConcat(x[1..], y);
      assert (x + y)[1..] == x[1..] + y;
      assert MessageBits(x + y) == ByteBits(x[0]) + (MessageBits(x[1..]) + MessageBits(y));
    }
  }

  lemma OneByte(b: bv8)
    ensures MessageBits([b]) == ByteBits(b)
  {
    hide ByteBits;
    assert MessageBits([b]) == ByteBits(b) + MessageBits([]);
  }

  lemma TwoBytes(high: bv8, low: bv8)
    ensures MessageBits([high, low]) == ByteBits(high) + ByteBits(low)
  {
    hide ByteBits;
    OneByte(low);
    assert [high, low][1..] == [low];
  }

  /** Different messages have different bits. */
  lemma {:induction false} MessageBitsInjective(x: Message, y: Message)
    requires MessageBits(x) == MessageBits(y)
    ensures x == y
    decreases |x|
  {
    hide ByteBits;
    if x != [] && y != [] {
      var p, q := MessageBits(x), MessageBits(y);
      assert p[..8] == ByteBits(x[0]) && p[8..] == MessageBits(x[1..]);
      assert q[..8] == ByteBits(y[0]) && q[8..] == MessageBits(y[1..]);
      ByteBitsInjective(x[0], y[0]);
      MessageBitsInjective(x[1..], y[1..]);
      assert x == [x[0]] + x[1..] && y == [y[0]] + y[1..];
    }
  }

  // ---------- The two checksums ----------

  /** x^8 + x^2 + x + 1 */
  const POLYNOMIAL8: bv32 := 0x07

  /** x^16 + x^12 + x^5 + 1 */
  const POLYNOMIAL16: bv32 := 0x1021

  function G8(): (g: Generator)
    ensures |g| == 8
  {
    LowBits(POLYNOMIAL8, 8)
  }

  function G16(): (g: Generator)
    ensures |g| == 16
  {
    LowBits(POLYNOMIAL16, 16)
  }

  /** The remainders that the checksums are; CRC-16 starts with all ones. */
  function Remainder8(data: Message): (r: Bits)
    ensures |r| == 8
  {
    Divide(G8(), Zeros(8), MessageBits(data))
  }

  function Remainder16(data: Message): (r: Bits)
    ensures |r| == 16
  {
    Divide(G16(), LowBits(0xffff, 16), MessageBits(data))
  }

  // ---------- Table generation ----------

  /** One step of a table generator with this top bit and polynomial, which masks nothing off. */
  function Advance(c: bv32, top: bv32, polynomial: bv32): bv32 {
    if Has(c, top) then Plus(c << 1, polynomial) else c << 1
  }

  /** The bits that are never masked off stay above the ones that matter. */
  lemma AdvanceIsShift(c: bv32, polynomial: bv32, n: nat)
    requires 0 < n <= 16
    ensures LowBits(Advance(c, Mask(n - 1), polynomial), n) == Shift(LowBits(polynomial, n), LowBits(c, n))
  {
    hide Has, Mask;
    assert LowBits(c, n)[0] == Bit(c, n - 1);
    UpBits(c, n);
    PlusBits(c << 1, polynomial, n);
    hide LowBits;
  }

  /** The table entry for a byte. */
  function Entry(g: Generator, b: bv8): (bits: Bits)
    requires |g| >= 8
    ensures |bits| == |g|
  {
    Shifts(g, ByteBits(b) + Zeros(|g| - 8), 8)
  }

  predicate IsTable8(table: seq<bv8>) {
    |table| == 256 && forall i :: 0 <= i < 256 ==> ByteBits(table[i]) == Entry(G8(), i as bv8)
  }

  predicate IsTable16(table: seq<bv16>) {
    |table| == 256 && forall i :: 0 <= i < 256 ==> LowBits(Widened(table[i]), 16) == Entry(G16(), i as bv8)
  }

  function IndexUp(i: int): bv32
    requires 0 <= i < 256
  {
    ByteUp(i as bv32)
  }

  lemma StartOfEntry(i: int)
    requires 0 <= i < 256
    ensures LowBits(i as bv32, 8) == ByteBits(i as bv8)
    ensures LowBits(IndexUp(i), 16) == ByteBits(i as bv8) + Zeros(8)
  {
    assert i as bv32 == (i as bv8) as bv32;
    ByteUpBits(i as bv32);
  }

  lemma NoTurns(g: Generator, start: Bits)
    requires |start| == |g|
    ensures Shifts(g, start, 0) == start
  {
  }

  lemma Turn(c: bv32, polynomial: bv32, n: nat, start: Bits, j: nat)
    requires 0 < n <= 16 && |start| == n && LowBits(c, n) == Shifts(LowBits(polynomial, n), start, j)
    ensures LowBits(Advance(c, Mask(n - 1), polynomial), n) == Shifts(LowBits(polynomial, n), start, j + 1)
  {
    hide *;
    AdvanceIsShift(c, polynomial, n);
    ShiftsMore(LowBits(polynomial, n), start, j);
  }

  method GenerateCrc8Table() returns (table: array<bv8>)
    ensures IsTable8(table[..])
  {
    hide Shifts, LowBits, ByteBits, Advance, Mask, LowByte, LowWord, Widened, IndexUp;
    table := new bv8[256](_ => 0);
    var i := 0;
    while i < 256
      invariant 0 <= i <= 256
      invariant forall k :: 0 <= k < i ==> ByteBits(table[k]) == Entry(G8(), k as bv8)
    {
      ghost var start := ByteBits(i as bv8) + Zeros(0);
      StartOfEntry(i);
      NoTurns(G8(), start);
      ByteMasks();
      var crc := i as bv32;
      var j := 0;
      while j < 8
        invariant 0 <= j <= 8
        invariant LowBits(crc, 8) == Shifts(G8(), start, j)
        invariant forall k :: 0 <= k < i ==> ByteBits(table[k]) == Entry(G8(), k as bv8)
      {
        Turn(crc, POLYNOMIAL8, 8, start, j);
        crc := Advance(crc, 0x80, POLYNOMIAL8);
        j := j + 1;
      }
      LowByteBits(crc);
      table[i] := LowByte(crc);
      i := i + 1;
    }
  }

  method GenerateCrc16Table() returns (table: array<bv16>)
    ensures IsTable16(table[..])
  {
    hide Shifts, LowBits, ByteBits, Advance, Mask, LowByte, LowWord, Widened, IndexUp;
    table := new bv16[256](_ => 0);
    var i := 0;
    while i < 256
      invariant 0 <= i <= 256
      invariant forall k :: 0 <= k < i ==> LowBits(Widened(table[k]), 16) == Entry(G16(), k as bv8)
    {
      ghost var start := ByteBits(i as bv8) + Zeros(8);
      StartOfEntry(i);
      NoTurns(G16(), start);
      WordMasks();
      var crc := IndexUp(i);
      var j := 0;
      while j < 8
        invariant 0 <= j <= 8
        invariant LowBits(crc, 16) == Shifts(G16(), start, j)
        invariant forall k :: 0 <= k < i ==> LowBits(Widened(table[k]), 16) == Entry(G16(), k as bv8)
      {
        Turn(crc, POLYNOMIAL16, 16, start, j);
        crc := Advance(crc, 0x8000, POLYNOMIAL16);
        j := j + 1;
      }
      Low16Bits(crc);
      WidenedLow(crc);
      table[i] := LowWord(crc);
      i := i + 1;
    }
  }


  // ---------- The checksum service ----------

  /** The remainders continue over concatenation. */
  lemma RemainderConcat(x: Message, y: Message)
    ensures Remainder8(x + y) == Divide(G8(), Remainder8(x), MessageBits(y))
    ensures Remainder16(x + y) == Divide(G16(), Remainder16(x), MessageBits(y))
  {
    hide Divide, LowBits;
    MessageBitsConcat(x, y);
    DivideConcat(G8(), Zeros(8), MessageBits(x), MessageBits(y));
    DivideConcat(G16(), LowBits(0xffff, 16), MessageBits(x), MessageBits(y));
  }

  lemma RemainderEmpty()
    ensures Remainder8([]) == Zeros(8) && Remainder16([]) == LowBits(0xffff, 16)
    ensures ByteBits(0) == Zeros(8)
  {
    hide LowBits;
    assert ByteBits(0) == Zeros(8) by {
      NoBits(8);
    }
  }

  /** Up to the i-th byte of a value that comes after other bytes. */
  lemma RemainderGrows(before: Message, value: Message, i: nat)
    requires i < |value|
    ensures Remainder8(before + value[..i + 1])
         == Divide(G8(), Remainder8(before + value[..i]), ByteBits(value[i]))
    ensures Remainder16(before + value[..i + 1])
         == Divide(G16(), Remainder16(before + value[..i]), ByteBits(value[i]))
  {
    hide *;
    assert before + value[..i + 1] == before + value[..i] + [value[i]];
    RemainderConcat(before + value[..i], [value[i]]);
    OneByte(value[i]);
  }

  /** One turn of the table-driven CRC-8 loop. */
  function Feed8(table: seq<bv8>, crc: bv8, byte: bv8): bv8
    requires |table| == 256
  {
    table[(crc ^ byte) as int]
  }

  /** The table index and the new value of the CRC-16 loop, in 32-bit arithmetic. */
  function Index16(crc: bv32, byte: bv8): (index: bv8) {
    LowByte(Plus(ByteDown(crc), byte as bv32))
  }

  function Combine16(crc: bv32, entry: bv16): bv32 {
    Low16(Plus(ByteUp(crc), Widened(entry)))
  }

  function Feed16(table: seq<bv16>, crc: bv32, byte: bv8): bv32
    requires |table| == 256
  {
    Combine16(crc, table[Index16(crc, byte) as int])
  }

  lemma IndexedEntry(b: bv8)
    ensures (b as int) as bv8 == b
  {
  }

  lemma XorBytes(x: bv8, y: bv8)
    ensures ByteBits(x ^ y) == Xor(ByteBits(x), ByteBits(y))
  {
    assert (x ^ y) as bv32 == Plus(x as bv32, y as bv32);
    hide LowBits;
    PlusBits(x as bv32, y as bv32, 8);
  }

  /** One lookup is eight division steps. */
  lemma LookupStep8(table: seq<bv8>, crc: bv8, byte: bv8)
    requires IsTable8(table)
    ensures ByteBits(Feed8(table, crc, byte)) == Divide(G8(), ByteBits(crc), ByteBits(byte))
  {
    hide ByteBits, Divide, Shifts;
    LookupStep(G8(), ByteBits(crc), ByteBits(byte));
    IndexedEntry(crc ^ byte);
    XorBytes(crc, byte);
    var c, entry := ByteBits(crc), Entry(G8(), crc ^ byte);
    assert c[8..] + Zeros(8) == Zeros(8) && c[..8] == c;
    assert Xor(Zeros(8), entry) == entry;
  }

  lemma IndexBits16(crc: bv32, byte: bv8)
    ensures ByteBits(Index16(crc, byte)) == Xor(LowBits(crc, 16)[..8], ByteBits(byte))
  {
    hide LowBits, LowByte, ByteDown, Plus;
    LowByteBits(Plus(ByteDown(crc), byte as bv32));
    PlusBits(ByteDown(crc), byte as bv32, 8);
    LowByteBits(crc);
    LowByteBits(ByteDown(crc));
  }

  lemma CombineBits16(crc: bv32, entry: bv16)
    ensures LowBits(Combine16(crc, entry), 16) == Xor(LowBits(crc, 16)[8..] + Zeros(8), LowBits(Widened(entry), 16))
  {
    hide LowBits, Low16, Plus, ByteUp, Widened;
    Low16Bits(Plus(ByteUp(crc), Widened(entry)));
    ByteUpPlusBits(crc, Widened(entry));
  }

  /** One lookup, shift and addition is eight division steps. */
  lemma LookupStep16(table: seq<bv16>, crc: bv32, byte: bv8)
    requires IsTable16(table)
    ensures LowBits(Feed16(table, crc, byte), 16) == Divide(G16(), LowBits(crc, 16), ByteBits(byte))
  {
    hide ByteBits, Divide, Shifts, LowBits, Index16, Combine16, Widened;
    var index := Index16(crc, byte);
    LookupStep(G16(), LowBits(crc, 16), ByteBits(byte));
    IndexedEntry(index);
    IndexBits16(crc, byte);
    CombineBits16(crc, table[index as int]);
  }

  lemma ChecksumBytes(crc: bv32)
    ensures MessageBits([LowByte(ByteDown(crc)), LowByte(crc)]) == LowBits(crc, 16)
  {
    hide *;
    TwoBytes(LowByte(ByteDown(crc)), LowByte(crc));
    LowByteBits(crc);
  }

  /** What a checksum is compared with. */
  datatype Expected = Bytes(bytes: Message) | Number(value: int)

  function Value(bytes: Message): int {
    if bytes == [] then 0 else Value(bytes[..|bytes| - 1]) * 256 + bytes[|bytes| - 1] as int
  }

  /** The bytes begin with the checksum, or the number is its big-endian value. */
  ghost predicate Matches(expected: Expected, checksum: Bits) {
    match expected
    case Bytes(bytes) => checksum <= MessageBits(bytes)
    case Number(value) => exists bytes :: MessageBits(bytes) == checksum && value == Value(bytes)
  }

  class CrcService {
    const crc8Table: array<bv8>
    const crc16Table: array<bv16>

    predicate Valid()
      reads crc8Table, crc16Table
    {
      IsTable8(crc8Table[..]) && IsTable16(crc16Table[..])
    }

    constructor ()
      ensures Valid()
    {
      var t8 := GenerateCrc8Table();
      var t16 := GenerateCrc16Table();
      crc8Table, crc16Table := t8, t16;
    }

    method Crc8(data: Message) returns (result: Message)
      requires Valid()
      ensures MessageBits(result) == Remainder8(data)
    {
      hide ByteBits, Feed8, Divide, Remainder8, LowBits;
      var crc: bv8 := 0;
      RemainderEmpty();
      var i := 0;
      assert [] + data[..i] == [];
      while i < |data|
        invariant 0 <= i <= |data|
        invariant ByteBits(crc) == Remainder8([] + data[..i])
      {
        RemainderGrows([], data, i);
        LookupStep8(crc8Table[..], crc, data[i]);
        crc := Feed8(crc8Table[..], crc, data[i]);
        i := i + 1;
      }
      assert [] + data[..i] == data;
      OneByte(crc);
      result := [crc];
    }

    method Crc16(data: Message) returns (result: Message)
      requires Valid()
      ensures MessageBits(result) == Remainder16(data)
    {
      hide ByteBits, Feed16, Divide, Remainder16, LowBits, LowByte;
      var crc: bv32 := 0xffff;
      RemainderEmpty();
      var i := 0;
      assert [] + data[..i] == [];
      while i < |data|
        invariant 0 <= i <= |data|
        invariant LowBits(crc, 16) == Remainder16([] + data[..i])
      {
        RemainderGrows([], data, i);
        LookupStep16(crc16Table[..], crc, data[i]);
        crc := Feed16(crc16Table[..], crc, data[i]);
        i := i + 1;
      }
      assert [] + data[..i] == data;
      ChecksumBytes(crc);
      result := [LowByte(ByteDown(crc)), LowByte(crc)];
    }

    /** The stream form: one loop turn per chunk read, whatever the chunk sizes. */
    method Crc8Stream(chunks: seq<Message>) returns (result: Message)
      requires Valid()
      ensures MessageBits(result) == Remainder8(Flatten(chunks))
    {
      hide ByteBits, Feed8, Divide, Remainder8, LowBits;
      var crc: bv8 := 0;
      RemainderEmpty();
      var k := 0;
      while k < |chunks|
        invariant 0 <= k <= |chunks|
        invariant ByteBits(crc) == Remainder8(Flatten(chunks[..k]))
      {
        var value := chunks[k];
        var i := 0;
        assert Flatten(chunks[..k]) + value[..0] == Flatten(chunks[..k]);
        while i < |value|
          invariant 0 <= i <= |value|
          invariant ByteBits(crc) == Remainder8(Flatten(chunks[..k]) + value[..i])
        {
          RemainderGrows(Flatten(chunks[..k]), value, i);
          LookupStep8(crc8Table[..], crc, value[i]);
          crc := Feed8(crc8Table[..], crc, value[i]);
          i := i + 1;
        }
        FlattenTake(chunks, k);
        assert value[..i] == value;
        k := k + 1;
      }
      assert chunks[..k] == chunks;
      OneByte(crc);
      result := [crc];
    }

    method Crc16Stream(chunks: seq<Message>) returns (result: Message)
      requires Valid()
      ensures MessageBits(result) == Remainder16(Flatten(chunks))
    {
      hide ByteBits, Feed16, Divide, Remainder16, LowBits, LowByte;
      var crc: bv32 := 0xffff;
      RemainderEmpty();
      var k := 0;
      while k < |chunks|
        invariant 0 <= k <= |chunks|
        invariant LowBits(crc, 16) == Remainder16(Flatten(chunks[..k]))
      {
        var value := chunks[k];
        var i := 0;
        assert Flatten(chunks[..k]) + value[..0] == Flatten(chunks[..k]);
        while i < |value|
          invariant 0 <= i <= |value|
          invariant LowBits(crc, 16) == Remainder16(Flatten(chunks[..k]) + value[..i])
        {
          RemainderGrows(Flatten(chunks[..k]), value, i);
          LookupStep16(crc16Table[..], crc, value[i]);
          crc := Feed16(crc16Table[..], crc, value[i]);
          i := i + 1;
        }
        FlattenTake(chunks, k);
        assert value[..i] == value;
        k := k + 1;
      }
      assert chunks[..k] == chunks;
      ChecksumBytes(crc);
      result := [LowByte(ByteDown(crc)), LowByte(crc)];
    }

    method VerifyCrc8(data: Message, expected: Expected) returns (ok: bool)
      requires Valid()
      ensures ok <==> Matches(expected, Remainder8(data))
    {
      hide Valid, Remainder8, Matches, Value;
      var calculated := Crc8(data);
      MatchesIff(expected, calculated);
      match expected
      case Number(value) => ok := calculated[0] as int == value;
      case Bytes(bytes) => ok := |bytes| > 0 && calculated[0] == bytes[0];
    }

    /** A stored checksum is accepted by its first two bytes; a shorter one never matches. */
    method VerifyCrc16(data: Message, expected: Expected) returns (ok: bool)
      requires Valid()
      ensures ok <==> Matches(expected, Remainder16(data))
    {
      hide Valid, Remainder16, Matches, Value;
      var calculated := Crc16(data);
      MatchesIff(expected, calculated);
      match expected
      case Number(value) => ok := calculated[0] as int * 256 + calculated[1] as int == value;
      case Bytes(bytes) => ok := |bytes| > 1 && calculated[0] == bytes[0] && calculated[1] == bytes[1];
    }
  }

  /** Only one byte string has the bits of the checksum, so the comparisons decide. */
  lemma MatchesIff(expected: Expected, calculated: Message)
    ensures expected.Bytes? ==>
      (Matches(expected, MessageBits(calculated)) <==> calculated <= expected.bytes)
    ensures expected.Number? ==>
      (Matches(expected, MessageBits(calculated)) <==> expected.value == Value(calculated))
    ensures |calculated| == 1 ==> Value(calculated) == calculated[0] as int
    ensures |calculated| == 2 ==> Value(calculated) == calculated[0] as int * 256 + calculated[1] as int
  {
    hide MessageBits;
    match expected
    case Number(value) =>
      forall bytes | MessageBits(bytes) == MessageBits(calculated)
        ensures bytes == calculated
      {
        MessageBitsInjective(bytes, calculated);
      }
    case Bytes(bytes) =>
      PrefixBits(calculated, bytes);
  }

  lemma PrefixBits(x: Message, y: Message)
    ensures MessageBits(x) <= MessageBits(y) <==> x <= y
  {
    hide MessageBits;
    if |x| <= |y| {
      var front := y[..|x|];
      MessageBitsConcat(front, y[|x|..]);
      assert y == front + y[|x|..];
      assert MessageBits(y)[..8 * |x|] == MessageBits(front);
      if MessageBits(x) == MessageBits(front) {
        MessageBitsInjective(x, front);
      }
      if x <= y {
        assert x == front;
      }
    }
  }

  // ---------- The independent bitwise CRC-16 ----------

  lemma ByteIn(crc: bv32, byte: bv8)
    ensures LowBits(Plus(crc, ByteUp(byte as bv32)), 16) == Xor(LowBits(crc, 16), ByteBits(byte) + Zeros(8))
  {
    hide *;
    PlusBits(crc, ByteUp(byte as bv32), 16);
    ByteUpBits(byte as bv32);
    ByteWidened(byte);
  }

  lemma ByteWidened(byte: bv8)
    ensures LowBits(byte as bv32, 8) == ByteBits(byte)
  {
  }

  /** The table-free CRC-16 computes the same two bytes as the table-driven one, on every input. */
  method BitwiseCrc16(data: Message) returns (result: Message)
    ensures MessageBits(result) == Remainder16(data)
  {
    hide *;
    var crc: bv32 := 0xffff;
    RemainderEmpty();
    var i := 0;
    assert [] + data[..i] == [];
    while i < |data|
      invariant 0 <= i <= |data|
      invariant LowBits(crc, 16) == Remainder16([] + data[..i])
    {
      RemainderGrows([], data, i);
      DivideWord(G16(), Remainder16([] + data[..i]), ByteBits(data[i]));
      ByteIn(crc, data[i]);
      crc := Plus(crc, ByteUp(data[i] as bv32));
      ghost var start := LowBits(crc, 16);
      NoTurns(G16(), start);
      var j := 0;
      while j < 8
        invariant 0 <= j <= 8
        invariant LowBits(crc, 16) == Shifts(G16(), start, j)
      {
        TurnG16(crc, start, j);
        crc := Advance(crc, 0x8000, POLYNOMIAL16);
        Low16Bits(crc);
        crc := Low16(crc);
        j := j + 1;
      }
      i := i + 1;
    }
    assert [] + data[..i] == data;
    ChecksumBytes(crc);
    result := [LowByte(ByteDown(crc)), LowByte(crc)];
  }

  lemma TurnG16(c: bv32, start: Bits, j: nat)
    requires |start| == 16 && LowBits(c, 16) == Shifts(G16(), start, j)
    ensures LowBits(Advance(c, 0x8000, POLYNOMIAL16), 16) == Shifts(G16(), start, j + 1)
  {
    hide Advance, LowBits, Shifts, Mask;
    WordMasks();
    Turn(c, POLYNOMIAL16, 16, start, j);
  }

  // ---------- Check values ----------

  function FourTurns(c: bv32, top: bv32, polynomial: bv32): bv32 {
    Advance(Advance(Advance(Advance(c, top, polynomial), top, polynomial), top, polynomial), top, polynomial)
  }

  function EightTurns(c: bv32, top: bv32, polynomial: bv32): bv32 {
    FourTurns(FourTurns(c, top, polynomial), top, polynomial)
  }

  lemma FourTurnsShift(c: bv32, polynomial: bv32, n: nat, start: Bits, j: nat)
    requires 0 < n <= 16 && |start| == n && LowBits(c, n) == Shifts(LowBits(polynomial, n), start, j)
    ensures LowBits(FourTurns(c, Mask(n - 1), polynomial), n) == Shifts(LowBits(polynomial, n), start, j + 4)
  {
    hide Advance, LowBits, Shifts, Mask;
    var top := Mask(n - 1);
    var c1 := Advance(c, top, polynomial);
    var c2 := Advance(c1, top, polynomial);
    Turn(c, polynomial, n, start, j);
    Turn(c1, polynomial, n, start, j + 1);
    Turn(c2, polynomial, n, start, j + 2);
    Turn(Advance(c2, top, polynomial), polynomial, n, start, j + 3);
  }

  lemma EightTurnsShift(c: bv32, polynomial: bv32, n: nat)
    requires 0 < n <= 16
    ensures LowBits(EightTurns(c, Mask(n - 1), polynomial), n) == Shifts(LowBits(polynomial, n), LowBits(c, n), 8)
  {
    hide FourTurns, LowBits, Shifts, Mask;
    NoTurns(LowBits(polynomial, n), LowBits(c, n));
    FourTurnsShift(c, polynomial, n, LowBits(c, n), 0);
    FourTurnsShift(FourTurns(c, Mask(n - 1), polynomial), polynomial, n, LowBits(c, n), 4);
  }

  /** What one more byte does to a remainder that is known as a word. */
  lemma NextByte16(data: Message, c: bv32, byte: bv8, d: bv32)
    requires LowBits(c, 16) == Remainder16(data)
    requires d == Low16(EightTurns(c ^ ((byte as bv32) << 8), 0x8000, 0x1021))
    ensures LowBits(d, 16) == Remainder16(data + [byte])
  {
    WordMasks();
    hide Advance, LowBits, ByteBits, Divide, Shifts, Mask, Remainder16, Low16, EightTurns;
    RemainderConcat(data, [byte]);
    OneByte(byte);
    DivideWord(G16(), LowBits(c, 16), ByteBits(byte));
    ByteIn(c, byte);
    EightTurnsShift(c ^ ((byte as bv32) << 8), POLYNOMIAL16, 16);
    Low16Bits(EightTurns(c ^ ((byte as bv32) << 8), 0x8000, 0x1021));
  }

  lemma NextByte8(data: Message, c: bv8, byte: bv8, d: bv8)
    requires ByteBits(c) == Remainder8(data)
    requires d == LowByte(EightTurns((c ^ byte) as bv32, 0x80, 0x07))
    ensures ByteBits(d) == Remainder8(data + [byte])
  {
    ByteMasks();
    ByteWidened(c ^ byte);
    hide Advance, LowBits, ByteBits, Divide, Shifts, Mask, Remainder8, LowByte, EightTurns;
    RemainderConcat(data, [byte]);
    OneByte(byte);
    DivideWord(G8(), ByteBits(c), ByteBits(byte));
    XorBytes(c, byte);
    assert ByteBits(byte) + Zeros(0) == ByteBits(byte);
    EightTurnsShift((c ^ byte) as bv32, POLYNOMIAL8, 8);
    LowByteBits(EightTurns((c ^ byte) as bv32, 0x80, 0x07));
  }

  /** The digits 1 to 9 in ASCII. */
  function NineDigits(): (data: Message)
    ensures |data| == 9
  {
    [0x31, 0x32, 0x33, 0x34, 0x35, 0x36, 0x37, 0x38, 0x39]
  }

  /** The published check values of the two checksums, and those of the empty message. */
  lemma CheckValues()
    ensures Remainder8([]) == MessageBits([0x00]) && Remainder8(NineDigits()) == MessageBits([0xf4])
    ensures Remainder16([]) == MessageBits([0xff, 0xff]) && Remainder16(NineDigits()) == MessageBits([0x29, 0xb1])
  {
    hide ByteBits, LowBits, Remainder8, Remainder16, MessageBits;
    AfterDigits8(9);
    AfterDigits16(9);
    RemainderEmpty();
    OneByte(0);
    OneByte(0xf4);
    ChecksumBytes(0xffff);
    ChecksumBytes(0x29b1);
    assert NineDigits()[..9] == NineDigits();
  }

  /** The values of the register after each digit. */
  function Registers8(): (r: seq<bv8>)
    ensures |r| == 10
  {
    [0x00, 0x97, 0x72, 0xc0, 0xc2, 0xcb, 0xfd, 0x78, 0xc7, 0xf4]
  }

  function Registers16(): (r: seq<bv32>)
    ensures |r| == 10
  {
    [0xffff, 0xc782, 0x3dba, 0x5bce, 0x5349, 0x4560, 0x2ef4, 0x7718, 0xa12b, 0x29b1]
  }

  lemma Registers8Follow(i: nat)
    requires i < 9
    ensures Registers8()[i + 1] == LowByte(EightTurns((Registers8()[i] ^ NineDigits()[i]) as bv32, 0x80, 0x07))
  {
    FirstRegisters();
    LastRegisters();
    hide LowByte, EightTurns;
  }

  lemma FirstRegisters()
    ensures LowByte(EightTurns((0x00 ^ 0x31 as bv8) as bv32, 0x80, 0x07)) == 0x97
    ensures LowByte(EightTurns((0x97 ^ 0x32 as bv8) as bv32, 0x80, 0x07)) == 0x72
    ensures LowByte(EightTurns((0x72 ^ 0x33 as bv8) as bv32, 0x80, 0x07)) == 0xc0
    ensures LowByte(EightTurns((0xc0 ^ 0x34 as bv8) as bv32, 0x80, 0x07)) == 0xc2
    ensures LowByte(EightTurns((0xc2 ^ 0x35 as bv8) as bv32, 0x80, 0x07)) == 0xcb
  {
  }

  lemma LastRegisters()
    ensures LowByte(EightTurns((0xcb ^ 0x36 as bv8) as bv32, 0x80, 0x07)) == 0xfd
    ensures LowByte(EightTurns((0xfd ^ 0x37 as bv8) as bv32, 0x80, 0x07)) == 0x78
    ensures LowByte(EightTurns((0x78 ^ 0x38 as bv8) as bv32, 0x80, 0x07)) == 0xc7
    ensures LowByte(EightTurns((0xc7 ^ 0x39 as bv8) as bv32, 0x80, 0x07)) == 0xf4
  {
  }

  lemma Registers16Follow(i: nat)
    requires i < 9
    ensures Registers16()[i + 1]
         == Low16(EightTurns(Registers16()[i] ^ ((NineDigits()[i] as bv32) << 8), 0x8000, 0x1021))
  {
    assert Low16(EightTurns(0xffff ^ ((0x31 as bv8 as bv32) << 8), 0x8000, 0x1021)) == 0xc782;
    assert Low16(EightTurns(0xc782 ^ ((0x32 as bv8 as bv32) << 8), 0x8000, 0x1021)) == 0x3dba;
    assert Low16(EightTurns(0x3dba ^ ((0x33 as bv8 as bv32) << 8), 0x8000, 0x1021)) == 0x5bce;
    assert Low16(EightTurns(0x5bce ^ ((0x34 as bv8 as bv32) << 8), 0x8000, 0x1021)) == 0x5349;
    assert Low16(EightTurns(0x5349 ^ ((0x35 as bv8 as bv32) << 8), 0x8000, 0x1021)) == 0x4560;
    assert Low16(EightTurns(0x4560 ^ ((0x36 as bv8 as bv32) << 8), 0x8000, 0x1021)) == 0x2ef4;
    assert Low16(EightTurns(0x2ef4 ^ ((0x37 as bv8 as bv32) << 8), 0x8000, 0x1021)) == 0x7718;
    assert Low16(EightTurns(0x7718 ^ ((0x38 as bv8 as bv32) << 8), 0x8000, 0x1021)) == 0xa12b;
    assert Low16(EightTurns(0xa12b ^ ((0x39 as bv8 as bv32) << 8), 0x8000, 0x1021)) == 0x29b1;
    hide Low16, EightTurns;
  }

  lemma {:induction false} AfterDigits8(i: nat)
    requires i <= 9
    ensures ByteBits(Registers8()[i]) == Remainder8(NineDigits()[..i])
  {
    hide *;
    RegistersStart();
    if i > 0 {
      var data, words := NineDigits(), Registers8();
      AfterDigits8(i - 1);
      Registers8Follow(i - 1);
      NextByte8(data[..i - 1], words[i - 1], data[i - 1], words[i]);
      assert data[..i] == data[..i - 1] + [data[i - 1]];
    }
  }

  lemma {:induction false} AfterDigits16(i: nat)
    requires i <= 9
    ensures LowBits(Registers16()[i], 16) == Remainder16(NineDigits()[..i])
  {
    hide *;
    RegistersStart();
    if i > 0 {
      var data, words := NineDigits(), Registers16();
      AfterDigits16(i - 1);
      Registers16Follow(i - 1);
      NextByte16(data[..i - 1], words[i - 1], data[i - 1], words[i]);
      assert data[..i] == data[..i - 1] + [data[i - 1]];
    }
  }

  lemma RegistersStart()
    ensures ByteBits(Registers8()[0]) == Remainder8([]) && LowBits(Registers16()[0], 16) == Remainder16([])
  {
    hide LowBits, Remainder8, Remainder16, ByteBits;
    RemainderEmpty();
  }

  // ---------- What the checksums detect ----------

  /** Both generators have a constant term and, with their leading one, an even number of terms. */
  lemma GeneratorTerms()
    ensures HasConstantTerm(G8()) && OddBits(G8())
    ensures HasConstantTerm(G16()) && OddBits(G16())
  {
    Terms8(POLYNOMIAL8);
    Terms16(POLYNOMIAL16);
    hide Bit;
    assert G8() == Zeros(5) + [true] + Zeros(0) + [true] + Zeros(0) + [true];
    assert G16() == Zeros(3) + [true] + Zeros(6) + [true] + Zeros(4) + [true];
    hide LowBits, Zeros;
    OddOnes(5, 0, 0);
    OddOnes(3, 6, 4);
  }

  lemma Terms8(p: bv32)
    requires p == POLYNOMIAL8
    ensures forall k: nat :: k < 8 ==> (Bit(p, k) <==> k <= 2)
  {
    ByteMasks();
    hide Mask;
    assert !Bit(p, 7) && !Bit(p, 6) && !Bit(p, 5) && !Bit(p, 4);
    assert !Bit(p, 3) && Bit(p, 2) && Bit(p, 1) && Bit(p, 0);
    hide Bit;
  }

  lemma Terms16(p: bv32)
    requires p == POLYNOMIAL16
    ensures forall k: nat :: k < 16 ==> (Bit(p, k) <==> k == 0 || k == 5 || k == 12)
  {
    ByteMasks();
    WordMasks();
    hide Mask;
    assert !Bit(p, 15) && !Bit(p, 14) && !Bit(p, 13) && Bit(p, 12);
    assert !Bit(p, 11) && !Bit(p, 10) && !Bit(p, 9) && !Bit(p, 8);
    assert !Bit(p, 7) && !Bit(p, 6) && Bit(p, 5) && !Bit(p, 4);
    assert !Bit(p, 3) && !Bit(p, 2) && !Bit(p, 1) && Bit(p, 0);
    hide Bit;
  }

  lemma OddOnes(i: nat, j: nat, k: nat)
    ensures OddBits(Zeros(i) + [true] + Zeros(j) + [true] + Zeros(k) + [true])
  {
    OddZeros(i);
    OddZeros(j);
    OddZeros(k);
    OddConcat(Zeros(i), [true]);
    OddConcat(Zeros(i) + [true], Zeros(j));
    OddConcat(Zeros(i) + [true] + Zeros(j), [true]);
    OddConcat(Zeros(i) + [true] + Zeros(j) + [true], Zeros(k));
    OddConcat(Zeros(i) + [true] + Zeros(j) + [true] + Zeros(k), [true]);
  }

  /** A checksum is the one remainder of the message polynomial: it is r exactly when message, shifted up and with
      the start value added, is a multiple of the generator plus r. */
  lemma ChecksumsAreRemainders(data: Message, r: Bits)
    ensures r == Remainder8(data) <==> IsRemainder(G8(), Zeros(8), MessageBits(data), r)
    ensures r == Remainder16(data) <==> IsRemainder(G16(), LowBits(0xffff, 16), MessageBits(data), r)
  {
    hide Divide, LowBits, IsRemainder;
    RemainderIff(G8(), Zeros(8), MessageBits(data), r);
    RemainderIff(G16(), LowBits(0xffff, 16), MessageBits(data), r);
  }

  /** Messages whose bits differ only inside a window no wider than the checksum, at any bit position, have different
      checksums: 8 bits for CRC-8, 16 for CRC-16. */
  lemma BurstErrorsDetected(x: Message, y: Message, before: Bits, sent: Bits, received: Bits, after: Bits)
    requires |sent| == |received|
    requires MessageBits(x) == before + sent + after && MessageBits(y) == before + received + after
    ensures |sent| <= 8 ==> (Remainder8(x) == Remainder8(y) <==> x == y)
    ensures |sent| <= 16 ==> (Remainder16(x) == Remainder16(y) <==> x == y)
  {
    GeneratorTerms();
    hide Divide, LowBits, HasConstantTerm, MessageBits;
    if |sent| <= 8 {
      BurstDetected(G8(), Zeros(8), before, sent, received, after);
    }
    if |sent| <= 16 {
      BurstDetected(G16(), LowBits(0xffff, 16), before, sent, received, after);
    }
    if sent == received {
      MessageBitsInjective(x, y);
    }
  }

  /** In particular CRC-8 notices every change of one byte, and CRC-16 every change of two neighbouring bytes. */
  lemma ByteErrorsDetected(before: Message, sent: Message, received: Message, after: Message)
    requires |sent| == |received|
    ensures |sent| <= 1 ==>
      (Remainder8(before + sent + after) == Remainder8(before + received + after) <==> sent == received)
    ensures |sent| <= 2 ==>
      (Remainder16(before + sent + after) == Remainder16(before + received + after) <==> sent == received)
  {
    hide MessageBits, Remainder8, Remainder16;
    var x, y := before + sent + after, before + received + after;
    MessageBitsConcat(before + sent, after);
    MessageBitsConcat(before, sent);
    MessageBitsConcat(before + received, after);
    MessageBitsConcat(before, received);
    BurstErrorsDetected(x, y, MessageBits(before), MessageBits(sent), MessageBits(received), MessageBits(after));
    if x == y {
      assert sent == x[|before|..|before| + |sent|] && received == y[|before|..|before| + |sent|];
    }
  }

  /** Both checksums notice every error in an odd number of bits, however they are spread. */
  lemma OddErrorsDetected(x: Message, y: Message)
    requires |x| == |y| && Distance(MessageBits(x), MessageBits(y)) % 2 == 1
    ensures Remainder8(x) != Remainder8(y) && Remainder16(x) != Remainder16(y)
  {
    GeneratorTerms();
    hide Divide, LowBits, OddBits, MessageBits;
    OddErrorDetected(G8(), Zeros(8), MessageBits(x), MessageBits(y));
    OddErrorDetected(G16(), LowBits(0xffff, 16), MessageBits(x), MessageBits(y));
  }

  /** Bytes appended to a message leave residue 0 exactly when they are the message's own checksum. */
  lemma AppendedChecksum(data: Message, appended: Message)
    ensures |appended| == 1 ==>
      (Remainder8(data + appended) == Zeros(8) <==> MessageBits(appended) == Remainder8(data))
    ensures |appended| == 2 ==>
      (Remainder16(data + appended) == Zeros(16) <==> MessageBits(appended) == Remainder16(data))
  {
    RemainderConcat(data, appended);
    GeneratorTerms();
    hide Remainder8, Remainder16, MessageBits, HasConstantTerm, LowBits, Divide;
    if |appended| == 1 {
      AppendedRemainder(G8(), Remainder8(data), MessageBits(appended));
    }
    if |appended| == 2 {
      AppendedRemainder(G16(), Remainder16(data), MessageBits(appended));
    }
  }
}
