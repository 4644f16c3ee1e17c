/** GUIDs of 16 bytes and their written forms: full and short hexadecimal text, base64 and its URL-safe
    variant, and one big integer. */
module Guids {
  import opened Base64
  import opened BitOperations
  import opened ByteStrings
  import opened Results

  const RAW_LENGTH: nat := 16

  /** 8-4-4-4-12 hexadecimal digits in either case */
  predicate FullHexPattern(s: string) {
    |s| == 36 && s[8] == s[13] == s[18] == s[23] == '-' && IsHex(RemoveDashes(s)) && |RemoveDashes(s)| == 32
  }

  /** uuid.validate as an arbitrary predicate that accepts only the pattern. */
  ghost predicate OnlyPattern(accepts: string -> bool) {
    forall s: string :: accepts(s) ==> FullHexPattern(s)
  }

  type Validator = accepts: string -> bool | OnlyPattern(accepts)
    witness (s: string) => false

  /** Shared by all conversions: the pieces of a 32-digit text. */
  function InsertDashes(s: string): (t: string)
    ensures |s| == 32 ==> |t| == 36
  {
    if |s| == 32 then s[..8] + "-" + s[8..12] + "-" + s[12..16] + "-" + s[16..20] + "-" + s[20..] else s
  }

  function Remove(s: string, c: char): string
    decreases |s|
  {
    if s == "" then ""
    else if s[0] == c then Remove(s[1..], c)
    else [s[0]] + Remove(s[1..], c)
  }

  function RemoveDashes(s: string): string {
    Remove(s, '-')
  }

  function ShortHex(bytes: Bytes): string {
    BytesToHex(bytes)
  }

  function FullHex(bytes: Bytes): string {
    InsertDashes(BytesToHex(bytes))
  }

  function BigInt(bytes: Bytes): nat {
    HexValue(BytesToHex(bytes))
  }

  function Replace(s: string, from: char, to: char): (t: string)
    ensures |t| == |s|
  {
    seq(|s|, i requires 0 <= i < |s| => if s[i] == from then to else s[i])
  }

  function UrlSafe(bytes: Bytes): string {
    Remove(Replace(Replace(Encode64(bytes), '+', '-'), '/', '_'), '=')
  }

  /** padEnd(24, '=') after the letters have been changed back */
  function FromUrlSafe(s: string): string {
    var t := Replace(Replace(s, '-', '+'), '_', '/');
    if |t| < 24 then t + Padding(24 - |t|) else t
  }

  predicate IsBoundary(s: string) {
    s == FullHex(seq(16, i => 0)) || s == FullHex(seq(16, i => 255))
  }

  predicate Valid(accepts: string -> bool, s: string) {
    IsBoundary(s) || accepts(s)
  }

  datatype Input = Text(s: string) | Raw(bytes: Bytes) | Big(v: int)

  /** The last check, made on the bytes whatever form they came in. */
  function Finish(accepts: string -> bool, bytes: Bytes): Option<Bytes> {
    if |bytes| == RAW_LENGTH && Valid(accepts, FullHex(bytes)) then Some(bytes) else None
  }

  /** Bytes of a text of digit pairs. */
  function PairBytes(s: string): Bytes {
    if |s| % 2 == 0 then HexPairs(s) else []
  }

  /** What the constructor makes of an input; the form is recognised by its length. */
  function Construct(accepts: string -> bool, input: Input): Option<Bytes> {
    match input
    case Raw(bytes) => Finish(accepts, bytes)
    case Big(v) =>
      if v < 0 || v >= SixteenTo(32) || !Valid(accepts, InsertDashes(PadStart(ToHex(v), 32))) then None
      else Finish(accepts, PairBytes(PadStart(ToHex(v), 32)))
    case Text(s) =>
      if |s| == 36 then
        if ('-' in s && !FullHexPattern(s)) || !Valid(accepts, s) then None
        else Finish(accepts, PairBytes(RemoveDashes(s)))
      else if |s| == 32 then
        if ('-' !in s && !IsHex(s)) || !Valid(accepts, InsertDashes(s)) then None
        else Finish(accepts, PairBytes(s))
      else if |s| == 24 then
        var bytes := Decode64(s);
        if bytes.None? then None else Finish(accepts, bytes.value)
      else None
  }

  // ---------- The forms agree ----------

  lemma {:induction false} RemoveConcat(s: string, t: string, c: char)
    ensures Remove(s + t, c) == Remove(s, c) + Remove(t, c)
    decreases |s|
  {
    if s == "" {
      assert s + t == t;
    } else {
      RemoveConcat(s[1..], t, c);
      RemoveFirst(s, c);
      RemoveFirst(s + t, c);
      assert (s + t)[0] == s[0] && (s + t)[1..] == s[1..] + t;
      hide Remove;
    }
  }

  lemma RemoveFirst(s: string, c: char)
    requires s != ""
    ensures s[0] == c ==> Remove(s, c) == Remove(s[1..], c)
    ensures s[0] != c ==> Remove(s, c) == [s[0]] + Remove(s[1..], c)
  {
  }

  lemma {:induction false} RemoveNothing(s: string, c: char)
    requires c !in s
    ensures Remove(s, c) == s
    decreases |s|
  {
    if s != "" {
      RemoveNothing(s[1..], c);
      assert s == [s[0]] + s[1..];
    }
  }

  lemma RemoveOneDash(before: string, after: string)
    ensures RemoveDashes(before + "-" + after) == RemoveDashes(before + after)
  {
    hide Remove;
    RemoveConcat(before + "-", after, '-');
    RemoveConcat(before, "-", '-');
    RemoveConcat(before, after, '-');
    OneDash();
  }

  lemma OneDash()
    ensures RemoveDashes("-") == ""
  {
    RemoveFirst("-", '-');
    assert Remove("-"[1..], '-') == "";
  }

  /** Dashes that were inserted are removed again, together with any that were there. */
  lemma InsertedDashesVanish(s: string)
    requires |s| == 32
    ensures RemoveDashes(InsertDashes(s)) == RemoveDashes(s)
  {
    var a, b, c, d, e := s[..8], s[8..12], s[12..16], s[16..20], s[20..];
    hide RemoveDashes;
    RemoveOneDash(a + "-" + b + "-" + c + "-" + d, e);
    RemoveOneDash(a + "-" + b + "-" + c, d + e);
    RemoveOneDash(a + "-" + b, c + d + e);
    RemoveOneDash(a, b + c + d + e);
    assert a + "-" + b + "-" + c + "-" + d + e == a + "-" + b + "-" + c + "-" + (d + e);
    assert a + "-" + b + "-" + c + (d + e) == a + "-" + b + "-" + (c + d + e);
    assert a + "-" + b + (c + d + e) == a + "-" + (b + c + d + e);
    assert a + (b + c + d + e) == s;
  }

  lemma DashesRoundTrip(s: string)
    requires |s| == 32 && '-' !in s
    ensures RemoveDashes(InsertDashes(s)) == s
  {
    InsertedDashesVanish(s);
    RemoveNothing(s, '-');
  }

  lemma HexHasNoDashes(s: string)
    requires IsLowerHex(s)
    ensures '-' !in s && IsHex(s)
  {
  }

  lemma {:induction false} TextOfBytes(bytes: Bytes)
    ensures IsLowerHex(BytesToHex(bytes))
    decreases |bytes|
  {
    if bytes != [] {
      TextOfBytes(bytes[..|bytes| - 1]);
    }
  }

  lemma {:induction false} PairsOfText(bytes: Bytes)
    ensures HexPairs(BytesToHex(bytes)) == bytes
    decreases |bytes|
  {
    hide HexPairs, HexDigit, DigitValue, ByteHex;
    if bytes == [] {
      NoPairs();
    } else {
      var init, b := bytes[..|bytes| - 1], bytes[|bytes| - 1];
      var s, t := BytesToHex(init), BytesToHex(bytes);
      assert t == s + ByteHex(b);
      hide BytesToHex;
      DigitPair(b);
      LastPair(t, s, HexDigit(b / 16), HexDigit(b % 16));
      PairsOfText(init);
      assert bytes == init + [b];
    }
  }

  lemma NoPairs()
    ensures HexPairs(BytesToHex([])) == []
  {
  }

  lemma PairsOfBytes(bytes: Bytes)
    ensures IsLowerHex(BytesToHex(bytes)) && HexPairs(BytesToHex(bytes)) == bytes
  {
    hide *;
    TextOfBytes(bytes);
    PairsOfText(bytes);
  }

  lemma DigitPair(b: Byte)
    ensures ByteHex(b) == [HexDigit(b / 16), HexDigit(b % 16)]
    ensures DigitValue(HexDigit(b / 16)) * 16 + DigitValue(HexDigit(b % 16)) == b
  {
    hide DigitValue;
  }

  lemma FullHexMatches(bytes: Bytes)
    requires |bytes| == RAW_LENGTH
    ensures RemoveDashes(FullHex(bytes)) == BytesToHex(bytes)
    ensures FullHexPattern(FullHex(bytes))
  {
    PairsOfBytes(bytes);
    HexHasNoDashes(BytesToHex(bytes));
    DashesRoundTrip(BytesToHex(bytes));
    hide RemoveDashes, IsLowerHex, HexPairs, BytesToHex;
  }

  /** Full and short hexadecimal text of accepted bytes construct the same bytes. */
  lemma HexFormsAgree(accepts: Validator, bytes: Bytes)
    requires |bytes| == RAW_LENGTH
    ensures Construct(accepts, Text(FullHex(bytes))) == Construct(accepts, Raw(bytes))
    ensures Construct(accepts, Text(ShortHex(bytes))) == Construct(accepts, Raw(bytes))
  {
    FullHexMatches(bytes);
    PairsOfBytes(bytes);
    HexHasNoDashes(BytesToHex(bytes));
    hide FullHexPattern, RemoveDashes, IsBoundary, HexPairs, BytesToHex, OnlyPattern;
  }

  /** So does the big integer. */
  lemma BigIntFormAgrees(accepts: Validator, bytes: Bytes)
    requires |bytes| == RAW_LENGTH
    ensures BigInt(bytes) < SixteenTo(32)
    ensures Construct(accepts, Big(BigInt(bytes))) == Construct(accepts, Raw(bytes))
  {
    hide IsBoundary, HexPairs, BytesToHex, InsertDashes, ToHex, PadStart, SixteenTo, BigInt, OnlyPattern;
    BigIntText(bytes);
    PairsOfBytes(bytes);
  }

  lemma BigIntText(bytes: Bytes)
    requires |bytes| == RAW_LENGTH
    ensures BigInt(bytes) < SixteenTo(32) && PadStart(ToHex(BigInt(bytes)), 32) == BytesToHex(bytes)
  {
    hide BytesToHex, ToHex, PadStart, SixteenTo, HexField, HexValue;
    PairsOfBytes(bytes);
    HexFieldUnique(BytesToHex(bytes));
    PaddedHex(BigInt(bytes), 32);
  }

  /** And base64. */
  lemma Base64FormAgrees(accepts: Validator, bytes: Bytes)
    requires |bytes| == RAW_LENGTH
    ensures |Encode64(bytes)| == 24
    ensures Construct(accepts, Text(Encode64(bytes))) == Construct(accepts, Raw(bytes))
  {
    hide IsBoundary, OnlyPattern, ToSextets, Letters, Decode64;
    Base64RoundTrip(bytes);
  }

  lemma {:induction false} RemovePadding(n: nat)
    ensures Remove(Padding(n), '=') == ""
  {
    if n > 0 {
      RemovePadding(n - 1);
      assert Padding(n)[1..] == Padding(n - 1);
    }
  }

  lemma LettersAvoid(ds: seq<Sextet>)
    ensures '-' !in Letters(ds) && '_' !in Letters(ds) && '=' !in Letters(ds)
  {
    forall i | 0 <= i < |ds|
      ensures Letters(ds)[i] != '-' && Letters(ds)[i] != '_' && Letters(ds)[i] != '='
    {
      assert LetterValue(Letters(ds)[i]) == Some(ds[i]);
    }
  }

  lemma ReplaceBack(s: string)
    requires '-' !in s && '_' !in s && '=' !in s
    ensures var t := Replace(Replace(s, '+', '-'), '/', '_');
            '=' !in t && Replace(Replace(t, '-', '+'), '_', '/') == s
  {
  }

  lemma ReplacePadding(s: string, n: nat, from: char, to: char)
    requires from != '='
    ensures Replace(s + Padding(n), from, to) == Replace(s, from, to) + Padding(n)
  {
  }

  /** The 22 letters that both forms are made of. */
  lemma UrlSafeText(bytes: Bytes) returns (s: string)
    requires |bytes| == RAW_LENGTH
    ensures |s| == 22 && Encode64(bytes) == s + "=="
    ensures '-' !in s && '_' !in s && '=' !in s
    ensures UrlSafe(bytes) == Replace(Replace(s, '+', '-'), '/', '_')
  {
    var ds := ToSextets(bytes);
    s := Letters(ds);
    LettersAvoid(ds);
    assert |s| == 22 && Encode64(bytes) == s + Padding(2);
    hide Letters, ToSextets, Encode64, Replace, Remove, Padding;
    ReplacePadding(s, 2, '+', '-');
    var t1 := Replace(s, '+', '-');
    ReplacePadding(t1, 2, '/', '_');
    var t := Replace(t1, '/', '_');
    ReplaceBack(s);
    RemoveConcat(t, Padding(2), '=');
    RemoveNothing(t, '=');
    RemovePadding(2);
    assert t + "" == t;
    assert Padding(2) == "==" by { TwoSigns(); }
  }

  lemma TwoSigns()
    ensures Padding(2) == "=="
  {
  }

  /** And the URL-safe variant, whose missing padding is put back. */
  lemma UrlSafeFormAgrees(accepts: Validator, bytes: Bytes)
    requires |bytes| == RAW_LENGTH
    ensures |UrlSafe(bytes)| == 22 && FromUrlSafe(UrlSafe(bytes)) == Encode64(bytes)
    ensures Construct(accepts, Text(FromUrlSafe(UrlSafe(bytes)))) == Construct(accepts, Raw(bytes))
  {
    Base64FormAgrees(accepts, bytes);
    TwoSigns();
    var s := UrlSafeText(bytes);
    hide UrlSafe, Encode64, Replace, Padding, Construct, OnlyPattern;
    ReplaceBack(s);
  }

  // ---------- Order and equality ----------

  lemma BigIntIsBigEndian(bytes: Bytes)
    ensures BigInt(bytes) == BigEndian(bytes)
  {
    PairsOfBytes(bytes);
    HexPairsValue(BytesToHex(bytes));
  }

  /** At the first difference the smaller byte decides which integer is smaller. */
  lemma FirstDifferenceDecides(a: Bytes, b: Bytes, i: nat)
    requires i < |a| == |b| && a[..i] == b[..i] && a[i] < b[i]
    ensures BigInt(a) < BigInt(b)
  {
    BigIntIsBigEndian(a);
    BigIntIsBigEndian(b);
    var n := |a| - i - 1;
    var x, y := a[i + 1..], b[i + 1..];
    assert a == a[..i + 1] + x && b == b[..i + 1] + y;
    BigEndianConcat(a[..i + 1], x);
    BigEndianConcat(b[..i + 1], y);
    assert a[..i + 1][..i] == a[..i] && b[..i + 1][..i] == b[..i];
    BigEndianBound(x);
    hide BigEndian, ByteRange, BigInt;
    Separated(BigEndian(a[..i + 1]), BigEndian(b[..i + 1]), ByteRange(n), BigEndian(x), BigEndian(y));
  }

  lemma Separated(p: nat, q: nat, r: nat, x: nat, y: nat)
    requires p < q && x < r
    ensures p * r + x < q * r + y
  {
    assert (p + 1) * r <= q * r;
  }

  class Guid {
    const bytes: Bytes
    var cachedFullHex: Option<string>
    var cachedShortHex: Option<string>
    var cachedBase64: Option<string>

    /** What is cached is what would be computed. */
    ghost predicate Valid()
      reads this
    {
      && |bytes| == RAW_LENGTH
      && (cachedFullHex.Some? ==> cachedFullHex.value == FullHex(bytes))
      && (cachedShortHex.Some? ==> cachedShortHex.value == ShortHex(bytes))
      && (cachedBase64.Some? ==> cachedBase64.value == Encode64(bytes))
    }

    constructor (bytes: Bytes)
      requires |bytes| == RAW_LENGTH
      ensures Valid() && this.bytes == bytes
    {
      this.bytes := bytes;
      cachedFullHex, cachedShortHex, cachedBase64 := None, None, None;
    }

    method AsFullHex() returns (s: string)
      requires Valid()
      modifies this
      ensures Valid() && s == FullHex(bytes)
    {
      if cachedFullHex.None? {
        cachedFullHex := Some(InsertDashes(BytesToHex(bytes)));
      }
      return cachedFullHex.value;
    }

    method AsShortHex() returns (s: string)
      requires Valid()
      modifies this
      ensures Valid() && s == ShortHex(bytes)
    {
      if cachedShortHex.None? {
        var full := AsFullHex();
        FullHexMatches(bytes);
        cachedShortHex := Some(RemoveDashes(full));
      }
      return cachedShortHex.value;
    }

    method AsBase64() returns (s: string)
      requires Valid()
      modifies this
      ensures Valid() && s == Encode64(bytes)
    {
      if cachedBase64.None? {
        cachedBase64 := Some(Encode64(bytes));
      }
      return cachedBase64.value;
    }
  }

  method BytesOfPairs(hex: string) returns (bytes: Bytes)
    ensures bytes == PairBytes(hex)
  {
    if |hex| % 2 != 0 { return []; }
    var buffer := FillFromPairs(hex);
    return buffer[..];
  }

  /** The constructor: the form is recognised, checked and converted, and the bytes are checked once more. */
  method CreateGuid(accepts: string -> bool, input: Input) returns (r: Option<Guid>)
    ensures r.Some? ==> fresh(r.value) && r.value.Valid() && Construct(accepts, input) == Some(r.value.bytes)
    ensures r.None? ==> Construct(accepts, input) == None
  {
    hide FullHexPattern, Valid, InsertDashes, RemoveDashes, PadStart, ToHex, SixteenTo, PairBytes, Decode64, IsHex;
    var bytes: Bytes := [];
    match input {
    case Raw(raw) =>
      bytes := raw;
    case Big(v) =>
      if v < 0 || v >= SixteenTo(32) || !Valid(accepts, InsertDashes(PadStart(ToHex(v), 32))) { return None; }
      bytes := BytesOfPairs(PadStart(ToHex(v), 32));
    case Text(s) =>
      if |s| == 36 {
        if ('-' in s && !FullHexPattern(s)) || !Valid(accepts, s) { return None; }
        bytes := BytesOfPairs(RemoveDashes(s));
      } else if |s| == 32 {
        if ('-' !in s && !IsHex(s)) || !Valid(accepts, InsertDashes(s)) { return None; }
        bytes := BytesOfPairs(s);
      } else if |s| == 24 {
        var decoded := Decode64(s);
        if decoded.None? { return None; }
        bytes := decoded.value;
      } else {
        return None;
      }
    }
    if |bytes| != RAW_LENGTH || !Valid(accepts, FullHex(bytes)) { return None; }
    var guid := new Guid(bytes);
    return Some(guid);
  }

  /** Byte by byte, yet the order of the big integers. */
  method CompareTo(a: Bytes, b: Bytes) returns (order: int)
    requires |a| == |b| == RAW_LENGTH
    ensures order == if BigInt(a) < BigInt(b) then -1 else if BigInt(a) > BigInt(b) then 1 else 0
    ensures order == 0 <==> a == b
  {
    hide BigInt;
    var i := 0;
    while i < 16
      invariant 0 <= i <= 16 && a[..i] == b[..i]
    {
      if a[i] < b[i] {
        FirstDifferenceDecides(a, b, i);
        return -1;
      }
      if a[i] > b[i] {
        FirstDifferenceDecides(b, a, i);
        return 1;
      }
      i := i + 1;
    }
    assert a[..i] == a && b[..i] == b;
    return 0;
  }

  method Equals(a: Bytes, b: Bytes, constantTime: bool) returns (equal: bool)
    requires |a| == |b| == RAW_LENGTH
    ensures equal <==> a == b
  {
    if constantTime {
      var differs := Differs(a, b);
      return !differs;
    }
    var i := 0;
    while i < 16
      invariant 0 <= i <= 16 && a[..i] == b[..i]
    {
      if a[i] != b[i] { return false; }
      i := i + 1;
    }
    assert a[..i] == a && b[..i] == b;
    return true;
  }

  // ---------- What is accepted ----------

  /** Whatever is accepted denotes its bytes: an integer is their value, hexadecimal text in either case and with or
      without dashes has their value, and their full text is valid. */
  lemma ConstructDenotes(accepts: Validator, input: Input, bytes: Bytes)
    requires Construct(accepts, input) == Some(bytes)
    ensures |bytes| == RAW_LENGTH && Valid(accepts, FullHex(bytes))
    ensures input.Raw? ==> bytes == input.bytes
    ensures input.Big? ==> input.v == BigInt(bytes)
    ensures input.Text? && |input.s| != 24 ==> BigInt(bytes) == HexValue(RemoveDashes(input.s))
  {
    hide Valid, HexPairs, HexValue, BigInt, FullHexPattern, PadStart, ToHex, SixteenTo;
    match input
    case Raw(_) =>
    case Big(v) =>
      PairsDenote(PadStart(ToHex(v), 32));
      PadStartValue(ToHex(v), 32);
      HexRoundTrip(v);
    case Text(s) =>
      if |s| == 36 {
        PairsDenote(RemoveDashes(s));
      } else if |s| == 32 {
        PairsDenote(s);
        assert RemoveDashes(s) == s by {
          ShortTextHasNoDash(accepts, s);
          RemoveNothing(s, '-');
        }
      }
  }

  lemma PairsDenote(s: string)
    ensures |PairBytes(s)| == RAW_LENGTH ==> BigInt(PairBytes(s)) == HexValue(s)
  {
    if |s| % 2 == 0 {
      HexPairsValue(s);
      BigIntIsBigEndian(HexPairs(s));
    }
  }

  /** A 32-character text with a dash cannot pass: its dashed form would not match the pattern. */
  lemma ShortTextHasNoDash(accepts: Validator, s: string)
    requires |s| == 32 && Valid(accepts, InsertDashes(s))
    ensures '-' !in s
  {
    ValidMatches(accepts, InsertDashes(s));
    InsertedDashesVanish(s);
    RemoveShortens(s, '-');
  }

  lemma ValidMatches(accepts: Validator, t: string)
    requires Valid(accepts, t)
    ensures FullHexPattern(t)
  {
    FullHexMatches(seq(16, i => 0));
    FullHexMatches(seq(16, i => 255));
    hide FullHexPattern, FullHex;
  }

  lemma {:induction false} RemoveShortens(s: string, c: char)
    ensures |Remove(s, c)| <= |s|
    ensures |Remove(s, c)| == |s| ==> c !in s
    decreases |s|
  {
    if s != "" {
      RemoveShortens(s[1..], c);
      assert s == [s[0]] + s[1..];
    }
  }

  /** A text of 36 characters is accepted only with dashes at the four places and hexadecimal digits, in either case,
      everywhere else. */
  lemma AcceptedText(accepts: Validator, s: string, i: nat)
    requires |s| == 36 && Construct(accepts, Text(s)).Some? && i < 36
    ensures if i == 8 || i == 13 || i == 18 || i == 23 then s[i] == '-'
            else '0' <= s[i] <= '9' || 'a' <= s[i] <= 'f' || 'A' <= s[i] <= 'F'
  {
    ValidMatches(accepts, s);
    hide Valid, OnlyPattern;
    FourDashes(s, i);
  }

  lemma FourDashes(s: string, i: nat)
    requires FullHexPattern(s) && i < 36
    ensures if i == 8 || i == 13 || i == 18 || i == 23 then s[i] == '-' else IsHexDigit(s[i])
  {
    var u := s[..8] + s[9..13] + s[14..18] + s[19..23] + s[24..];
    DashesPut(s, u);
    hide Remove, InsertDashes;
    InsertedDashesVanish(u);
    RemoveShortens(u, '-');
    RemoveNothing(u, '-');
    assert IsHexDigit(u[if i < 8 then i else if i < 13 then i - 1 else if i < 18 then i - 2 else
                        if i < 23 then i - 3 else if i == 23 then 0 else i - 4]);
  }

  lemma DashesPut(s: string, u: string)
    requires |s| == 36 && s[8] == s[13] == s[18] == s[23] == '-'
    requires u == s[..8] + s[9..13] + s[14..18] + s[19..23] + s[24..]
    ensures |u| == 32 && InsertDashes(u) == s
  {
    var a, b, c, d, e := s[..8], s[9..13], s[14..18], s[19..23], s[24..];
    FivePieces(a, b, c, d, e);
    assert u == a + b + c + d + e;
    assert InsertDashes(u) == a + "-" + b + "-" + c + "-" + d + "-" + e;
    Joined(s);
    assert s[..9] == a + "-" && s[9..14] == b + "-" && s[14..19] == c + "-" && s[19..24] == d + "-";
    assert a + "-" + b + "-" + c + "-" + d + "-" + e
        == (a + "-") + (b + "-") + (c + "-") + (d + "-") + e;
  }

  lemma FivePieces(a: string, b: string, c: string, d: string, e: string)
    requires |a| == 8 && |b| == |c| == |d| == 4 && |e| == 12
    ensures var u := a + b + c + d + e;
            u[..8] == a && u[8..12] == b && u[12..16] == c && u[16..20] == d && u[20..] == e
  {
  }

  lemma Joined(s: string)
    requires |s| == 36
    ensures s == s[..9] + s[9..14] + s[14..19] + s[19..24] + s[24..]
  {
  }

  // ---------- The written forms, character by character ----------

  /** Dashes behind 4, 6, 8 and 10 bytes. */
  function DashesBefore(i: nat): nat {
    if i < 4 then 0 else if i < 6 then 1 else if i < 8 then 2 else if i < 10 then 3 else 4
  }

  /** The short form shows the digits of the bytes in order; the full form has dashes at 8, 13, 18 and 23 and shows the
      same digits around them. */
  lemma HexForms(bytes: Bytes, i: nat)
    requires |bytes| == RAW_LENGTH && i < 16
    ensures var s, k := ShortHex(bytes), 2 * i;
            |s| == 32 && s[k] == "0123456789abcdef"[bytes[i] / 16] && s[k + 1] == "0123456789abcdef"[bytes[i] % 16]
    ensures var t, k := FullHex(bytes), 2 * i + DashesBefore(i);
            |t| == 36 && t[k] == "0123456789abcdef"[bytes[i] / 16] && t[k + 1] == "0123456789abcdef"[bytes[i] % 16]
    ensures FullHex(bytes)[8] == FullHex(bytes)[13] == FullHex(bytes)[18] == FullHex(bytes)[23] == '-'
  {
    DigitsOfByte(bytes, i);
    hide BytesToHex;
  }

  /** The URL-safe form has the 22 letters of the base64 form, with '-' for '+' and '_' for '/'. */
  lemma UrlSafeLetters(bytes: Bytes, i: nat)
    requires |bytes| == RAW_LENGTH && i < 22
    ensures |UrlSafe(bytes)| == 22 && |Encode64(bytes)| == 24
    ensures UrlSafe(bytes)[i] == (match Encode64(bytes)[i] case '+' => '-' case '/' => '_' case c => c)
    ensures '=' !in UrlSafe(bytes)
  {
    var s := UrlSafeText(bytes);
    hide UrlSafe, Encode64, Letters, ToSextets;
  }

  /** The zero GUID and the one of all ones, which every validator lets through. */
  lemma BoundaryGuids(accepts: Validator)
    ensures Construct(accepts, Text("00000000-0000-0000-0000" + "-000000000000")) == Some(seq(16, i => 0))
    ensures Construct(accepts, Text("ffffffff-ffff-ffff-ffff" + "-ffffffffffff")) == Some(seq(16, i => 255))
  {
    var zeros: Bytes := seq(16, i => 0);
    var ones: Bytes := seq(16, i => 255);
    HexFormsAgree(accepts, zeros);
    HexFormsAgree(accepts, ones);
    BoundaryText(zeros, 0, '0');
    BoundaryText(ones, 255, 'f');
    BoundaryLiterals();
    hide FullHex, OnlyPattern, Construct, Four, Eight;
  }

  lemma BoundaryText(bytes: Bytes, b: Byte, c: char)
    requires |bytes| == RAW_LENGTH && forall i :: 0 <= i < 16 ==> bytes[i] == b
    requires (b == 0 && c == '0') || (b == 255 && c == 'f')
    ensures FullHex(bytes) == Eight(c) + "-" + Four(c) + "-" + Four(c) + "-" + Four(c) + "-" + Four(c) + Eight(c)
  {
    assert "0123456789abcdef"[b / 16] == c && "0123456789abcdef"[b % 16] == c;
    forall k | 0 <= k < 32
      ensures BytesToHex(bytes)[k] == c
    {
      DigitsOfByte(bytes, k / 2);
    }
    hide BytesToHex;
    var s := BytesToHex(bytes);
    assert s[..8] == Eight(c) && s[8..12] == Four(c) && s[12..16] == Four(c) && s[16..20] == Four(c);
    assert s[20..] == Four(c) + Eight(c);
  }

  lemma BoundaryLiterals()
    ensures Eight('0') + "-" + Four('0') + "-" + Four('0') + "-" + Four('0') + "-" + Four('0') + Eight('0')
         == "00000000-0000-0000-0000" + "-000000000000"
    ensures Eight('f') + "-" + Four('f') + "-" + Four('f') + "-" + Four('f') + "-" + Four('f') + Eight('f')
         == "ffffffff-ffff-ffff-ffff" + "-ffffffffffff"
  {
    assert "00000000-0000-0000-0000" == Eight('0') + "-" + Four('0') + "-" + Four('0') + "-" + Four('0');
    assert "-000000000000" == "-" + Four('0') + Eight('0');
    assert "ffffffff-ffff-ffff-ffff" == Eight('f') + "-" + Four('f') + "-" + Four('f') + "-" + Four('f');
    assert "-ffffffffffff" == "-" + Four('f') + Eight('f');
  }

  function Four(c: char): string {
    [c, c, c, c]
  }

  function Eight(c: char): string {
    Four(c) + Four(c)
  }

  /** What is refused whatever the validator says: bytes and texts of other lengths, negative integers and those of more
      than 128 bits. */
  lemma Refusals(accepts: Validator)
    ensures forall bytes: Bytes :: |bytes| != 16 ==> Construct(accepts, Raw(bytes)) == None
    ensures forall s: string :: |s| != 36 && |s| != 32 && |s| != 24 ==> Construct(accepts, Text(s)) == None
    ensures forall v :: v < 0 || v >= 0x1_0000_0000_0000_0000_0000_0000_0000_0000 ==>
      Construct(accepts, Big(v)) == None
  {
    assert SixteenTo(32) == 0x1_0000_0000_0000_0000_0000_0000_0000_0000 by {
      assert SixteenTo(8) == 0x1_0000_0000;
      assert SixteenTo(16) == 0x1_0000_0000_0000_0000;
      assert SixteenTo(24) == 0x1_0000_0000_0000_0000_0000_0000;
    }
  }

  /** Sixteen bytes are taken exactly when the validator lets their full text through, or all are 0 or all 255. */
  lemma AcceptedBytes(accepts: Validator, bytes: Bytes)
    requires |bytes| == 16
    ensures Construct(accepts, Raw(bytes)) == Some(bytes) <==>
      || accepts(FullHex(bytes)) || (forall i :: 0 <= i < 16 ==> bytes[i] == 0)
      || (forall i :: 0 <= i < 16 ==> bytes[i] == 255)
    ensures Construct(accepts, Raw(bytes)) != Some(bytes) ==> Construct(accepts, Raw(bytes)) == None
  {
    FullHexInjective(bytes, seq(16, i => 0));
    FullHexInjective(bytes, seq(16, i => 255));
    hide FullHex, OnlyPattern;
  }

  lemma FullHexInjective(a: Bytes, b: Bytes)
    requires |a| == |b| == RAW_LENGTH
    ensures FullHex(a) == FullHex(b) <==> a == b
  {
    FullHexMatches(a);
    FullHexMatches(b);
    hide FullHex, RemoveDashes, FullHexPattern;
    if FullHex(a) == FullHex(b) {
      BytesToHexInjective(a, b);
    }
  }

  /** The same text in the other case. */
  predicate SameDigits(s: string, t: string) {
    |s| == |t| && forall i :: 0 <= i < |s| ==>
      s[i] == t[i] || ('a' <= s[i] <= 'f' && t[i] as int == s[i] as int - 32)
  }

  /** A GUID written in capitals is the same GUID. */
  lemma CapitalsDenoteTheSame(accepts: Validator, s: string, t: string, a: Bytes, b: Bytes)
    requires |s| != 24 && SameDigits(s, t)
    requires Construct(accepts, Text(s)) == Some(a) && Construct(accepts, Text(t)) == Some(b)
    ensures a == b
  {
    ConstructDenotes(accepts, Text(s), a);
    ConstructDenotes(accepts, Text(t), b);
    hide Construct, BigInt, HexValue, RemoveDashes, OnlyPattern, Valid;
    RemoveKeepsDigits(s, t);
    SameValue(RemoveDashes(s), RemoveDashes(t));
    BigIntIsBigEndian(a);
    BigIntIsBigEndian(b);
    WriteBackField(a);
    WriteBackField(b);
  }

  lemma {:induction false} RemoveKeepsDigits(s: string, t: string)
    requires SameDigits(s, t)
    ensures SameDigits(RemoveDashes(s), RemoveDashes(t))
    decreases |s|
  {
    if s != "" {
      RemoveKeepsDigits(s[1..], t[1..]);
    }
  }

  lemma {:induction false} SameValue(s: string, t: string)
    requires SameDigits(s, t)
    ensures HexValue(s) == HexValue(t)
    decreases |s|
  {
    if s != "" {
      SameValue(s[..|s| - 1], t[..|t| - 1]);
    }
  }
}
