/** Byte sequences, big-endian integers and hexadecimal text, as the DataView, BigInt and TextEncoder
    calls of the library read and write them. */
module ByteStrings {
  import opened NumberTheory

  type Byte = x: int | 0 <= x < 256
  type Bytes = seq<Byte>

  // ---------- Big-endian integers ----------

  function TwoTo(e: nat): (p: nat)
    ensures p > 0
  {
    if e == 0 then 1 else 2 * TwoTo(e - 1)
  }

  /** 256^n, the number of n-byte strings. */
  function ByteRange(n: nat): (p: nat)
    ensures p > 0
  {
    if n == 0 then 1 else 256 * ByteRange(n - 1)
  }

  function BigEndian(bs: Bytes): nat {
    if bs == [] then 0 else BigEndian(bs[..|bs| - 1]) * 256 + bs[|bs| - 1]
  }

  /** The low `n` bytes of v, most significant first. Higher bytes are lost, as in DataView setters. */
  function ToBigEndian(v: nat, n: nat): (bs: Bytes)
    ensures |bs| == n
  {
    if n == 0 then [] else ToBigEndian(v / 256, n - 1) + [v % 256]
  }

  lemma {:induction false} BigEndianBound(bs: Bytes)
    ensures BigEndian(bs) < ByteRange(|bs|)
  {
    if bs != [] {
      BigEndianBound(bs[..|bs| - 1]);
    }
  }

  /** Writing then reading an n-byte field reduces the value modulo 256^n. */
  lemma {:induction false} ReadBackField(v: nat, n: nat)
    ensures BigEndian(ToBigEndian(v, n)) == v % ByteRange(n)
  {
    if n > 0 {
      ReadBackField(v / 256, n - 1);
      var bs := ToBigEndian(v, n);
      assert bs[..n - 1] == ToBigEndian(v / 256, n - 1);
      ModOfQuotient(v, ByteRange(n - 1));
    }
  }

  lemma ModOfQuotient(v: nat, r: nat)
    requires r > 0
    ensures v % (256 * r) == (v / 256) % r * 256 + v % 256
  {
    var q, s := (v / 256) / r, (v / 256) % r;
    assert v / 256 == r * q + s;
    assert v == (256 * r) * q + (s * 256 + v % 256);
    DivModUnique(v, q, s * 256 + v % 256, 256 * r);
  }

  /** Reading then writing a field restores its bytes. */
  lemma {:induction false} WriteBackField(bs: Bytes)
    ensures ToBigEndian(BigEndian(bs), |bs|) == bs
  {
    if bs != [] {
      WriteBackField(bs[..|bs| - 1]);
    }
  }

  lemma {:induction false} BigEndianConcat(a: Bytes, b: Bytes)
    ensures BigEndian(a + b) == BigEndian(a) * ByteRange(|b|) + BigEndian(b)
  {
    if b == [] {
      assert a + b == a;
    } else {
      var n := |b| - 1;
      BigEndianConcat(a, b[..n]);
      assert (a + b)[..|a + b| - 1] == a + b[..n];
      Associate(BigEndian(a), 256, ByteRange(n));
    }
  }

  // ---------- Hexadecimal text ----------

  function HexDigit(d: nat): (c: char)
    requires d < 16
    ensures IsLowerHexDigit(c) && DigitValue(c) == d
  {
    if d < 10 then ('0' as int + d) as char else ('a' as int + d - 10) as char
  }

  predicate IsLowerHexDigit(c: char) {
    '0' <= c <= '9' || 'a' <= c <= 'f'
  }

  predicate IsHexDigit(c: char) {
    '0' <= c <= '9' || 'a' <= c <= 'f' || 'A' <= c <= 'F'
  }

  /** The value of a hexadecimal digit in either case; other characters are never given to it. */
  function DigitValue(c: char): (d: nat)
    ensures d < 16
  {
    if '0' <= c <= '9' then c as int - '0' as int
    else if 'a' <= c <= 'f' then c as int - 'a' as int + 10
    else if 'A' <= c <= 'F' then c as int - 'A' as int + 10
    else 0
  }

  predicate IsHex(s: string) {
    forall i :: 0 <= i < |s| ==> IsHexDigit(s[i])
  }

  /** Lower-case digits only, as toString(16) writes. */
  predicate IsLowerHex(s: string) {
    forall i :: 0 <= i < |s| ==> IsLowerHexDigit(s[i])
  }

  function HexValue(s: string): nat
  {
    if s == "" then 0 else HexValue(s[..|s| - 1]) * 16 + DigitValue(s[|s| - 1])
  }

  /** toString(16): no leading zeros, and "0" for zero. */
  function ToHex(v: nat): (s: string)
    ensures |s| > 0 && IsLowerHex(s)
  {
    if v < 16 then [HexDigit(v)] else ToHex(v / 16) + [HexDigit(v % 16)]
  }

  /** The n low-order hexadecimal digits of v. */
  function HexField(v: nat, n: nat): (s: string)
    ensures |s| == n && IsLowerHex(s)
  {
    if n == 0 then "" else HexField(v / 16, n - 1) + [HexDigit(v % 16)]
  }

  function SixteenTo(n: nat): (p: nat)
    ensures p > 0
  {
    if n == 0 then 1 else 16 * SixteenTo(n - 1)
  }

  function Zeros(n: nat): (s: string)
    ensures |s| == n && IsLowerHex(s)
    ensures forall i :: 0 <= i < n ==> s[i] == '0'
  {
    seq(n, i => '0')
  }

  /** padStart(n, '0') */
  function PadStart(s: string, n: nat): (t: string)
    ensures |t| == if |s| < n then n else |s|
    ensures IsLowerHex(s) ==> IsLowerHex(t)
  {
    if |s| < n then Zeros(n - |s|) + s else s
  }

  lemma {:induction false} HexRoundTrip(v: nat)
    ensures HexValue(ToHex(v)) == v
  {
    if v >= 16 {
      HexRoundTrip(v / 16);
      var s := ToHex(v);
      assert s[..|s| - 1] == ToHex(v / 16);
    } else {
      assert HexValue("") == 0;
    }
  }

  lemma {:induction false} HexConcat(s: string, t: string)
    ensures HexValue(s + t) == HexValue(s) * SixteenTo(|t|) + HexValue(t)
  {
    if t == "" {
      assert s + t == s;
    } else {
      var n := |t| - 1;
      HexConcat(s, t[..n]);
      assert (s + t)[..|s + t| - 1] == s + t[..n];
      Associate(HexValue(s), 16, SixteenTo(n));
    }
  }

  lemma {:induction false} ZerosValue(n: nat)
    ensures HexValue(Zeros(n)) == 0
  {
    if n > 0 {
      ZerosValue(n - 1);
      assert Zeros(n)[..n - 1] == Zeros(n - 1);
    }
  }

  /** Zero padding does not change the value read back. */
  lemma PadStartValue(s: string, n: nat)
    ensures HexValue(PadStart(s, n)) == HexValue(s)
  {
    if |s| < n {
      var zeros := Zeros(n - |s|);
      ZerosValue(n - |s|);
      hide HexValue, SixteenTo, Zeros;
      HexConcat(zeros, s);
    }
  }

  lemma {:induction false} HexFieldValue(v: nat, n: nat)
    ensures HexValue(HexField(v, n)) < SixteenTo(n)
    ensures v < SixteenTo(n) ==> HexValue(HexField(v, n)) == v
  {
    if n > 0 {
      HexFieldValue(v / 16, n - 1);
      var s := HexField(v, n);
      assert s[..n - 1] == HexField(v / 16, n - 1);
    }
  }

  /** toString(16) of a number with a non-zero high part is that part's text followed by the low digits. */
  lemma {:induction false} HexSplit(c: nat, h: nat, n: nat)
    requires c > 0 && h < SixteenTo(n)
    ensures ToHex(c * SixteenTo(n) + h) == ToHex(c) + HexField(h, n)
  {
    if n > 0 {
      var v, w := c * SixteenTo(n) + h, c * SixteenTo(n - 1) + h / 16;
      HexSplitDigits(c, h, SixteenTo(n - 1));
      HexSplit(c, h / 16, n - 1);
      assert ToHex(v) == ToHex(w) + [HexDigit(h % 16)];
    }
  }

  lemma HexSplitDigits(c: nat, h: nat, r: nat)
    requires c > 0 && r > 0 && h < 16 * r
    ensures h / 16 < r
    ensures var v := c * (16 * r) + h;
            v >= 16 && v / 16 == c * r + h / 16 && v % 16 == h % 16
  {
    var v := c * (16 * r) + h;
    assert v == (c * r + h / 16) * 16 + h % 16;
    DivModUnique(v, c * r + h / 16, h % 16, 16);
    assert c * r >= 1;
  }

  lemma HexFieldAppend(v: nat, d: nat, n: nat)
    requires d < 16
    ensures HexField(v * 16 + d, n + 1) == HexField(v, n) + [HexDigit(d)]
    ensures v < SixteenTo(n) ==> v * 16 + d < SixteenTo(n + 1)
  {
    DivModUnique(v * 16 + d, v, d, 16);
  }

  /** A lower-case hex string is the fixed-width form of its value. */
  lemma {:induction false} HexFieldUnique(s: string)
    requires IsLowerHex(s)
    ensures HexValue(s) < SixteenTo(|s|) && HexField(HexValue(s), |s|) == s
  {
    if s != "" {
      var init, c := s[..|s| - 1], s[|s| - 1];
      HexFieldUnique(init);
      HexFieldAppend(HexValue(init), DigitValue(c), |init|);
      LowerDigitUnique(c);
      assert s == init + [c];
    }
  }

  lemma LowerDigitUnique(c: char)
    requires IsLowerHexDigit(c)
    ensures HexDigit(DigitValue(c)) == c
  {
  }

  lemma {:induction false} ShortText(v: nat, n: nat)
    requires n > 0 && v < SixteenTo(n)
    ensures |ToHex(v)| <= n
    decreases n
  {
    if v >= 16 {
      assert n > 1 by { assert SixteenTo(1) == 16 * SixteenTo(0); }
      ShortText(v / 16, n - 1);
    }
  }

  /** Padding the text of a number that fits gives its fixed-width form. */
  lemma PaddedHex(v: nat, n: nat)
    requires v < SixteenTo(n) && n > 0
    ensures PadStart(ToHex(v), n) == HexField(v, n)
  {
    hide ToHex, HexField, HexValue, SixteenTo;
    ShortText(v, n);
    PadStartValue(ToHex(v), n);
    HexRoundTrip(v);
    HexFieldUnique(PadStart(ToHex(v), n));
  }

  // ---------- Bytes as hexadecimal text ----------

  function ByteHex(b: Byte): (s: string)
    ensures |s| == 2
  {
    [HexDigit(b / 16), HexDigit(b % 16)]
  }

  /** Each byte as two digits, joined. */
  function BytesToHex(bs: Bytes): (s: string)
    ensures |s| == 2 * |bs|
  {
    if bs == [] then "" else BytesToHex(bs[..|bs| - 1]) + ByteHex(bs[|bs| - 1])
  }

  /** The digits of zero to fifteen, which are read in either case. */
  lemma DigitsInOrder(d: nat)
    requires d < 16
    ensures HexDigit(d) == "0123456789abcdef"[d]
    ensures DigitValue("0123456789abcdef"[d]) == d && DigitValue("0123456789ABCDEF"[d]) == d
  {
  }

  /** Every byte shows its high digit and then its low one. */
  lemma {:induction false} DigitsOfByte(bs: Bytes, i: nat)
    requires i < |bs|
    ensures BytesToHex(bs)[2 * i] == "0123456789abcdef"[bs[i] / 16]
    ensures BytesToHex(bs)[2 * i + 1] == "0123456789abcdef"[bs[i] % 16]
    decreases |bs|
  {
    DigitsInOrder(bs[i] / 16);
    DigitsInOrder(bs[i] % 16);
    hide HexDigit;
    if i < |bs| - 1 {
      DigitsOfByte(bs[..|bs| - 1], i);
    }
  }

  /** The text of a byte string is the fixed-width hexadecimal form of its big-endian value. */
  lemma {:induction false} BytesToHexField(bs: Bytes)
    ensures BigEndian(bs) < SixteenTo(2 * |bs|)
    ensures BytesToHex(bs) == HexField(BigEndian(bs), 2 * |bs|)
  {
    if bs != [] {
      var init, b := bs[..|bs| - 1], bs[|bs| - 1];
      BytesToHexField(init);
      HexFieldByte(BigEndian(init), b, 2 * |init|);
      assert SixteenTo(2 * |init| + 2) == 16 * SixteenTo(2 * |init| + 1);
    }
  }

  lemma HexFieldByte(v: nat, b: Byte, n: nat)
    ensures HexField(v * 256 + b, n + 2) == HexField(v, n) + ByteHex(b)
  {
    var w := v * 16 + b / 16;
    DivModUnique(v * 256 + b, w, b % 16, 16);
    DivModUnique(w, v, b / 16, 16);
    assert HexField(w, n + 1) == HexField(v, n) + [HexDigit(b / 16)];
  }

  /** Different byte strings have different texts. */
  lemma {:induction false} BytesToHexInjective(a: Bytes, b: Bytes)
    requires BytesToHex(a) == BytesToHex(b)
    ensures a == b
  {
    if a != [] && b != [] {
      var i, j := |a| - 1, |b| - 1;
      var s := BytesToHex(a);
      assert s[..|s| - 2] == BytesToHex(a[..i]) && s[|s| - 2..] == ByteHex(a[i]);
      assert s[..|s| - 2] == BytesToHex(b[..j]) && s[|s| - 2..] == ByteHex(b[j]);
      BytesToHexInjective(a[..i], b[..j]);
      ByteHexInjective(a[i], b[j]);
    }
  }

  lemma ByteHexInjective(x: Byte, y: Byte)
    requires ByteHex(x) == ByteHex(y)
    ensures x == y
  {
    assert DigitValue(ByteHex(x)[0]) == x / 16 && DigitValue(ByteHex(x)[1]) == x % 16;
    assert DigitValue(ByteHex(y)[0]) == y / 16 && DigitValue(ByteHex(y)[1]) == y % 16;
  }

  /** Pairs of digits read as bytes, from the left. */
  function HexPairs(s: string): (bs: Bytes)
    requires |s| % 2 == 0
    ensures |bs| == |s| / 2
  {
    if s == "" then []
    else HexPairs(s[..|s| - 2]) + [DigitValue(s[|s| - 2]) * 16 + DigitValue(s[|s| - 1])]
  }

  /** One more pair of digits is one more byte. */
  lemma LastPair(t: string, s: string, x: char, y: char)
    requires |s| % 2 == 0 && |t| % 2 == 0 && |t| == |s| + 2 && t[..|s|] == s && t[|s|] == x && t[|s| + 1] == y
    ensures HexPairs(t) == HexPairs(s) + [DigitValue(x) * 16 + DigitValue(y)]
  {
    hide DigitValue;
  }

  /** Fills one byte per digit pair. */
  method FillFromPairs(hex: string) returns (bytes: array<Byte>)
    requires |hex| % 2 == 0
    ensures fresh(bytes) && bytes[..] == HexPairs(hex)
  {
    hide HexPairs, DigitValue;
    bytes := new Byte[|hex| / 2](_ => 0);
    var i := 0;
    while i < |hex|
      invariant 0 <= i <= |hex| && i % 2 == 0
      invariant bytes[..i / 2] == HexPairs(hex[..i])
    {
      LastPair(hex[..i + 2], hex[..i], hex[i], hex[i + 1]);
      bytes[i / 2] := DigitValue(hex[i]) * 16 + DigitValue(hex[i + 1]);
      i := i + 2;
    }
    assert hex[..i] == hex;
  }

  lemma {:induction false} HexPairsValue(s: string)
    requires |s| % 2 == 0
    ensures BigEndian(HexPairs(s)) == HexValue(s)
  {
    if s != "" {
      var init := s[..|s| - 2];
      HexPairsValue(init);
      assert s[..|s| - 1][..|s| - 2] == init;
      assert HexValue(s[..|s| - 1]) == HexValue(init) * 16 + DigitValue(s[|s| - 2]);
    }
  }

  // ---------- Text as bytes ----------

  predicate IsAscii(s: string) {
    forall i :: 0 <= i < |s| ==> s[i] < 128 as char
  }

  /** TextEncoder on ASCII text. */
  function Encode(s: string): (bs: Bytes)
    requires IsAscii(s)
    ensures |bs| == |s|
  {
    seq(|s|, i requires 0 <= i < |s| => s[i] as int)
  }

  predicate IsAsciiBytes(bs: Bytes) {
    forall i :: 0 <= i < |bs| ==> bs[i] < 128
  }

  /** TextDecoder on ASCII bytes. */
  function Decode(bs: Bytes): (s: string)
    requires IsAsciiBytes(bs)
    ensures |s| == |bs| && IsAscii(s)
  {
    seq(|bs|, i requires 0 <= i < |bs| => bs[i] as char)
  }

  lemma TextRoundTrip(s: string)
    requires IsAscii(s)
    ensures IsAsciiBytes(Encode(s)) && Decode(Encode(s)) == s
  {
  }

  lemma HexIsAscii(s: string)
    requires IsLowerHex(s)
    ensures IsAscii(s) && IsHex(s)
  {
  }
}
