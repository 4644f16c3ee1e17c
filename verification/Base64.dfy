/** Base64 with the standard alphabet (section 4 of RFC 4648), written as btoa writes it and read as forgivingly
    as atob reads it. */
module Base64 {
  import opened NumberTheory
  import opened ByteStrings
  import opened Results

  type Sextet = d: int | 0 <= d < 64

  function Letter(d: Sextet): (c: char)
    ensures LetterValue(c) == Some(d)
  {
    if d < 26 then ('A' as int + d) as char
    else if d < 52 then ('a' as int + d - 26) as char
    else if d < 62 then ('0' as int + d - 52) as char
    else if d == 62 then '+'
    else '/'
  }

  function LetterValue(c: char): Option<Sextet> {
    if 'A' <= c <= 'Z' then Some(c as int - 'A' as int)
    else if 'a' <= c <= 'z' then Some(c as int - 'a' as int + 26)
    else if '0' <= c <= '9' then Some(c as int - '0' as int + 52)
    else if c == '+' then Some(62)
    else if c == '/' then Some(63)
    else None
  }

  predicate IsLetter(c: char) {
    LetterValue(c).Some?
  }

  /** Three bytes are four sextets; one or two bytes at the end are two or three. */
  function ToSextets(bs: Bytes): (ds: seq<Sextet>)
    ensures |ds| == |bs| / 3 * 4 + if |bs| % 3 == 0 then 0 else |bs| % 3 + 1
    decreases |bs|
  {
    if |bs| >= 3 then
      [bs[0] / 4, bs[0] % 4 * 16 + bs[1] / 16, bs[1] % 16 * 4 + bs[2] / 64, bs[2] % 64] + ToSextets(bs[3..])
    else if |bs| == 2 then [bs[0] / 4, bs[0] % 4 * 16 + bs[1] / 16, bs[1] % 16 * 4]
    else if |bs| == 1 then [bs[0] / 4, bs[0] % 4 * 16]
    else []
  }

  /** Bits that do not fill a byte are dropped. */
  function FromSextets(ds: seq<Sextet>): Bytes
    decreases |ds|
  {
    if |ds| >= 4 then [First(ds[0], ds[1]), Second(ds[1], ds[2]), Third(ds[2], ds[3])] + FromSextets(ds[4..])
    else if |ds| == 3 then [First(ds[0], ds[1]), Second(ds[1], ds[2])]
    else if |ds| == 2 then [First(ds[0], ds[1])]
    else []
  }

  function First(a: Sextet, b: Sextet): Byte {
    (a as int) * 4 + (b as int) / 16
  }

  function Second(b: Sextet, c: Sextet): Byte {
    (b as int) % 16 * 16 + (c as int) / 4
  }

  function Third(c: Sextet, d: Sextet): Byte {
    (c as int) % 4 * 64 + d as int
  }

  lemma {:induction false} SextetsRoundTrip(bs: Bytes)
    ensures FromSextets(ToSextets(bs)) == bs
    decreases |bs|
  {
    hide *;
    if |bs| >= 3 {
      var x, y, z := bs[0], bs[1], bs[2];
      EncodeGroup(bs);
      GroupRoundTrip(x, y, z);
      SextetsRoundTrip(bs[3..]);
      DecodeGroup(x / 4, x % 4 * 16 + y / 16, y % 16 * 4 + z / 64, z % 64, ToSextets(bs[3..]));
      assert bs == [x, y, z] + bs[3..];
    } else {
      ShortRoundTrip(bs);
    }
  }

  lemma EncodeGroup(bs: Bytes)
    requires |bs| >= 3
    ensures var x, y, z := bs[0], bs[1], bs[2];
            var a: Sextet, b: Sextet, c: Sextet, d: Sextet := x / 4, x % 4 * 16 + y / 16, y % 16 * 4 + z / 64, z % 64;
            ToSextets(bs) == [a, b, c, d] + ToSextets(bs[3..])
  {
  }

  lemma ShortRoundTrip(bs: Bytes)
    requires |bs| < 3
    ensures FromSextets(ToSextets(bs)) == bs
  {
    hide *;
    if |bs| == 2 {
      TwoBytes(bs[0], bs[1]);
      assert bs == [bs[0], bs[1]];
    } else if |bs| == 1 {
      OneByte(bs[0]);
      assert bs == [bs[0]];
    } else {
      NoBytes();
    }
  }

  lemma NoBytes()
    ensures FromSextets(ToSextets([])) == []
  {
  }

  lemma TwoBytes(x: Byte, y: Byte)
    ensures FromSextets(ToSextets([x, y])) == [x, y]
  {
    GroupRoundTrip(x, y, 0);
    var a: Sextet, b: Sextet, c: Sextet := x / 4, x % 4 * 16 + y / 16, y % 16 * 4;
    assert ToSextets([x, y]) == [a, b, c];
    hide *;
    DecodeShort(a, b, c);
  }

  lemma OneByte(x: Byte)
    ensures FromSextets(ToSextets([x])) == [x]
  {
    GroupRoundTrip(x, 0, 0);
    var a: Sextet, b: Sextet := x / 4, x % 4 * 16;
    assert ToSextets([x]) == [a, b];
    hide *;
    DecodeShort(a, b, 0);
  }

  lemma DecodeShort(a: Sextet, b: Sextet, c: Sextet)
    ensures FromSextets([a, b, c]) == [First(a, b), Second(b, c)] && FromSextets([a, b]) == [First(a, b)]
  {
    hide First, Second, Third;
  }

  lemma DecodeGroup(a: Sextet, b: Sextet, c: Sextet, d: Sextet, rest: seq<Sextet>)
    ensures FromSextets([a, b, c, d] + rest) == [First(a, b), Second(b, c), Third(c, d)] + FromSextets(rest)
  {
    hide First, Second, Third;
    assert ([a, b, c, d] + rest)[4..] == rest;
  }

  lemma GroupRoundTrip(x: Byte, y: Byte, z: Byte)
    ensures First(x / 4, x % 4 * 16 + y / 16) == x
    ensures Second(x % 4 * 16 + y / 16, y % 16 * 4 + z / 64) == y
    ensures Third(y % 16 * 4 + z / 64, z % 64) == z
  {
  }

  function Letters(ds: seq<Sextet>): (s: string)
    ensures |s| == |ds|
  {
    seq(|ds|, i requires 0 <= i < |ds| => Letter(ds[i]))
  }

  /** The values of letters; other characters are never given to it. */
  function Values(s: string): (ds: seq<Sextet>)
    ensures |ds| == |s|
  {
    seq(|s|, i requires 0 <= i < |s| => if LetterValue(s[i]).Some? then LetterValue(s[i]).value else 0)
  }

  function Padding(n: nat): (s: string)
    ensures |s| == n && forall i :: 0 <= i < n ==> s[i] == '='
  {
    seq(n, i => '=')
  }

  /** btoa */
  function Encode64(bs: Bytes): string {
    var s := Letters(ToSextets(bs));
    s + Padding((4 - |s| % 4) % 4)
  }

  predicate IsSpace(c: char) {
    c == ' ' || c == '\t' || c == '\n' || c == '\r' || c as int == 12
  }

  function WithoutSpaces(s: string): string
    decreases |s|
  {
    if s == "" then ""
    else (if IsSpace(s[0]) then "" else [s[0]]) + WithoutSpaces(s[1..])
  }

  /** Up to two padding characters are dropped from a text of whole quartets. */
  function WithoutPadding(s: string): string {
    if |s| % 4 == 0 && |s| > 0 && s[|s| - 1] == '=' then
      if s[|s| - 2] == '=' then s[..|s| - 2] else s[..|s| - 1]
    else s
  }

  /** atob */
  function Decode64(s: string): Option<Bytes> {
    var t := WithoutPadding(WithoutSpaces(s));
    if |t| % 4 == 1 || exists i :: 0 <= i < |t| && !IsLetter(t[i]) then None
    else Some(FromSextets(Values(t)))
  }

  lemma {:induction false} NoSpaces(s: string)
    requires forall i :: 0 <= i < |s| ==> !IsSpace(s[i])
    ensures WithoutSpaces(s) == s
    decreases |s|
  {
    if s != "" {
      NoSpaces(s[1..]);
    }
  }

  lemma LettersReadBack(ds: seq<Sextet>)
    ensures Values(Letters(ds)) == ds
    ensures forall i :: 0 <= i < |ds| ==> IsLetter(Letters(ds)[i]) && !IsSpace(Letters(ds)[i]) && Letters(ds)[i] != '='
  {
  }

  lemma PaddingDropped(s: string, p: nat)
    requires p <= 2 && (|s| + p) % 4 == 0 && (p > 0 ==> s != "")
    requires forall i :: 0 <= i < |s| ==> s[i] != '='
    ensures WithoutPadding(s + Padding(p)) == s
  {
    var e := s + Padding(p);
    if p == 0 {
      assert e == s;
    } else {
      assert e[..|s|] == s;
    }
  }

  /** Decoding what was encoded gives back the bytes, for byte strings of any length. */
  lemma Base64RoundTrip(bs: Bytes)
    ensures Decode64(Encode64(bs)) == Some(bs)
  {
    var ds := ToSextets(bs);
    var s := Letters(ds);
    LettersReadBack(ds);
    SextetsRoundTrip(bs);
    hide Letters, Values, ToSextets, FromSextets, WithoutSpaces, WithoutPadding, IsSpace, IsLetter;
    var p := (4 - |s| % 4) % 4;
    QuartetPadding(|bs|, |s|, p);
    PaddingDropped(s, p);
    PaddingIsNoSpace(p);
    hide Padding;
    NoSpaces(s + Padding(p));
  }

  lemma QuartetPadding(bytes: nat, sextets: nat, p: nat)
    requires sextets == bytes / 3 * 4 + if bytes % 3 == 0 then 0 else bytes % 3 + 1
    requires p == (4 - sextets % 4) % 4
    ensures p <= 2 && (sextets + p) % 4 == 0 && sextets % 4 != 1
  {
    var q, r := bytes / 3, if bytes % 3 == 0 then 0 else bytes % 3 + 1;
    DivModUnique(sextets, q, r, 4);
    if r > 0 {
      DivModUnique(sextets + p, q + 1, 0, 4);
    }
  }

  lemma PaddingIsNoSpace(p: nat)
    ensures forall i :: 0 <= i < p ==> !IsSpace(Padding(p)[i])
  {
  }

  // ---------- The alphabet and the groups ----------

  /** A to Z, a to z, 0 to 9, + and /, in this order. */
  lemma LettersInOrder(d: Sextet)
    ensures Letter(0) == 'A' && Letter(26) == 'a' && Letter(52) == '0' && Letter(62) == '+' && Letter(63) == '/'
    ensures 0 < d < 62 && d != 26 && d != 52 ==> Letter(d) as int == Letter(d - 1) as int + 1
  {
  }

  /** The sextets of a group, read as one number, are its bytes, read as one number; a short group is filled up with
      zero bits. */
  lemma GroupValue(bs: Bytes)
    ensures |bs| == 3 ==>
      var ds := ToSextets(bs);
      && |ds| == 4
      && ds[0] as int * 262144 + ds[1] as int * 4096 + ds[2] as int * 64 + ds[3] as int
         == bs[0] as int * 65536 + bs[1] as int * 256 + bs[2] as int
    ensures |bs| == 2 ==>
      var ds := ToSextets(bs);
      |ds| == 3 && ds[0] as int * 4096 + ds[1] as int * 64 + ds[2] as int == (bs[0] as int * 256 + bs[1] as int) * 4
    ensures |bs| == 1 ==>
      var ds := ToSextets(bs);
      |ds| == 2 && ds[0] as int * 64 + ds[1] as int == bs[0] as int * 16
  {
    if |bs| == 3 {
      EncodeGroup(bs);
      assert bs[3..] == [];
    }
  }

  /** Three of the examples of section 10 of RFC 4648: "f", "fo" and "foo". */
  lemma StandardExamples()
    ensures Encode64([102]) == "Zg==" && Encode64([102, 111]) == "Zm8=" && Encode64([102, 111, 111]) == "Zm9v"
  {
    EncodeGroup([102, 111, 111]);
    assert [102, 111, 111][3..] == [];
    assert ToSextets([]) == [];
    assert ToSextets([102, 111, 111]) == [25, 38, 61, 47];
    assert ToSextets([102, 111]) == [25, 38, 60];
    assert ToSextets([102]) == [25, 32];
    assert Letters([25, 38, 61, 47]) == "Zm9v" && Letters([25, 38, 60]) == "Zm8" && Letters([25, 32]) == "Zg";
    hide ToSextets, Letters;
    assert Padding(0) == "" && Padding(1) == "=" && Padding(2) == "==";
  }
}
