/** Query-string text as the payment handlers produce it.

    - `URLSearchParams.prototype.toString` is the application/x-www-form-urlencoded
      serializer of the URL Standard (section 5.2): every name and value is
      UTF-8 encoded, bytes that are ASCII alphanumerics or one of `*-._` are
      kept, the space byte becomes `+`, and every other byte becomes `%XX`
      with upper-case hexadecimal digits; pairs are written `name=value` and
      joined with `&`.
    - The `qs` library's default encoder is the RFC 3986 variant: it keeps
      ASCII alphanumerics and `-._~` and writes every other byte, the space
      included, as `%XX`.

    The decoder here is the partner of the encoder: it reads back exactly
    what the encoder writes, which gives the round trip and injectivity. */
module FormEncoding {
  import opened Wrappers
  import opened Strings

  type Byte = b: int | 0 <= b < 256

  // ---------------------------------------------------------------------
  // UTF-8 (RFC 3629)
  // ---------------------------------------------------------------------

  /** The UTF-8 bytes of one Unicode scalar value. */
  function CharBytes(c: char): (r: seq<Byte>)
    ensures 1 <= |r| <= 4
    ensures (c as int < 0x80) <==> |r| == 1
    ensures |r| == 1 ==> r[0] == c as int
  {
    var cp := c as int;
    if cp < 0x80 then [cp]
    else if cp < 0x800 then [0xC0 + cp / 64, 0x80 + cp % 64]
    else if cp < 0x10000 then [0xE0 + cp / 4096, 0x80 + (cp / 64) % 64, 0x80 + cp % 64]
    else [0xF0 + cp / 262144, 0x80 + (cp / 4096) % 64, 0x80 + (cp / 64) % 64, 0x80 + cp % 64]
  }

  function Utf8(s: string): (r: seq<Byte>)
    ensures |r| >= |s|
  {
    if |s| == 0 then [] else CharBytes(s[0]) + Utf8(s[1..])
  }

  predicate Continuation(b: Byte) { 0x80 <= b < 0xC0 }

  /** A decoded code point, if it is a Unicode scalar value. */
  function Scalar(cp: int, width: nat): Option<(char, nat)>
  {
    if 0 <= cp < 0xD800 || 0xE000 <= cp < 0x110000 then Some((cp as char, width)) else None
  }

  /** Decodes the first character: the character and how many bytes it took. */
  function DecodeChar(bs: seq<Byte>): (r: Option<(char, nat)>)
    ensures r.Some? ==> 1 <= r.value.1 <= |bs|
  {
    if |bs| == 0 then None
    else
      var b0: int := bs[0];
      if b0 < 0x80 then Some((b0 as char, 1))
      else if b0 < 0xC0 then None
      else if b0 < 0xE0 then
        if |bs| < 2 || !Continuation(bs[1]) then None
        else Scalar((b0 - 0xC0) * 64 + (bs[1] as int - 0x80), 2)
      else if b0 < 0xF0 then
        if |bs| < 3 || !Continuation(bs[1]) || !Continuation(bs[2]) then None
        else Scalar((b0 - 0xE0) * 4096 + (bs[1] as int - 0x80) * 64 + (bs[2] as int - 0x80), 3)
      else if b0 < 0xF8 then
        if |bs| < 4 || !Continuation(bs[1]) || !Continuation(bs[2]) || !Continuation(bs[3]) then None
        else Scalar((b0 - 0xF0) * 262144 + (bs[1] as int - 0x80) * 4096
                    + (bs[2] as int - 0x80) * 64 + (bs[3] as int - 0x80), 4)
      else None
  }

  function Utf8Decode(bs: seq<Byte>): Option<string>
    decreases |bs|
  {
    if |bs| == 0 then Some("")
    else match DecodeChar(bs)
      case None => None
      case Some((c, n)) =>
        match Utf8Decode(bs[n..])
        case None => None
        case Some(rest) => Some([c] + rest)
  }

  lemma SplitTwo(cp: int)
    requires cp >= 0
    ensures (cp / 64) * 64 + cp % 64 == cp
  {
  }

  lemma SplitThree(cp: int)
    requires cp >= 0
    ensures (cp / 4096) * 4096 + ((cp / 64) % 64) * 64 + cp % 64 == cp
  {
    var q := cp / 64;
    assert cp == q * 64 + cp % 64;
    assert q == (q / 64) * 64 + q % 64;
    assert q / 64 == cp / 4096;
  }

  lemma SplitFour(cp: int)
    requires cp >= 0
    ensures (cp / 262144) * 262144 + ((cp / 4096) % 64) * 4096 + ((cp / 64) % 64) * 64 + cp % 64 == cp
  {
    var q := cp / 64;
    SplitThree(q);
    assert q / 4096 == cp / 262144;
    assert (q / 64) == cp / 4096;
    assert cp == q * 64 + cp % 64;
  }

  /** Decoding the encoding of a character gives the character back. */
  lemma DecodeCharBytes(c: char, rest: seq<Byte>)
    ensures DecodeChar(CharBytes(c) + rest) == Some((c, |CharBytes(c)|))
  {
    var cp := c as int;
    var bs := CharBytes(c) + rest;
    if cp < 0x80 {
    } else if cp < 0x800 {
      SplitTwo(cp);
      assert bs[0] == 0xC0 + cp / 64 && bs[1] == 0x80 + cp % 64;
    } else if cp < 0x10000 {
      SplitThree(cp);
      assert bs[0] == 0xE0 + cp / 4096 && bs[1] == 0x80 + (cp / 64) % 64 && bs[2] == 0x80 + cp % 64;
    } else {
      SplitFour(cp);
      assert bs[0] == 0xF0 + cp / 262144 && bs[1] == 0x80 + (cp / 4096) % 64;
      assert bs[2] == 0x80 + (cp / 64) % 64 && bs[3] == 0x80 + cp % 64;
    }
  }

  /** UTF-8 decoding inverts UTF-8 encoding. */
  lemma {:induction false} Utf8RoundTrip(s: string)
    ensures Utf8Decode(Utf8(s)) == Some(s)
    decreases |s|
  {
    if |s| > 0 {
      var bs := Utf8(s);
      DecodeCharBytes(s[0], Utf8(s[1..]));
      assert bs[|CharBytes(s[0])|..] == Utf8(s[1..]);
      Utf8RoundTrip(s[1..]);
      assert s == [s[0]] + s[1..];
    }
  }

  // ---------------------------------------------------------------------
  // Percent-encoding
  // ---------------------------------------------------------------------

  /** Which of the two encoders: the URL Standard's form encoding (space as
      `+`, `*` kept) or the RFC 3986 one of `qs` (`~` kept). */
  datatype Style = FormUrlEncoded | Rfc3986

  predicate AsciiAlphanumeric(b: int)
  {
    0x30 <= b <= 0x39 || 0x41 <= b <= 0x5A || 0x61 <= b <= 0x7A
  }

  /** The bytes written as themselves. */
  predicate Kept(style: Style, b: int)
  {
    AsciiAlphanumeric(b) || b == 0x2D || b == 0x2E || b == 0x5F
      || (style == FormUrlEncoded && b == 0x2A)
      || (style == Rfc3986 && b == 0x7E)
  }

  function HexDigit(d: int): (c: char)
    requires 0 <= d < 16
  {
    if d < 10 then ('0' as int + d) as char else ('A' as int + d - 10) as char
  }

  function HexValue(c: char): Option<int>
  {
    if '0' <= c <= '9' then Some(c as int - '0' as int)
    else if 'A' <= c <= 'F' then Some(c as int - 'A' as int + 10)
    else if 'a' <= c <= 'f' then Some(c as int - 'a' as int + 10)
    else None
  }

  /** What one byte is written as. */
  function EncodeByte(style: Style, b: Byte): (r: string)
    ensures 1 <= |r| <= 3
    ensures '&' !in r && '=' !in r
  {
    if style == FormUrlEncoded && b == 0x20 then "+"
    else if Kept(style, b) then [b as char]
    else ['%', HexDigit(b / 16), HexDigit(b % 16)]
  }

  function PercentEncode(style: Style, bs: seq<Byte>): (r: string)
    ensures '&' !in r && '=' !in r
  {
    if |bs| == 0 then "" else EncodeByte(style, bs[0]) + PercentEncode(style, bs[1..])
  }

  /** Reads back the text the percent-encoder writes. */
  function PercentDecode(style: Style, t: string): Option<seq<Byte>>
    decreases |t|
  {
    if |t| == 0 then Some([])
    else
      var first: Option<(Byte, nat)> :=
        if t[0] == '%' then
          (if |t| >= 3 && HexValue(t[1]).Some? && HexValue(t[2]).Some?
           then Some((HexValue(t[1]).value * 16 + HexValue(t[2]).value, 3)) else None)
        else if style == FormUrlEncoded && t[0] == '+' then Some((0x20, 1))
        else if t[0] as int < 0x80 && Kept(style, t[0] as int) then Some((t[0] as int, 1))
        else None;
      match first
      case None => None
      case Some((b, n)) =>
        match PercentDecode(style, t[n..])
        case None => None
        case Some(rest) => Some([b] + rest)
  }

  lemma DecodeEncodedByte(style: Style, b: Byte, rest: string)
    ensures PercentDecode(style, EncodeByte(style, b) + rest)
         == match PercentDecode(style, rest)
            case None => None
            case Some(bs) => Some([b] + bs)
  {
    var e := EncodeByte(style, b);
    var t := e + rest;
    assert t[|e|..] == rest;
    if !(style == FormUrlEncoded && b == 0x20) && !Kept(style, b) {
      assert HexValue(t[1]) == Some(b / 16);
      assert HexValue(t[2]) == Some(b % 16);
    }
  }

  lemma {:induction false} PercentRoundTrip(style: Style, bs: seq<Byte>)
    ensures PercentDecode(style, PercentEncode(style, bs)) == Some(bs)
    decreases |bs|
  {
    if |bs| > 0 {
      DecodeEncodedByte(style, bs[0], PercentEncode(style, bs[1..]));
      PercentRoundTrip(style, bs[1..]);
      assert bs == [bs[0]] + bs[1..];
    }
  }

  // ---------------------------------------------------------------------
  // Names and values
  // ---------------------------------------------------------------------

  /** The encoding of one name or value. */
  function Encode(style: Style, s: string): (r: string)
    ensures '&' !in r && '=' !in r
  {
    PercentEncode(style, Utf8(s))
  }

  function Decode(style: Style, t: string): Option<string>
  {
    match PercentDecode(style, t)
    case None => None
    case Some(bs) => Utf8Decode(bs)
  }

  /** Decoding inverts encoding, so distinct strings encode differently. */
  lemma EncodeRoundTrip(style: Style, s: string)
    ensures Decode(style, Encode(style, s)) == Some(s)
  {
    PercentRoundTrip(style, Utf8(s));
    Utf8RoundTrip(s);
  }

  /** ASCII text made only of kept characters is written unchanged. */
  predicate Plain(style: Style, s: string)
  {
    forall i :: 0 <= i < |s| ==> s[i] as int < 0x80 && Kept(style, s[i] as int)
  }

  lemma {:induction false} EncodePlain(style: Style, s: string)
    requires Plain(style, s)
    ensures Encode(style, s) == s
    decreases |s|
  {
    if |s| > 0 {
      EncodePlain(style, s[1..]);
      assert Utf8(s) == [s[0] as int] + Utf8(s[1..]);
      assert Utf8(s)[1..] == Utf8(s[1..]);
      assert s == [s[0]] + s[1..];
    }
  }

  // ---------------------------------------------------------------------
  // Lists of name-value pairs
  // ---------------------------------------------------------------------

  /** `name=value` with both parts encoded. */
  function PairText(style: Style, p: (string, string)): (r: string)
    ensures '&' !in r
  {
    Encode(style, p.0) + "=" + Encode(style, p.1)
  }

  function PairTexts(style: Style, pairs: seq<(string, string)>): (r: seq<string>)
    ensures |r| == |pairs|
    ensures forall i :: 0 <= i < |pairs| ==> r[i] == PairText(style, pairs[i])
  {
    if |pairs| == 0 then [] else [PairText(style, pairs[0])] + PairTexts(style, pairs[1..])
  }

  /** The serialized list: the pair texts joined with `&`. */
  function Serialize(style: Style, pairs: seq<(string, string)>): string
  {
    Join(PairTexts(style, pairs), '&')
  }

  function ParsePair(style: Style, t: string): Option<(string, string)>
  {
    var parts := Split(t, '=');
    if |parts| != 2 then None
    else match (Decode(style, parts[0]), Decode(style, parts[1]))
      case (Some(name), Some(value)) => Some((name, value))
      case _ => None
  }

  function ParsePairs(style: Style, texts: seq<string>): Option<seq<(string, string)>>
  {
    if |texts| == 0 then Some([])
    else match (ParsePair(style, texts[0]), ParsePairs(style, texts[1..]))
      case (Some(p), Some(rest)) => Some([p] + rest)
      case _ => None
  }

  /** Reads back a serialized list; the empty text is the empty list. */
  function Parse(style: Style, t: string): Option<seq<(string, string)>>
  {
    if |t| == 0 then Some([]) else ParsePairs(style, Split(t, '&'))
  }

  lemma ParsePairText(style: Style, p: (string, string))
    ensures ParsePair(style, PairText(style, p)) == Some(p)
  {
    var a := Encode(style, p.0);
    var b := Encode(style, p.1);
    assert Join([a, b], '=') == PairText(style, p);
    SplitJoin([a, b], '=');
    EncodeRoundTrip(style, p.0);
    EncodeRoundTrip(style, p.1);
  }

  lemma {:induction false} ParsePairTexts(style: Style, pairs: seq<(string, string)>)
    ensures ParsePairs(style, PairTexts(style, pairs)) == Some(pairs)
    decreases |pairs|
  {
    if |pairs| > 0 {
      ParsePairText(style, pairs[0]);
      ParsePairTexts(style, pairs[1..]);
      assert PairTexts(style, pairs)[1..] == PairTexts(style, pairs[1..]);
      assert pairs == [pairs[0]] + pairs[1..];
    }
  }

  /** A non-empty join is at least as long as its first part. */
  lemma JoinLength(parts: seq<string>, sep: char)
    requires |parts| >= 1
    ensures |Join(parts, sep)| >= |parts[0]|
  {
  }

  /** Parsing inverts serializing. */
  lemma ParseSerialize(style: Style, pairs: seq<(string, string)>)
    ensures Parse(style, Serialize(style, pairs)) == Some(pairs)
  {
    var texts := PairTexts(style, pairs);
    if |pairs| > 0 {
      JoinLength(texts, '&');
      assert |texts[0]| >= 1;
      SplitJoin(texts, '&');
      ParsePairTexts(style, pairs);
    }
  }

  /** Distinct lists serialize to distinct text. */
  lemma SerializeInjective(style: Style, a: seq<(string, string)>, b: seq<(string, string)>)
    requires Serialize(style, a) == Serialize(style, b)
    ensures a == b
  {
    ParseSerialize(style, a);
    ParseSerialize(style, b);
  }
}
