/**
 JSON strings: the characters a string may hold (section 7 of RFC 7159, sections 3 and 4
 of RFC 3629), `escape_string`, which writes them, and `get_string`, which reads them.
 */
module Strings {
  import opened Bytes
  import opened Results

  const QUOTE: byte := 0x22
  const SLASH: byte := 0x2F
  const BACKSLASH: byte := 0x5C
  const LOWER_B: byte := 0x62
  const LOWER_F: byte := 0x66
  const LOWER_N: byte := 0x6E
  const LOWER_R: byte := 0x72
  const LOWER_T: byte := 0x74
  const LOWER_U: byte := 0x75

  const TRUE_TEXT: Text := [0x74, 0x72, 0x75, 0x65]
  const FALSE_TEXT: Text := [0x66, 0x61, 0x6C, 0x73, 0x65]
  const NULL_TEXT: Text := [0x6E, 0x75, 0x6C, 0x6C]

  // ----- UTF-8

  predicate Continuation(c: byte) { 0x80 <= c <= 0xBF }

  /** The first two bytes of a three-byte character. */
  predicate LeadsThree(c: byte, d: byte) {
    if c == 0xE0 then 0xA0 <= d <= 0xBF
    else if c == 0xED then 0x80 <= d <= 0x9F
    else 0xE1 <= c <= 0xEF && Continuation(d)
  }

  /** The first two bytes of a four-byte character. */
  predicate LeadsFour(c: byte, d: byte) {
    if c == 0xF0 then 0x90 <= d <= 0xBF
    else if c == 0xF4 then 0x80 <= d <= 0x8F
    else 0xF1 <= c <= 0xF3 && Continuation(d)
  }

  /** The length of the character at the head of `s` by the table in section 4 of
      RFC 3629, or 0 if there is none. */
  function CharLength(s: Text): (n: nat)
    ensures n <= |s| && n <= 4
  {
    if s == [] then 0
    else if s[0] <= 0x7F then 1
    else if |s| >= 2 && 0xC2 <= s[0] <= 0xDF && Continuation(s[1]) then 2
    else if |s| >= 3 && LeadsThree(s[0], s[1]) && Continuation(s[2]) then 3
    else if |s| >= 4 && LeadsFour(s[0], s[1]) && Continuation(s[2]) && Continuation(s[3]) then 4
    else 0
  }

  predicate Utf8(s: Text) {
    s == [] || (CharLength(s) > 0 && Utf8(s[CharLength(s)..]))
  }

  /** Code points that are characters: everything but the surrogates. */
  predicate Scalar(cp: int) {
    0 <= cp < 0xD800 || 0xE000 <= cp <= 0x10FFFF
  }

  /** The bytes of a code point, as `to_unicode` assembles them. */
  function Encode(cp: nat): Text
    requires cp <= 0x10FFFF
  {
    if cp < 0x80 then [cp]
    else if cp <= 0x7FF then [0xC0 + cp / 64 % 32, 0x80 + cp % 64]
    else if cp <= 0xFFFF then [0xE0 + cp / 4096 % 16, 0x80 + cp / 64 % 64, 0x80 + cp % 64]
    else [0xF0 + cp / 262144 % 8, 0x80 + cp / 4096 % 64, 0x80 + cp / 64 % 64, 0x80 + cp % 64]
  }

  /** The code point written by a character of the table. */
  function Decode(s: Text): (cp: nat)
    requires CharLength(s) > 0
  {
    var a: int := s[0];
    if a <= 0x7F then a
    else
      var b: int := s[1];
      if a <= 0xDF then (a - 0xC0) * 64 + (b - 0x80)
      else
        var c: int := s[2];
        if a <= 0xEF then (a - 0xE0) * 4096 + (b - 0x80) * 64 + (c - 0x80)
        else
          var d: int := s[3];
          (a - 0xF0) * 262144 + (b - 0x80) * 4096 + (c - 0x80) * 64 + (d - 0x80)
  }

  lemma CharLengthPrefix(s: Text, rest: Text)
    requires CharLength(s) > 0
    ensures CharLength(s + rest) == CharLength(s)
  {
  }

  lemma TwoBytes(cp: nat)
    requires 0x80 <= cp <= 0x7FF
    ensures CharLength(Encode(cp)) == 2 && Decode(Encode(cp)) == cp
  {
  }

  lemma ThreeBytes(cp: nat)
    requires 0x800 <= cp <= 0xFFFF && Scalar(cp)
    ensures CharLength(Encode(cp)) == 3 && Decode(Encode(cp)) == cp
  {
    var a, b, c := cp / 4096, cp / 64 % 64, cp % 64;
    assert cp == a * 4096 + b * 64 + c;
    assert Encode(cp) == [0xE0 + a, 0x80 + b, 0x80 + c];
    assert LeadsThree(0xE0 + a, 0x80 + b);
  }

  lemma FourBytes(cp: nat)
    requires 0x1_0000 <= cp <= 0x10FFFF
    ensures CharLength(Encode(cp)) == 4 && Decode(Encode(cp)) == cp
  {
    var a, b, c, d := cp / 262144, cp / 4096 % 64, cp / 64 % 64, cp % 64;
    assert cp == a * 262144 + b * 4096 + c * 64 + d;
    assert Encode(cp) == [0xF0 + a, 0x80 + b, 0x80 + c, 0x80 + d];
    assert LeadsFour(0xF0 + a, 0x80 + b);
  }

  /** A code point is encoded as one character of the table, which decodes to it. */
  lemma EncodeIsChar(cp: nat)
    requires Scalar(cp)
    ensures CharLength(Encode(cp)) == |Encode(cp)| > 0 && Decode(Encode(cp)) == cp
  {
    if cp >= 0x1_0000 { FourBytes(cp); } else if cp >= 0x800 { ThreeBytes(cp); } else if cp >= 0x80 { TwoBytes(cp); }
  }

  lemma TwoBytesEncode(a: int, b: int)
    requires 0xC2 <= a <= 0xDF && 0x80 <= b <= 0xBF
    ensures var cp := (a - 0xC0) * 64 + (b - 0x80); 0x80 <= cp <= 0x7FF && cp / 64 % 32 == a - 0xC0 && cp % 64 == b - 0x80
  {
  }

  lemma ThreeBytesEncode(a: int, b: int, c: int)
    requires 0xE0 <= a <= 0xEF && 0x80 <= b <= 0xBF && 0x80 <= c <= 0xBF
    ensures var cp := (a - 0xE0) * 4096 + (b - 0x80) * 64 + (c - 0x80);
      cp / 4096 % 16 == a - 0xE0 && cp / 64 % 64 == b - 0x80 && cp % 64 == c - 0x80
  {
  }

  lemma LowDigit(q: int, r: int)
    requires 0 <= r < 64
    ensures (q * 64 + r) / 64 == q && (q * 64 + r) % 64 == r
  {
  }

  lemma FourBytesEncode(a: int, b: int, c: int, d: int)
    requires 0xF0 <= a <= 0xF4 && 0x80 <= b <= 0xBF && 0x80 <= c <= 0xBF && 0x80 <= d <= 0xBF
    ensures var cp := (a - 0xF0) * 262144 + (b - 0x80) * 4096 + (c - 0x80) * 64 + (d - 0x80);
      cp / 262144 % 8 == a - 0xF0 && cp / 4096 % 64 == b - 0x80 && cp / 64 % 64 == c - 0x80 && cp % 64 == d - 0x80
  {
    var x, y := (a - 0xF0) * 64 + (b - 0x80), ((a - 0xF0) * 64 + (b - 0x80)) * 64 + (c - 0x80);
    LowDigit(a - 0xF0, b - 0x80);
    LowDigit(x, c - 0x80);
    LowDigit(y, d - 0x80);
  }

  lemma CharTwo(s: Text)
    requires CharLength(s) == 2
    ensures Scalar(Decode(s)) && Encode(Decode(s)) == s[..2]
  {
    TwoBytesEncode(s[0], s[1]);
  }

  lemma CharThree(s: Text)
    requires CharLength(s) == 3
    ensures Scalar(Decode(s)) && Encode(Decode(s)) == s[..3]
  {
    ThreeBytesEncode(s[0], s[1], s[2]);
  }

  lemma CharFour(s: Text)
    requires CharLength(s) == 4
    ensures Scalar(Decode(s)) && Encode(Decode(s)) == s[..4]
  {
    FourBytesEncode(s[0], s[1], s[2], s[3]);
  }

  lemma CharOne(s: Text)
    requires CharLength(s) == 1
    ensures Scalar(Decode(s)) && Encode(Decode(s)) == s[..1]
  {
  }

  /** Every character of the table encodes a code point. */
  lemma CharIsEncode(s: Text)
    requires CharLength(s) > 0
    ensures Scalar(Decode(s)) && Encode(Decode(s)) == s[..CharLength(s)]
  {
    hide CharLength, Decode, Encode;
    var n := CharLength(s);
    if n == 1 { CharOne(s); } else if n == 2 { CharTwo(s); } else if n == 3 { CharThree(s); } else { CharFour(s); }
  }

  /** `to_unicode`: one code point, or a surrogate pair. */
  function ToUnicode(first: nat, second: nat): Result<Text> {
    if 0xD800 <= first <= 0xDBFF then
      if 0xDC00 <= second <= 0xDFFF then
        var cp: int := first * 1024 + second - 0x35FDC00;
        if cp <= 0x10FFFF then Ok(Encode(cp)) else Err(OutOfRange)
      else Err(InvalidArgument)
    else if first <= 0x10FFFF then Ok(Encode(first))
    else Err(OutOfRange)
  }

  // ----- the grammar of a string

  predicate HexDigit(c: byte) {
    IsDigit(c) || 0x41 <= c <= 0x46 || 0x61 <= c <= 0x66
  }

  predicate SimpleEscape(c: byte) {
    c in {QUOTE, SLASH, BACKSLASH, LOWER_B, LOWER_F, LOWER_N, LOWER_R, LOWER_T}
  }

  predicate FourHex(s: Text) {
    |s| >= 4 && HexDigit(s[0]) && HexDigit(s[1]) && HexDigit(s[2]) && HexDigit(s[3])
  }

  /** The length of the escape at the head of `s`, or 0 if there is none. */
  function EscapeLength(s: Text): (n: nat)
    ensures n <= |s|
  {
    if |s| >= 2 && s[0] == BACKSLASH && SimpleEscape(s[1]) then 2
    else if |s| >= 6 && s[0] == BACKSLASH && s[1] == LOWER_U && FourHex(s[2..]) then 6
    else 0
  }

  /** The length of the escape or the character at the head of `s`, or 0. */
  function ItemLength(s: Text): (n: nat)
    ensures n <= |s|
  {
    if s == [] || s[0] < 0x20 || s[0] == QUOTE then 0
    else if s[0] == BACKSLASH then EscapeLength(s)
    else CharLength(s)
  }

  /** What may stand between the quotes of a JSON text that is UTF-8. */
  predicate StringBody(s: Text) {
    s == [] || (ItemLength(s) > 0 && StringBody(s[ItemLength(s)..]))
  }

  /** Every backslash begins an escape; other bytes are arbitrary. */
  predicate WellEscaped(s: Text) {
    s == [] ||
    if s[0] == BACKSLASH then EscapeLength(s) > 0 && WellEscaped(s[EscapeLength(s)..])
    else WellEscaped(s[1..])
  }

  lemma {:induction false} WellEscapedDrop(s: Text, n: nat)
    requires n <= |s| && BACKSLASH !in s[..n]
    ensures WellEscaped(s) == WellEscaped(s[n..])
  {
    if n == 0 {
      assert s[0..] == s;
    } else {
      assert s[0] == s[..n][0];
      assert s[1..][..n - 1] == s[..n][1..];
      assert s[1..][n - 1..] == s[n..];
      WellEscapedDrop(s[1..], n - 1);
    }
  }

  lemma CharBytes(s: Text)
    requires CharLength(s) > 0 && s[0] != BACKSLASH
    ensures BACKSLASH !in s[..CharLength(s)]
  {
  }

  lemma {:induction false} BodyWellEscaped(s: Text)
    requires StringBody(s)
    ensures WellEscaped(s)
    decreases |s|
  {
    if s != [] {
      BodyWellEscaped(s[ItemLength(s)..]);
      if s[0] != BACKSLASH {
        CharBytes(s);
        WellEscapedDrop(s, CharLength(s));
      }
    }
  }

  // ----- escape_string

  function EscapeByte(c: byte): (t: Text)
    ensures |t| > 0
  {
    if c == QUOTE || c == BACKSLASH then [BACKSLASH, c]
    else if c == 0x08 then [BACKSLASH, LOWER_B]
    else if c == 0x0C then [BACKSLASH, LOWER_F]
    else if c == 0x0A then [BACKSLASH, LOWER_N]
    else if c == 0x0D then [BACKSLASH, LOWER_R]
    else if c == 0x09 then [BACKSLASH, LOWER_T]
    else if c <= 0x1F then [BACKSLASH, LOWER_U, 0x30, 0x30, HexDigitOf(c / 16), HexDigitOf(c % 16)]
    else [c]
  }

  function EscapeText(s: Text): Text {
    if s == [] then [] else EscapeByte(s[0]) + EscapeText(s[1..])
  }

  lemma EscapeTextStep(s: Text)
    requires s != []
    ensures EscapeText(s) == EscapeByte(s[0]) + EscapeText(s[1..])
  {
  }

  lemma {:induction false} EscapeTextLength(s: Text)
    ensures |EscapeText(s)| >= |s|
    ensures |EscapeText(s)| == |s| ==> EscapeText(s) == s
  {
    if s != [] { EscapeTextLength(s[1..]); }
  }

  /** `extra_space` */
  method ExtraSpace(s: Text) returns (space: nat)
    ensures space == |EscapeText(s)| - |s|
  {
    space := 0;
    var i := 0;
    assert s[0..] == s;
    while i < |s|
      invariant 0 <= i <= |s|
      invariant space + |EscapeText(s[i..])| == |EscapeText(s)| - i
    {
      var c := s[i];
      if c in {QUOTE, BACKSLASH, 0x08, 0x0C, 0x0A, 0x0D, 0x09} {
        space := space + 1;
      } else if c <= 0x1F {
        space := space + 5;
      }
      assert s[i..][1..] == s[i + 1..];
      i := i + 1;
    }
  }

  /** Writes a control character as \u and four digits, by pre-increment. */
  method WriteControl(result: array<byte>, pos: nat, c: byte) returns (next: nat)
    requires pos + 6 <= result.Length && c <= 0x1F && result[pos] == BACKSLASH
    modifies result
    ensures next == pos + 6
    ensures result[..next] == old(result[..pos]) + [BACKSLASH, LOWER_U, 0x30, 0x30, HexDigitOf(c / 16), HexDigitOf(c % 16)]
    ensures forall k :: next <= k < result.Length ==> result[k] == old(result[k])
  {
    var escape := [LOWER_U, 0x30, 0x30, HexDigitOf(c / 16), HexDigitOf(c % 16)];
    next := pos;
    for i := 0 to 5
      invariant next == pos + i
      invariant result[..next + 1] == old(result[..pos]) + [BACKSLASH] + escape[..i]
      invariant forall k :: next < k < result.Length ==> result[k] == old(result[k])
    {
      next := next + 1;
      result[next] := escape[i];
      assert escape[..i + 1] == escape[..i] + [escape[i]];
    }
    next := next + 1;
  }

  /** Writes one byte into the buffer of backslashes; the position after it. */
  method WriteEscape(result: array<byte>, pos: nat, c: byte) returns (next: nat)
    requires pos + |EscapeByte(c)| <= result.Length
    requires forall k :: pos <= k < result.Length ==> result[k] == BACKSLASH
    modifies result
    ensures next == pos + |EscapeByte(c)|
    ensures result[..next] == old(result[..pos]) + EscapeByte(c)
    ensures forall k :: next <= k < result.Length ==> result[k] == BACKSLASH
  {
    if c == QUOTE {
      result[pos + 1] := QUOTE;
      next := pos + 2;
    } else if c == BACKSLASH {
      next := pos + 2;
    } else if c == 0x08 {
      result[pos + 1] := LOWER_B;
      next := pos + 2;
    } else if c == 0x0C {
      result[pos + 1] := LOWER_F;
      next := pos + 2;
    } else if c == 0x0A {
      result[pos + 1] := LOWER_N;
      next := pos + 2;
    } else if c == 0x0D {
      result[pos + 1] := LOWER_R;
      next := pos + 2;
    } else if c == 0x09 {
      result[pos + 1] := LOWER_T;
      next := pos + 2;
    } else if c <= 0x1F {
      next := WriteControl(result, pos, c);
    } else {
      result[pos] := c;
      next := pos + 1;
    }
  }

  /** `escape_string`: fills a buffer of backslashes that has exactly the right size. */
  method EscapeString(s: Text) returns (r: Text)
    ensures r == EscapeText(s)
  {
    hide EscapeText, EscapeByte;
    var space := ExtraSpace(s);
    if space == 0 {
      EscapeTextLength(s);
      return s;
    }
    var n := |s| + space;
    var result := new byte[n](_ => BACKSLASH);
    var pos := 0;
    assert s[0..] == s;
    for i := 0 to |s|
      invariant 0 <= pos <= n
      invariant result[..pos] + EscapeText(s[i..]) == EscapeText(s)
      invariant forall k :: pos <= k < n ==> result[k] == BACKSLASH
    {
      RoomForByte(s, i, pos, result[..pos]);
      pos := WriteEscape(result, pos, s[i]);
    }
    EscapeTextEmpty(s[|s|..]);
    assert pos == n;
    return result[..];
  }

  lemma EscapeTextEmpty(s: Text)
    requires s == []
    ensures EscapeText(s) == []
  {
  }

  lemma RoomForByte(s: Text, i: nat, pos: nat, done: Text)
    requires i < |s| && |done| == pos
    requires done + EscapeText(s[i..]) == EscapeText(s)
    ensures pos + |EscapeByte(s[i])| <= |EscapeText(s)|
    ensures done + EscapeByte(s[i]) + EscapeText(s[i + 1..]) == EscapeText(s)
  {
    hide EscapeByte, EscapeText;
    EscapeTextStep(s[i..]);
    assert s[i..][1..] == s[i + 1..];
  }

  // ----- get_string

  function HexValue(c: byte): nat
    requires HexDigit(c)
  {
    if IsDigit(c) then c - 0x30 else if c <= 0x46 then c - 0x41 + 10 else c - 0x61 + 10
  }

  /** `strtoul` of four hexadecimal digits. */
  function FourHexValue(s: Text): (n: nat)
    requires FourHex(s)
    ensures n <= 0xFFFF
  {
    HexValue(s[0]) * 4096 + HexValue(s[1]) * 256 + HexValue(s[2]) * 16 + HexValue(s[3])
  }

  function SimpleValue(c: byte): byte
    requires SimpleEscape(c)
  {
    if c == LOWER_T then 0x09 else if c == LOWER_B then 0x08 else if c == LOWER_F then 0x0C
    else if c == LOWER_N then 0x0A else if c == LOWER_R then 0x0D else c
  }

  lemma EscapeShape(s: Text)
    requires WellEscaped(s) && s != [] && s[0] == BACKSLASH
    ensures |s| >= 2
    ensures s[1] == LOWER_U ==> FourHex(s[2..]) && |s| >= 6 && WellEscaped(s[6..])
    ensures s[1] != LOWER_U ==> SimpleEscape(s[1]) && WellEscaped(s[2..])
  {
  }

  lemma PairShape(s: Text)
    requires WellEscaped(s) && |s| >= 8 && s[0] == BACKSLASH && s[1] == LOWER_U && s[6] == BACKSLASH && s[7] == LOWER_U
    ensures FourHex(s[8..]) && |s| >= 12 && WellEscaped(s[12..])
  {
    EscapeShape(s);
    EscapeShape(s[6..]);
    assert s[6..][2..] == s[8..];
    assert s[6..][6..] == s[12..];
  }

  /** The meaning of the escape at the head of `s` and the number of bytes it takes. */
  function UnescapeOne(s: Text): (r: Result<(Text, nat)>)
    requires WellEscaped(s) && s != [] && s[0] == BACKSLASH
    ensures r.Ok? ==> 0 < r.value.1 <= |s| && WellEscaped(s[r.value.1..])
  {
    EscapeShape(s);
    if s[1] != LOWER_U then Ok(([SimpleValue(s[1])], 2))
    else
      var cp := FourHexValue(s[2..]);
      if 0xD800 <= cp <= 0xDBFF then
        if |s| < 8 || s[6] != BACKSLASH || s[7] != LOWER_U then Err(InvalidArgument)
        else
          PairShape(s);
          var text :- ToUnicode(cp, FourHexValue(s[8..]));
          Ok((text, 12))
      else if 0xDC00 <= cp <= 0xDFFF then Err(InvalidArgument)
      else
        var text :- ToUnicode(cp, 0);
        Ok((text, 6))
  }

  function Unescape(s: Text): Result<Text>
    requires WellEscaped(s)
    decreases |s|
  {
    if s == [] then Ok([])
    else if s[0] != BACKSLASH then Prepend([s[0]], Unescape(s[1..]))
    else
      var one :- UnescapeOne(s);
      Prepend(one.0, Unescape(s[one.1..]))
  }

  // ----- the two are inverse

  lemma EscapeByteShape(c: byte, rest: Text)
    requires WellEscaped(rest)
    ensures WellEscaped(EscapeByte(c) + rest)
    ensures Unescape(EscapeByte(c) + rest) == Prepend([c], Unescape(rest))
  {
    hide Unescape;
    var t := EscapeByte(c) + rest;
    if t[0] != BACKSLASH {
      assert t[1..] == rest;
      UnescapePlain(t);
    } else if t[1] != LOWER_U {
      assert t[2..] == rest;
      UnescapeEscape(t);
    } else {
      assert t[6..] == rest;
      HexOfControl(c);
      assert FourHexValue(t[2..]) == c;
      UnescapeEscape(t);
    }
  }

  lemma HexOfControl(c: byte)
    requires c <= 0x1F
    ensures HexValue(HexDigitOf(c / 16)) * 16 + HexValue(HexDigitOf(c % 16)) == c
  {
  }

  lemma UnescapePlain(s: Text)
    requires WellEscaped(s) && s != [] && s[0] != BACKSLASH
    ensures Unescape(s) == Prepend([s[0]], Unescape(s[1..]))
  {
  }

  lemma UnescapeEscape(s: Text)
    requires WellEscaped(s) && s != [] && s[0] == BACKSLASH
    ensures UnescapeOne(s).Ok? ==>
      Unescape(s) == Prepend(UnescapeOne(s).value.0, Unescape(s[UnescapeOne(s).value.1..]))
    ensures UnescapeOne(s).Err? ==> Unescape(s) == Err(UnescapeOne(s).error)
  {
    hide UnescapeOne;
  }

  /** `get_string` gives back what `escape_string` was given, for every byte string. */
  lemma {:induction false} UnescapeEscapeText(s: Text)
    ensures WellEscaped(EscapeText(s)) && Unescape(EscapeText(s)) == Ok(s)
  {
    hide Unescape, EscapeByte;
    if s == [] {
      assert Unescape([]) == Ok([]) by { UnescapeEmpty(); }
    } else {
      UnescapeEscapeText(s[1..]);
      EscapeByteShape(s[0], EscapeText(s[1..]));
      assert [s[0]] + s[1..] == s;
    }
  }

  lemma UnescapeEmpty()
    ensures Unescape([]) == Ok([])
  {
  }

  // ----- UTF-8 in, UTF-8 out

  lemma {:induction false} Utf8Concat(a: Text, b: Text)
    requires Utf8(a) && Utf8(b)
    ensures Utf8(a + b)
    decreases |a|
  {
    if a == [] {
      assert a + b == b;
    } else {
      hide CharLength;
      var n := CharLength(a);
      CharLengthPrefix(a, b);
      assert (a + b)[n..] == a[n..] + b;
      Utf8Concat(a[n..], b);
    }
  }

  lemma {:induction false} EncodeUtf8(cp: nat)
    requires Scalar(cp)
    ensures Utf8(Encode(cp))
  {
    EncodeIsChar(cp);
    assert Encode(cp)[|Encode(cp)|..] == [];
  }

  lemma {:induction false} UnescapeOneUtf8(s: Text)
    requires WellEscaped(s) && s != [] && s[0] == BACKSLASH
    ensures UnescapeOne(s).Ok? ==> Utf8(UnescapeOne(s).value.0)
    ensures UnescapeOne(s).Err? ==> UnescapeOne(s) == Err(InvalidArgument)
  {
    hide Utf8, Encode, WellEscaped;
    EscapeShape(s);
    if s[1] != LOWER_U {
      SimpleUtf8(s[1]);
    } else {
      var cp := FourHexValue(s[2..]);
      if 0xD800 <= cp <= 0xDBFF {
        if |s| >= 8 && s[6] == BACKSLASH && s[7] == LOWER_U {
          PairShape(s);
          var low := FourHexValue(s[8..]);
          if 0xDC00 <= low <= 0xDFFF {
            EncodeUtf8(cp * 1024 + low - 0x35FDC00);
          }
        }
      } else if !(0xDC00 <= cp <= 0xDFFF) {
        EncodeUtf8(cp);
      }
    }
  }

  lemma SimpleUtf8(c: byte)
    requires SimpleEscape(c)
    ensures Utf8([SimpleValue(c)])
  {
    EncodeUtf8(SimpleValue(c));
  }

  lemma {:induction false} UnescapeDrop(s: Text, n: nat)
    requires n <= |s| && BACKSLASH !in s[..n] && WellEscaped(s)
    ensures WellEscaped(s[n..]) && Unescape(s) == Prepend(s[..n], Unescape(s[n..]))
    decreases n
  {
    if n == 0 {
      assert s[0..] == s && s[..0] == [];
      PrependNothing(Unescape(s));
    } else {
      assert s[0] == s[..n][0];
      assert s[1..][..n - 1] == s[..n][1..];
      assert s[1..][n - 1..] == s[n..];
      UnescapeDrop(s[1..], n - 1);
      UnescapePlain(s);
      PrependPrepend([s[0]], s[1..][..n - 1], Unescape(s[n..]));
      assert [s[0]] + s[1..][..n - 1] == s[..n];
    }
  }

  lemma BodyAfterEscape(s: Text)
    requires StringBody(s) && WellEscaped(s) && s != [] && s[0] == BACKSLASH && UnescapeOne(s).Ok?
    ensures StringBody(s[UnescapeOne(s).value.1..])
  {
    hide WellEscaped, ToUnicode;
    EscapeShape(s);
    if s[1] == LOWER_U && UnescapeOne(s).value.1 == 12 {
      PairShape(s);
      assert EscapeLength(s) == 6 && StringBody(s[6..]);
      assert s[6..][2..] == s[8..];
      assert EscapeLength(s[6..]) == 6;
      assert s[6..][6..] == s[12..];
    }
  }

  lemma PrependUtf8(t: Text, r: Result<Text>)
    requires Utf8(t)
    requires r.Ok? ==> Utf8(r.value)
    ensures Prepend(t, r).Ok? ==> Utf8(Prepend(t, r).value)
  {
    if r.Ok? { Utf8Concat(t, r.value); }
  }

  lemma OneCharUtf8(s: Text)
    requires CharLength(s) > 0
    ensures Utf8(s[..CharLength(s)])
  {
    var c := s[..CharLength(s)];
    assert CharLength(c) == CharLength(s);
    assert c[CharLength(c)..] == [];
  }

  /** A string of a JSON text is read as UTF-8, or it is rejected because a surrogate
      escape is not half of a pair. */
  lemma {:induction false} UnescapeBody(s: Text)
    requires StringBody(s)
    ensures WellEscaped(s)
    ensures Unescape(s).Ok? ==> Utf8(Unescape(s).value)
    ensures Unescape(s).Err? ==> Unescape(s) == Err(InvalidArgument)
    decreases |s|
  {
    hide Unescape, Utf8, CharLength, UnescapeOne, WellEscaped;
    BodyWellEscaped(s);
    if s == [] {
      UnescapeEmpty();
      SimpleUtf8Empty();
    } else if s[0] != BACKSLASH {
      var n := CharLength(s);
      CharBytes(s);
      UnescapeDrop(s, n);
      UnescapeBody(s[n..]);
      OneCharUtf8(s);
      PrependUtf8(s[..n], Unescape(s[n..]));
    } else {
      UnescapeOneUtf8(s);
      UnescapeEscape(s);
      if UnescapeOne(s).Ok? {
        var one := UnescapeOne(s).value;
        BodyAfterEscape(s);
        UnescapeBody(s[one.1..]);
        PrependUtf8(one.0, Unescape(s[one.1..]));
      }
    }
  }

  // ----- which strings are read

  /** A \u escape of a code unit from `from` to `to` stands at the head of `s`. */
  predicate UnitEscape(s: Text, from: nat, to: nat) {
    |s| >= 6 && s[0] == BACKSLASH && s[1] == LOWER_U && FourHex(s[2..]) && from <= FourHexValue(s[2..]) <= to
  }

  predicate HighSurrogate(s: Text) { UnitEscape(s, 0xD800, 0xDBFF) }

  predicate LowSurrogate(s: Text) { UnitEscape(s, 0xDC00, 0xDFFF) }

  /** Item by item: every escaped high surrogate is followed at once by an escaped low one,
      and no other low one occurs. `pending` says that a high one has just been read. */
  predicate Paired(s: Text, pending: bool)
    requires StringBody(s)
    decreases |s|
  {
    if s == [] then !pending
    else if LowSurrogate(s) then pending && Paired(s[ItemLength(s)..], false)
    else !pending && Paired(s[ItemLength(s)..], HighSurrogate(s))
  }

  lemma PairedStep(s: Text, pending: bool)
    requires StringBody(s) && s != []
    ensures StringBody(s[ItemLength(s)..])
    ensures LowSurrogate(s) ==> Paired(s, pending) == (pending && Paired(s[ItemLength(s)..], false))
    ensures !LowSurrogate(s) ==> Paired(s, pending) == (!pending && Paired(s[ItemLength(s)..], HighSurrogate(s)))
  {
  }

  lemma EscapeItem(s: Text)
    requires StringBody(s) && WellEscaped(s) && s != [] && s[0] == BACKSLASH
    ensures |s| >= 2 && ItemLength(s) == if s[1] == LOWER_U then 6 else 2
    ensures s[1] == LOWER_U ==> |s| >= 6 && FourHex(s[2..])
  {
  }

  /** After an escaped high surrogate only an escaped low one is read. */
  lemma HighThenLow(s: Text)
    requires StringBody(s) && WellEscaped(s) && HighSurrogate(s)
    ensures StringBody(s[6..])
    ensures UnescapeOne(s).Ok? <==> LowSurrogate(s[6..])
    ensures UnescapeOne(s).Ok? ==> UnescapeOne(s).value.1 == 12 && s[6..][6..] == s[12..] && ItemLength(s[6..]) == 6
  {
    EscapeItem(s);
    PairedStep(s, false);
    var rest := s[6..];
    if |s| >= 8 && s[6] == BACKSLASH && s[7] == LOWER_U {
      PairShape(s);
      assert rest[2..] == s[8..] && rest[6..] == s[12..];
    }
    hide WellEscaped, StringBody, Encode;
  }

  /** `get_string` reads exactly the strings whose surrogate escapes are paired. */
  lemma {:induction false} UnescapeIffPaired(s: Text)
    requires StringBody(s)
    ensures WellEscaped(s) && (Unescape(s).Ok? <==> Paired(s, false))
    decreases |s|
  {
    hide Unescape, Paired, CharLength, UnescapeOne, WellEscaped, StringBody;
    BodyWellEscaped(s);
    if s == [] {
      UnescapeEmpty();
      PairedEmpty();
    } else if s[0] != BACKSLASH {
      var n := CharLength(s);
      PairedStep(s, false);
      PlainItem(s);
      UnescapeDrop(s, n);
      UnescapeIffPaired(s[n..]);
    } else {
      EscapeItem(s);
      PairedStep(s, false);
      UnescapeEscape(s);
      if HighSurrogate(s) {
        HighThenLow(s);
        if s[6..] == [] {
          PairedEmpty();
        } else {
          PairedStep(s[6..], true);
        }
        if UnescapeOne(s).Ok? { UnescapeIffPaired(s[12..]); }
      } else {
        SingleEscape(s);
        if !LowSurrogate(s) { UnescapeIffPaired(s[ItemLength(s)..]); }
      }
    }
  }

  lemma PairedEmpty()
    ensures StringBody([]) && Paired([], false) && !Paired([], true)
  {
  }

  lemma PlainItem(s: Text)
    requires StringBody(s) && s != [] && s[0] != BACKSLASH
    ensures ItemLength(s) == CharLength(s) && BACKSLASH !in s[..CharLength(s)]
  {
    CharBytes(s);
  }

  lemma SingleEscape(s: Text)
    requires StringBody(s) && WellEscaped(s) && s != [] && s[0] == BACKSLASH && !HighSurrogate(s)
    ensures UnescapeOne(s).Ok? <==> !LowSurrogate(s)
    ensures UnescapeOne(s).Ok? ==> UnescapeOne(s).value.1 == ItemLength(s)
  {
    EscapeItem(s);
    hide WellEscaped, StringBody, Encode, ItemLength;
  }

  lemma SimpleUtf8Empty()
    ensures Utf8([])
  {
  }

  // bytes from 0x80 on are not escaped

  predicate High(s: Text) {
    forall i :: 0 <= i < |s| ==> s[i] >= 0x80
  }

  lemma HighByte(c: byte)
    requires c >= 0x80
    ensures EscapeByte(c) == [c]
  {
  }

  lemma {:induction false} EscapeHigh(s: Text, n: nat)
    requires n <= |s| && High(s[..n])
    ensures EscapeText(s) == s[..n] + EscapeText(s[n..])
    decreases n
  {
    hide EscapeByte, EscapeText;
    if n == 0 {
      assert s[0..] == s;
    } else {
      var rest := s[1..];
      assert s[0] == s[..n][0];
      assert rest[..n - 1] == s[..n][1..];
      HighByte(s[0]);
      EscapeTextStep(s);
      EscapeHigh(rest, n - 1);
      assert rest[n - 1..] == s[n..];
      assert [s[0]] + rest[..n - 1] == s[..n];
    }
  }

  lemma {:induction false} HighEscape(s: Text, n: nat)
    requires n <= |EscapeText(s)| && High(EscapeText(s)[..n])
    ensures n <= |s| && s[..n] == EscapeText(s)[..n]
    decreases n
  {
    if n > 0 {
      var t := EscapeText(s);
      assert t[0] == t[..n][0] == EscapeByte(s[0])[0];
      assert EscapeByte(s[0]) == [s[0]];
      assert t[1..] == EscapeText(s[1..]);
      assert EscapeText(s[1..])[..n - 1] == t[..n][1..];
      HighEscape(s[1..], n - 1);
      assert s[..n] == [s[0]] + s[1..][..n - 1];
      assert t[..n] == [t[0]] + t[1..][..n - 1];
    }
  }

  lemma CharHigh(s: Text)
    requires CharLength(s) > 0 && s[0] >= 0x80
    ensures High(s[..CharLength(s)])
  {
  }

  lemma SameChar(s: Text, t: Text)
    requires CharLength(s) > 0 && CharLength(s) <= |t| && t[..CharLength(s)] == s[..CharLength(s)]
    ensures CharLength(t) == CharLength(s)
  {
    var n := CharLength(s);
    forall i | 0 <= i < n ensures s[i] == t[i] {
      assert s[i] == s[..n][i] == t[..n][i];
    }
  }

  lemma LowItem(c: byte, rest: Text)
    requires c < 0x80
    ensures ItemLength(EscapeByte(c) + rest) == |EscapeByte(c)|
  {
    var t := EscapeByte(c) + rest;
    if |EscapeByte(c)| == 6 {
      assert FourHex(t[2..]);
    }
  }

  /** Escaping a character keeps it an item of the grammar, and nothing else becomes one. */
  lemma {:induction false} HighItem(s: Text)
    requires s != [] && s[0] >= 0x80
    ensures CharLength(EscapeText(s)) == CharLength(s)
    ensures EscapeText(s)[CharLength(s)..] == EscapeText(s[CharLength(s)..])
    ensures EscapeText(s) != [] && EscapeText(s)[0] == s[0]
  {
    hide CharLength;
    var t := EscapeText(s);
    assert t[0] == s[0];
    if CharLength(t) > 0 {
      CharHigh(t);
      HighEscape(s, CharLength(t));
      SameChar(t, s);
    }
    var n := CharLength(s);
    if n > 0 {
      CharHigh(s);
      EscapeHigh(s, n);
      assert t[..n] == s[..n];
      SameChar(s, t);
    } else {
      assert s[0..] == s && t[0..] == t;
    }
  }

  /** Escaped text is a string body exactly if the text is UTF-8. */
  lemma {:induction false} EscapeTextBody(s: Text)
    ensures StringBody(EscapeText(s)) <==> Utf8(s)
    decreases |s|
  {
    if s != [] && s[0] < 0x80 {
      hide EscapeByte;
      var t, rest := EscapeText(s), EscapeText(s[1..]);
      LowItem(s[0], rest);
      assert t[|EscapeByte(s[0])|..] == rest;
      EscapeTextBody(s[1..]);
    } else if s != [] {
      hide EscapeText;
      HighItem(s);
      if CharLength(s) > 0 {
        EscapeTextBody(s[CharLength(s)..]);
      }
    }
  }
}
