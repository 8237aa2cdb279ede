/**
 Parsing a printed value gives it back, compact or indented, as long as it holds no
 floating-point number; it fails exactly if some string or key is not UTF-8.
 */
module TextRoundTrip {
  import opened Bytes
  import opened Json
  import opened Parser
  import opened Printer
  import opened Results
  import opened Scanner
  import opened Strings

  predicate FloatFree(j: Json) {
    match j
    case Float(_) => false
    case Array(es) => forall i :: 0 <= i < |es| ==> FloatFree(es[i])
    case Object(m) => forall k :: k in m ==> FloatFree(m[k])
    case _ => true
  }

  /** Every string and every key is UTF-8. */
  predicate Utf8Strings(j: Json) {
    match j
    case String(s) => Utf8(s)
    case Array(es) => forall i :: 0 <= i < |es| ==> Utf8Strings(es[i])
    case Object(m) => forall k :: k in m ==> Utf8(k) && Utf8Strings(m[k])
    case _ => true
  }

  // ----- blanks and punctuation

  predicate AllBlank(s: Text) {
    forall i :: 0 <= i < |s| ==> Blank(s[i])
  }

  lemma SkipText(content: Text, pos: nat, s: Text)
    requires At(content, pos, s) && AllBlank(s)
    ensures pos + |s| <= |content| && ScanFrom(content, pos) == ScanFrom(content, pos + |s|)
  {
    hide ScanFrom;
    forall i | pos <= i < pos + |s| ensures Blank(content[i]) {
      AtByte(content, pos, s, i - pos);
    }
    ScanSkips(content, pos, |s|);
  }

  lemma BlankEnds(content: Text, pos: nat, s: Text)
    requires At(content, pos, s) && s != [] && (Blank(s[0]) || s[0] in {COMMA, CLOSE_BRACKET, CLOSE_BRACE})
    ensures NumberEnds(content, pos)
  {
    AtByte(content, pos, s, 0);
  }

  lemma ScanClosing(content: Text, pos: nat, style: Style, indent: uint32, close: byte)
    requires close in {CLOSE_BRACKET, CLOSE_BRACE} && At(content, pos, Closing(style, indent, close))
    ensures NumberEnds(content, pos)
    ensures var end := pos + |Closing(style, indent, close)|;
      pos < end <= |content| && ScanFrom(content, pos) == Scanned(First(close).token, end - 1, end)
  {
    hide ScanFrom;
    var blanks := LineBreak(style) + Spaces(indent);
    BlankEnds(content, pos, Closing(style, indent, close));
    AtSplit(content, pos, blanks, [close]);
    SkipText(content, pos, blanks);
    AtByte(content, pos + |blanks|, [close], 0);
    ScanPunctuation(content, pos + |blanks|);
  }

  lemma ScanSeparator(content: Text, pos: nat, style: Style, i: nat, indent: uint32)
    requires i > 0 && At(content, pos, Separator(style, i, indent))
    ensures NumberEnds(content, pos)
    ensures pos < |content| && ScanFrom(content, pos) == Scanned(ValueSeparator, pos, pos + 1)
    ensures var start := pos + |Separator(style, i, indent)|;
      start <= |content| && ScanFrom(content, pos + 1) == ScanFrom(content, start)
  {
    hide ScanFrom;
    var blanks := LineBreak(style) + Spaces(indent);
    BlankEnds(content, pos, Separator(style, i, indent));
    assert Separator(style, i, indent) == [COMMA] + blanks;
    AtSplit(content, pos, [COMMA], blanks);
    AtByte(content, pos, [COMMA], 0);
    ScanPunctuation(content, pos);
    SkipText(content, pos + 1, blanks);
  }

  /** The opening of a container and the blanks before its first element. */
  function Opening(style: Style, open: byte, indent: uint32): Text {
    [open] + LineBreak(style) + Separator(style, 0, indent)
  }

  lemma ScanOpening(content: Text, pos: nat, style: Style, open: byte, indent: uint32)
    requires open in {OPEN_BRACKET, OPEN_BRACE} && At(content, pos, Opening(style, open, indent))
    ensures pos < |content| && ScanFrom(content, pos) == Scanned(First(open).token, pos, pos + 1)
    ensures var start := pos + |Opening(style, open, indent)|;
      start <= |content| && ScanFrom(content, pos + 1) == ScanFrom(content, start)
  {
    hide ScanFrom;
    var blanks := LineBreak(style) + Separator(style, 0, indent);
    assert Opening(style, open, indent) == [open] + blanks;
    AtSplit(content, pos, [open], blanks);
    AtByte(content, pos, [open], 0);
    ScanPunctuation(content, pos);
    SkipText(content, pos + 1, blanks);
  }

  // ----- strings

  function Quoted(s: Text): Text {
    [QUOTE] + EscapeText(s) + [QUOTE]
  }

  lemma QuotedCloses(content: Text, pos: nat, s: Text)
    requires At(content, pos, Quoted(s)) && Utf8(s)
    ensures pos < |content| && content[pos] == QUOTE && ClosesAt(content, pos + 1, pos + |Quoted(s)|)
    ensures content[pos + 1..pos + |Quoted(s)| - 1] == EscapeText(s)
  {
    hide EscapeText, StringBody, Utf8;
    var e := EscapeText(s);
    AtByte(content, pos, Quoted(s), 0);
    AtByte(content, pos, Quoted(s), |e| + 1);
    assert Quoted(s) == [QUOTE] + (e + [QUOTE]);
    AtSplit(content, pos, [QUOTE], e + [QUOTE]);
    AtSplit(content, pos + 1, e, [QUOTE]);
    assert |Quoted(s)| == |e| + 2;
    EscapeTextBody(s);
  }

  /** The number of bytes before the first quote that is not escaped. */
  function FirstQuote(t: Text): nat {
    if t == [] || t[0] == QUOTE then 0
    else if t[0] != BACKSLASH then 1 + FirstQuote(t[1..])
    else if |t| < 2 then 1
    else 2 + FirstQuote(t[2..])
  }

  predicate Ordinary(s: Text) {
    QUOTE !in s && BACKSLASH !in s
  }

  lemma {:induction false} SkipOrdinary(t: Text, n: nat)
    requires n <= |t| && Ordinary(t[..n])
    ensures FirstQuote(t) == n + FirstQuote(t[n..])
    decreases n
  {
    if n == 0 {
      assert t[0..] == t;
    } else {
      assert t[0] == t[..n][0];
      assert t[1..][..n - 1] == t[..n][1..];
      assert t[1..][n - 1..] == t[n..];
      SkipOrdinary(t[1..], n - 1);
    }
  }

  lemma SkipHexEscape(t: Text)
    requires |t| >= 6 && t[0] == BACKSLASH && t[1] == LOWER_U && FourHex(t[2..])
    ensures FirstQuote(t) == 6 + FirstQuote(t[6..])
  {
    assert t[2..][4..] == t[6..];
    SkipOrdinary(t[2..], 4);
  }

  lemma SkipSimpleEscape(t: Text)
    requires |t| >= 2 && t[0] == BACKSLASH
    ensures FirstQuote(t) == 2 + FirstQuote(t[2..])
  {
  }

  lemma SkipEscapeByte(c: byte, rest: Text)
    ensures FirstQuote(EscapeByte(c) + rest) == |EscapeByte(c)| + FirstQuote(rest)
  {
    var t := EscapeByte(c) + rest;
    assert t[|EscapeByte(c)|..] == rest;
    if t[0] != BACKSLASH {
      SkipOrdinary(t, 1);
    } else if t[1] != LOWER_U {
      SkipSimpleEscape(t);
    } else {
      SkipHexEscape(t);
    }
  }

  lemma {:induction false} EscapedQuote(s: Text, rest: Text)
    ensures FirstQuote(EscapeText(s) + [QUOTE] + rest) == |EscapeText(s)|
  {
    hide EscapeByte;
    if s != [] {
      EscapedQuote(s[1..], rest);
      var tail := EscapeText(s[1..]) + [QUOTE] + rest;
      SkipEscapeByte(s[0], tail);
      assert EscapeText(s) + [QUOTE] + rest == EscapeByte(s[0]) + tail;
    }
  }

  lemma SkipItem(s: Text)
    requires ItemLength(s) > 0
    ensures FirstQuote(s) == ItemLength(s) + FirstQuote(s[ItemLength(s)..])
  {
    hide FirstQuote;
    if s[0] != BACKSLASH {
      CharOrdinary(s);
      SkipOrdinary(s, CharLength(s));
    } else if s[1] != LOWER_U {
      SkipSimpleEscape(s);
    } else {
      SkipHexEscape(s);
    }
  }

  lemma CharOrdinary(s: Text)
    requires CharLength(s) > 0 && s[0] != BACKSLASH && s[0] != QUOTE
    ensures Ordinary(s[..CharLength(s)])
  {
  }

  lemma {:induction false} BodyQuote(b: Text, rest: Text)
    requires StringBody(b)
    ensures FirstQuote(b + [QUOTE] + rest) == |b|
    decreases |b|
  {
    hide ItemLength;
    if b != [] {
      var n := ItemLength(b);
      var t := b + [QUOTE] + rest;
      BodyQuote(b[n..], rest);
      ItemLengthPrefix(b, t);
      SkipItem(t);
      assert t[n..] == b[n..] + [QUOTE] + rest;
    }
  }

  /** A string token at a printed string is that string: both end at the first quote that
      is not escaped. */
  lemma TokenIsQuoted(content: Text, pos: nat, s: Text, end: nat)
    requires At(content, pos, Quoted(s)) && ClosesAt(content, pos + 1, end)
    ensures Utf8(s)
  {
    hide EscapeText, StringBody, Utf8, FirstQuote;
    var e := EscapeText(s);
    var body := content[pos + 1..end - 1];
    var tail := content[pos + 1..];
    assert Quoted(s) == [QUOTE] + (e + [QUOTE]);
    AtSplit(content, pos, [QUOTE], e + [QUOTE]);
    assert tail == e + [QUOTE] + tail[|e| + 1..];
    assert tail == body + [QUOTE] + tail[|body| + 1..];
    EscapedQuote(s, tail[|e| + 1..]);
    BodyQuote(body, tail[|body| + 1..]);
    assert e == tail[..|e|] == body;
    EscapeTextBody(s);
  }

  /** A printed string is scanned whole if it is UTF-8, and else is an error at its quote. */
  lemma ScanQuoted(content: Text, pos: nat, s: Text)
    requires At(content, pos, Quoted(s))
    ensures pos + |Quoted(s)| <= |content|
    ensures !Utf8(s) ==> ScanFrom(content, pos).token == ParseError
    ensures Utf8(s) ==> ScanFrom(content, pos) == Scanned(ValueString, pos, pos + |Quoted(s)|)
  {
    hide ScanFrom, ClosesAt;
    AtByte(content, pos, Quoted(s), 0);
    ScanString(content, pos);
    if Utf8(s) {
      QuotedCloses(content, pos, s);
      var end: nat := pos + |Quoted(s)|;
      assert ClosesAt(content, pos + 1, end);
    } else {
      var t := ScanFrom(content, pos);
      if t.token == ValueString { TokenIsQuoted(content, pos, s, t.end); }
    }
  }

  lemma ReadQuoted(content: Text, pos: nat, s: Text)
    requires At(content, pos, Quoted(s)) && Utf8(s)
    ensures var t := Scanned(ValueString, pos, pos + |Quoted(s)|); StringToken(content, t) && StringOf(content, t) == Ok(s)
  {
    hide ClosesAt, EscapeText, Unescape, WellEscaped;
    QuotedCloses(content, pos, s);
    UnescapeEscapeText(s);
  }

  // ----- scalars

  lemma ScanIs(content: Text, pos: nat)
    requires pos <= |content|
    ensures Scan(content, pos) == ScanFrom(content, pos)
  {
  }

  /** The outcome of parsing a value that ends at `end`: it and the token there, or an error. */
  ghost predicate Parsed(content: Text, pos: nat, j: Json, end: nat, read: Text -> Json)
    requires pos <= |content| && end <= |content|
  {
    var t := Scan(content, pos);
    t.token != EndArray && t.token != ValueSeparator &&
    ParseValue(content, t, read) == if Utf8Strings(j) then Ok((Canonical(j), Scan(content, end))) else Err(InvalidArgument)
  }

  lemma ParseWord(content: Text, pos: nat, end: nat, t: Token, read: Text -> Json)
    requires pos < end <= |content| && ScanFrom(content, pos) == Scanned(t, pos, end)
    ensures t == LiteralNull ==> Parsed(content, pos, Null, end, read)
    ensures t == LiteralTrue ==> Parsed(content, pos, Boolean(true), end, read)
    ensures t == LiteralFalse ==> Parsed(content, pos, Boolean(false), end, read)
  {
    hide ScanFrom, ParseElems, ParseMembers, NumberOf, StringOf;
  }

  /** `j` is the number `x`. */
  predicate Number(j: Json, x: int) {
    (j.Integer? && j.i == x) || (j.Unsigned? && j.u == x)
  }

  lemma ParseNumber(content: Text, pos: nat, end: nat, t: Token, j: Json, x: int, read: Text -> Json)
    requires t in {ValueUnsigned, ValueInteger} && Number(j, x)
    requires pos < end <= |content| && ScanFrom(content, pos) == Scanned(t, pos, end)
    requires NumberOf(content[pos..end], t, read) == Canonical(j)
    ensures Parsed(content, pos, j, end, read)
  {
    hide ScanFrom, ParseElems, ParseMembers, NumberOf, StringOf;
  }

  lemma NumeralValue(x: int, read: Text -> Json)
    requires -TWO_TO_THE_63 <= x < TWO_TO_THE_64
    ensures x >= 0 ==> NumberOf(Numeral(x), ValueUnsigned, read) == Unsigned(x)
    ensures x < 0 ==> NumberOf(Numeral(x), ValueInteger, read) == Integer(x)
  {
    hide Decimal, DigitsValue;
    if x >= 0 {
      DecimalValue(x);
    } else {
      DecimalValue(-x);
      assert Numeral(x)[1..] == Decimal(-x);
    }
  }

  lemma ParseNumeral(content: Text, pos: nat, j: Json, x: int, read: Text -> Json)
    requires Number(j, x) && At(content, pos, Numeral(x)) && NumberEnds(content, pos + |Numeral(x)|)
    ensures pos + |Numeral(x)| <= |content| && Parsed(content, pos, j, pos + |Numeral(x)|, read)
  {
    hide ScanFrom, Parsed, Decimal, NumberOf, NumberEnds;
    var end := pos + |Numeral(x)|;
    assert content[pos..end] == Numeral(x);
    NumeralValue(x, read);
    if x >= 0 {
      ScanUnsigned(content, pos, x);
      ParseNumber(content, pos, end, ValueUnsigned, j, x, read);
    } else {
      ScanNegative(content, pos, -x);
      ParseNumber(content, pos, end, ValueInteger, j, x, read);
    }
  }

  lemma ParseQuoted(content: Text, pos: nat, s: Text, read: Text -> Json)
    requires At(content, pos, Quoted(s))
    ensures pos + |Quoted(s)| <= |content| && Parsed(content, pos, String(s), pos + |Quoted(s)|, read)
  {
    hide ScanFrom, StringOf, Quoted, Utf8, StringToken, ParseElems, ParseMembers;
    ScanQuoted(content, pos, s);
    ScanIs(content, pos);
    if Utf8(s) { ReadQuoted(content, pos, s); }
  }

  lemma KeyTextSplits(style: Style, key: Text)
    ensures KeyText(style, key) == Quoted(key) + ([COLON] + (if style.pretty then [SPACE] else []))
  {
  }

  ghost predicate KeyParsed(content: Text, pos: nat, key: Text, end: nat)
    requires pos <= |content| && end <= |content|
  {
    var t := Scan(content, pos);
    t.token != EndObject && t.token != ValueSeparator &&
    ParseKey(content, t) == if Utf8(key) then Ok((key, Scan(content, end))) else Err(InvalidArgument)
  }

  /** A printed key is read up to the first token of its value. */
  lemma ParseKeyText(content: Text, pos: nat, style: Style, key: Text)
    requires At(content, pos, KeyText(style, key))
    ensures pos + |KeyText(style, key)| <= |content| && KeyParsed(content, pos, key, pos + |KeyText(style, key)|)
  {
    hide ScanFrom, StringOf, Quoted, Utf8, StringToken, KeyText;
    KeyTextSplits(style, key);
    var blanks := if style.pretty then [SPACE] else [];
    AtSplit(content, pos, Quoted(key), [COLON] + blanks);
    ScanQuoted(content, pos, key);
    ScanIs(content, pos);
    if Utf8(key) {
      ReadQuoted(content, pos, key);
      var colon := pos + |Quoted(key)|;
      AtSplit(content, colon, [COLON], blanks);
      AtByte(content, colon, [COLON], 0);
      ScanPunctuation(content, colon);
      SkipText(content, colon + 1, blanks);
    }
  }

  // ----- arrays

  /** The text of an array from the end of an element on. */
  ghost function ElemTail(j: Json, i: nat, style: Style, indent: uint32): Text
    requires j.Array? && i <= |j.elems|
  {
    DumpElems(j, i, style, Deeper(style, indent)) + Closing(style, indent, CLOSE_BRACKET)
  }

  ghost function ElemText(j: Json, i: nat, style: Style, indent: uint32): Text
    requires j.Array? && i < |j.elems|
  {
    Dump(j.elems[i], style, Deeper(style, indent)) + ElemTail(j, i + 1, style, indent)
  }

  lemma ElemTailMore(j: Json, i: nat, style: Style, indent: uint32)
    requires j.Array? && i < |j.elems|
    ensures ElemTail(j, i, style, indent) == Separator(style, i, Deeper(style, indent)) + ElemText(j, i, style, indent)
  {
    hide Dump, DumpElems, Separator, Closing, Deeper;
    var inner := Deeper(style, indent);
    DumpElem(j, i, style, inner);
    var sep, d := Separator(style, i, inner), Dump(j.elems[i], style, inner);
    var rest, close := DumpElems(j, i + 1, style, inner), Closing(style, indent, CLOSE_BRACKET);
    assert ElemTail(j, i, style, indent) == sep + d + rest + close;
    assert ElemText(j, i, style, indent) == d + (rest + close);
    hide *;
    assert sep + d + rest + close == sep + (d + (rest + close));
  }

  lemma ElemTailLast(j: Json, style: Style, indent: uint32)
    requires j.Array?
    ensures ElemTail(j, |j.elems|, style, indent) == Closing(style, indent, CLOSE_BRACKET)
  {
    DumpElemsEnd(j, style, Deeper(style, indent));
    hide DumpElems;
  }

  lemma ArrayText(j: Json, style: Style, indent: uint32)
    requires j.Array? && j.elems != []
    ensures Dump(j, style, indent) == Opening(style, OPEN_BRACKET, Deeper(style, indent)) + ElemText(j, 0, style, indent)
  {
    var inner := Deeper(style, indent);
    DumpArray(j, style, indent);
    ElemTailMore(j, 0, style, indent);
    var elems, close, rest := DumpElems(j, 0, style, inner), Closing(style, indent, CLOSE_BRACKET), ElemText(j, 0, style, indent);
    assert elems + close == Separator(style, 0, inner) + rest;
    assert Opening(style, OPEN_BRACKET, inner) == [OPEN_BRACKET] + LineBreak(style) + Separator(style, 0, inner);
    hide *;
    Associate([OPEN_BRACKET] + LineBreak(style), elems, close);
    Associate([OPEN_BRACKET] + LineBreak(style), Separator(style, 0, inner), rest);
  }

  lemma ParseElemsLast(content: Text, pos: nat, mid: nat, end: nat, x: Json, done: seq<Json>, read: Text -> Json)
    requires pos <= |content| && mid < end <= |content| && Parsed(content, pos, x, mid, read)
    requires ScanFrom(content, mid) == Scanned(EndArray, end - 1, end)
    ensures ParseElems(content, Scan(content, pos), done, read) ==
      if Utf8Strings(x) then Ok((done + [Canonical(x)], Scan(content, end))) else Err(InvalidArgument)
  {
    hide ParseValue, Scan, Utf8Strings, Canonical;
    ScanIs(content, mid);
  }

  lemma ParseElemsStep(content: Text, t: Scanned, done: seq<Json>, read: Text -> Json)
    requires Fits(content, t)
    ensures ParseElems(content, t, done, read) ==
      var v := ParseValue(content, t, read);
      if v.Err? then Err(v.error)
      else if v.value.1.token == ValueSeparator then
        ParseElems(content, Scan(content, v.value.1.end), done + [v.value.0], read)
      else if v.value.1.token == EndArray then Ok((done + [v.value.0], Scan(content, v.value.1.end)))
      else Err(InvalidArgument)
  {
    hide ParseValue, Scan;
  }

  lemma ParseElemsMore(content: Text, pos: nat, mid: nat, next: nat, x: Json, done: seq<Json>, read: Text -> Json)
    requires pos <= |content| && mid < |content| && next <= |content| && Parsed(content, pos, x, mid, read)
    requires ScanFrom(content, mid) == Scanned(ValueSeparator, mid, mid + 1)
    requires ScanFrom(content, mid + 1) == ScanFrom(content, next)
    ensures ParseElems(content, Scan(content, pos), done, read) ==
      if Utf8Strings(x) then ParseElems(content, Scan(content, next), done + [Canonical(x)], read)
      else Err(InvalidArgument)
  {
    hide ParseValue, ParseElems, Scan, Utf8Strings, Canonical, ScanFrom, Fits;
    ParseElemsStep(content, Scan(content, pos), done, read);
    ScanIs(content, mid);
    ScanIs(content, mid + 1);
    ScanIs(content, next);
    var v := ParseValue(content, Scan(content, pos), read);
    if v.Ok? {
      assert v.value == (Canonical(x), Scan(content, mid));
      assert Scan(content, v.value.1.end) == Scan(content, next);
    }
  }

  lemma ParseArrayHeader(content: Text, pos: nat, next: nat, read: Text -> Json)
    requires pos < |content| && next <= |content|
    requires ScanFrom(content, pos) == Scanned(BeginArray, pos, pos + 1)
    requires ScanFrom(content, pos + 1) == ScanFrom(content, next)
    requires Scan(content, next).token != EndArray && Scan(content, next).token != ValueSeparator
    ensures var r := ParseElems(content, Scan(content, next), [], read);
      ParseValue(content, Scan(content, pos), read) ==
      if r.Ok? then Ok((Array(r.value.0), r.value.1)) else Err(r.error)
  {
    hide ParseElems, ParseMembers, ScanFrom;
    ScanIs(content, pos);
    ScanIs(content, pos + 1);
    ScanIs(content, next);
  }

  /** The outcome of parsing the elements from number `i` on. */
  ghost predicate ElemsParsed(content: Text, pos: nat, j: Json, i: nat, end: nat, read: Text -> Json)
    requires pos <= |content| && end <= |content| && j.Array? && i < |j.elems|
  {
    var t := Scan(content, pos);
    t.token != EndArray && t.token != ValueSeparator &&
    ParseElems(content, t, CanonicalElems(j, i), read) ==
      if Utf8From(j, i) then Ok((Canonical(j).elems, Scan(content, end))) else Err(InvalidArgument)
  }

  lemma ParseEmptyArray(content: Text, pos: nat, j: Json, style: Style, indent: uint32, read: Text -> Json)
    requires j == Array([]) && At(content, pos, Dump(j, style, indent))
    ensures pos + |Dump(j, style, indent)| <= |content|
    ensures Parsed(content, pos, j, pos + |Dump(j, style, indent)|, read)
  {
    hide ScanFrom, ParseElems, ParseMembers;
    AtByte(content, pos, [OPEN_BRACKET, CLOSE_BRACKET], 0);
    AtByte(content, pos, [OPEN_BRACKET, CLOSE_BRACKET], 1);
    ScanPunctuation(content, pos);
    ScanPunctuation(content, pos + 1);
    assert Canonical(j) == j;
  }

  lemma ParseWholeArray(content: Text, pos: nat, next: nat, end: nat, j: Json, read: Text -> Json)
    requires pos < |content| && next <= |content| && end <= |content| && j.Array? && j.elems != []
    requires ScanFrom(content, pos) == Scanned(First(OPEN_BRACKET).token, pos, pos + 1)
    requires ScanFrom(content, pos + 1) == ScanFrom(content, next)
    requires ElemsParsed(content, next, j, 0, end, read)
    ensures Parsed(content, pos, j, end, read)
  {
    hide ParseElems, ParseValue, ScanFrom;
    ParseArrayHeader(content, pos, next, read);
    ScanIs(content, pos);
    assert CanonicalElems(j, 0) == [];
    assert Utf8From(j, 0) == Utf8Strings(j);
  }

  lemma ElemTextParts(j: Json, i: nat, style: Style, indent: uint32)
    requires j.Array? && i < |j.elems|
    ensures ElemText(j, i, style, indent) == Dump(j.elems[i], style, Deeper(style, indent)) + ElemTail(j, i + 1, style, indent)
  {
  }

  lemma ElemsFloatFree(j: Json, i: nat)
    requires j.Array? && i < |j.elems| && FloatFree(j)
    ensures FloatFree(j.elems[i])
  {
  }

  lemma Utf8FromStep(j: Json, i: nat)
    requires j.Array? && i < |j.elems|
    ensures Utf8From(j, i) <==> Utf8Strings(j.elems[i]) && Utf8From(j, i + 1)
    ensures Utf8From(j, |j.elems|)
  {
    hide Utf8Strings;
  }

  lemma ElemThenElems(content: Text, pos: nat, mid: nat, next: nat, end: nat, j: Json, i: nat, read: Text -> Json)
    requires pos <= |content| && mid < |content| && next <= |content| && end <= |content|
    requires j.Array? && i + 1 < |j.elems| && Parsed(content, pos, j.elems[i], mid, read)
    requires ScanFrom(content, mid) == Scanned(ValueSeparator, mid, mid + 1)
    requires ScanFrom(content, mid + 1) == ScanFrom(content, next)
    requires ElemsParsed(content, next, j, i + 1, end, read)
    ensures ElemsParsed(content, pos, j, i, end, read)
  {
    ParseElemsMore(content, pos, mid, next, j.elems[i], CanonicalElems(j, i), read);
    hide ParseElems, ParseValue, Scan, Utf8Strings, Canonical, ScanFrom, Utf8From, CanonicalElems;
    CanonicalElemsStep(j, i);
    Utf8FromStep(j, i);
  }

  lemma ElemThenEnd(content: Text, pos: nat, mid: nat, end: nat, j: Json, i: nat, read: Text -> Json)
    requires pos <= |content| && mid < end <= |content|
    requires j.Array? && i + 1 == |j.elems| && Parsed(content, pos, j.elems[i], mid, read)
    requires ScanFrom(content, mid) == Scanned(First(CLOSE_BRACKET).token, end - 1, end)
    ensures ElemsParsed(content, pos, j, i, end, read)
  {
    ParseElemsLast(content, pos, mid, end, j.elems[i], CanonicalElems(j, i), read);
    hide ParseElems, ParseValue, Scan, Utf8Strings, Canonical, ScanFrom, Utf8From, CanonicalElems;
    CanonicalElemsStep(j, i);
    Utf8FromStep(j, i);
  }

  ghost predicate Utf8From(j: Json, i: nat)
    requires j.Array?
  {
    forall k :: i <= k < |j.elems| ==> Utf8Strings(j.elems[k])
  }

  lemma CanonicalElemsStep(j: Json, i: nat)
    requires j.Array? && i < |j.elems|
    ensures CanonicalElems(j, i) + [Canonical(j.elems[i])] == CanonicalElems(j, i + 1)
    ensures CanonicalElems(j, |j.elems|) == Canonical(j).elems
  {
  }

  // ----- objects

  ghost predicate Keys(j: Json, ks: seq<Text>) {
    j.Object? && forall k :: k in ks <==> k in j.members
  }

  /** The text of an object from the end of a member on. */
  ghost function MemberTail(j: Json, ks: seq<Text>, i: nat, style: Style, indent: uint32): Text
    requires Keys(j, ks) && i <= |ks|
  {
    DumpMembers(j, ks, i, style, Deeper(style, indent)) + Closing(style, indent, CLOSE_BRACE)
  }

  ghost function MemberText(j: Json, ks: seq<Text>, i: nat, style: Style, indent: uint32): Text
    requires Keys(j, ks) && i < |ks|
  {
    var value := Dump(j.members[ks[i]], style, Deeper(style, indent));
    KeyText(style, ks[i]) + (value + MemberTail(j, ks, i + 1, style, indent))
  }

  lemma MemberTextParts(j: Json, ks: seq<Text>, i: nat, style: Style, indent: uint32)
    requires Keys(j, ks) && i < |ks| && ks[i] in j.members
    ensures var value := Dump(j.members[ks[i]], style, Deeper(style, indent));
      MemberText(j, ks, i, style, indent) == KeyText(style, ks[i]) + (value + MemberTail(j, ks, i + 1, style, indent))
  {
  }

  lemma KeyIn(j: Json, ks: seq<Text>, i: nat)
    requires Keys(j, ks) && i < |ks|
    ensures j.Object? && ks[i] in j.members
  {
  }

  lemma MembersFloatFree(j: Json, k: Text)
    requires j.Object? && k in j.members && FloatFree(j)
    ensures FloatFree(j.members[k])
  {
  }

  lemma MemberTailMore(j: Json, ks: seq<Text>, i: nat, style: Style, indent: uint32)
    requires Keys(j, ks) && i < |ks|
    ensures MemberTail(j, ks, i, style, indent) ==
      Separator(style, i, Deeper(style, indent)) + MemberText(j, ks, i, style, indent)
  {
    hide Dump, DumpMembers, KeyText, Separator, Closing, Deeper;
    var inner := Deeper(style, indent);
    DumpMember(j, ks, i, style, inner);
    var sep, key, d := Separator(style, i, inner), KeyText(style, ks[i]), Dump(j.members[ks[i]], style, inner);
    var rest, close := DumpMembers(j, ks, i + 1, style, inner), Closing(style, indent, CLOSE_BRACE);
    assert MemberTail(j, ks, i, style, indent) == sep + (key + d) + rest + close;
    assert MemberText(j, ks, i, style, indent) == key + (d + (rest + close));
    hide *;
    assert sep + (key + d) + rest + close == sep + (key + (d + (rest + close)));
  }

  lemma MemberTailLast(j: Json, ks: seq<Text>, style: Style, indent: uint32)
    requires Keys(j, ks)
    ensures MemberTail(j, ks, |ks|, style, indent) == Closing(style, indent, CLOSE_BRACE)
  {
    DumpMembersEnd(j, ks, style, Deeper(style, indent));
    hide DumpMembers;
  }

  lemma ObjectText(j: Json, style: Style, indent: uint32)
    requires j.Object? && |j.members| != 0
    ensures var ks := SortedKeys(j.members.Keys);
      Keys(j, ks) && ks != [] &&
      Dump(j, style, indent) == Opening(style, OPEN_BRACE, Deeper(style, indent)) + MemberText(j, ks, 0, style, indent)
  {
    hide SortedKeys;
    var ks := SortedKeys(j.members.Keys);
    assert |ks| == |j.members.Keys| == |j.members|;
    var inner := Deeper(style, indent);
    DumpObject(j, style, indent);
    MemberTailMore(j, ks, 0, style, indent);
    var members, close := DumpMembers(j, ks, 0, style, inner), Closing(style, indent, CLOSE_BRACE);
    var rest := MemberText(j, ks, 0, style, indent);
    assert members + close == Separator(style, 0, inner) + rest;
    assert Opening(style, OPEN_BRACE, inner) == [OPEN_BRACE] + LineBreak(style) + Separator(style, 0, inner);
    hide *;
    Associate([OPEN_BRACE] + LineBreak(style), members, close);
    Associate([OPEN_BRACE] + LineBreak(style), Separator(style, 0, inner), rest);
  }

  ghost predicate Utf8MembersFrom(j: Json, ks: seq<Text>, i: nat)
    requires Keys(j, ks)
  {
    forall n :: i <= n < |ks| ==> Utf8(ks[n]) && Utf8Strings(j.members[ks[n]])
  }

  lemma Utf8MembersStep(j: Json, ks: seq<Text>, i: nat)
    requires Keys(j, ks) && i < |ks|
    ensures Utf8MembersFrom(j, ks, i) <==> Utf8(ks[i]) && Utf8Strings(j.members[ks[i]]) && Utf8MembersFrom(j, ks, i + 1)
    ensures Utf8MembersFrom(j, ks, |ks|)
  {
    hide Utf8Strings, Utf8;
  }

  lemma Utf8MembersAll(j: Json, ks: seq<Text>)
    requires Keys(j, ks)
    ensures Utf8MembersFrom(j, ks, 0) <==> Utf8Strings(j)
  {
    hide Utf8;
    forall k | k in j.members && Utf8MembersFrom(j, ks, 0) ensures Utf8(k) && Utf8Strings(j.members[k]) {
      var n :| 0 <= n < |ks| && ks[n] == k;
    }
  }

  /** The outcome of parsing the members from number `i` on. */
  ghost predicate MembersParsed(content: Text, pos: nat, j: Json, ks: seq<Text>, i: nat, end: nat, read: Text -> Json)
    requires pos <= |content| && end <= |content| && Keys(j, ks) && i < |ks|
  {
    var t := Scan(content, pos);
    t.token != EndObject && t.token != ValueSeparator &&
    ParseMembers(content, t, CanonicalMembers(j, ks, i), read) ==
      if Utf8MembersFrom(j, ks, i) then Ok((CanonicalMembers(j, ks, |ks|), Scan(content, end))) else Err(InvalidArgument)
  }

  lemma ParseMembersStep(content: Text, t: Scanned, done: map<Text, Json>, read: Text -> Json)
    requires Fits(content, t) && ParseKey(content, t).Ok?
    ensures ParseMembers(content, t, done, read) ==
      var key := ParseKey(content, t).value;
      var v := ParseValue(content, key.1, read);
      if v.Err? then Err(v.error)
      else if v.value.1.token == ValueSeparator then
        ParseMembers(content, Scan(content, v.value.1.end), done[key.0 := v.value.0], read)
      else if v.value.1.token == EndObject then Ok((done[key.0 := v.value.0], Scan(content, v.value.1.end)))
      else Err(InvalidArgument)
  {
    hide ParseValue, Scan, ParseKey;
  }

  lemma ParseMembersBadKey(content: Text, t: Scanned, done: map<Text, Json>, read: Text -> Json)
    requires Fits(content, t) && ParseKey(content, t).Err?
    ensures ParseMembers(content, t, done, read) == Err(ParseKey(content, t).error)
  {
    hide ParseValue, Scan, ParseKey;
  }

  lemma MemberThenMembers(content: Text, pos: nat, value: nat, mid: nat, next: nat, end: nat, j: Json, ks: seq<Text>, i: nat,
                          read: Text -> Json)
    requires pos <= |content| && value <= |content| && mid < |content| && next <= |content| && end <= |content|
    requires Keys(j, ks) && i + 1 < |ks| && KeyParsed(content, pos, ks[i], value)
    requires Parsed(content, value, j.members[ks[i]], mid, read)
    requires ScanFrom(content, mid) == Scanned(ValueSeparator, mid, mid + 1)
    requires ScanFrom(content, mid + 1) == ScanFrom(content, next)
    requires MembersParsed(content, next, j, ks, i + 1, end, read)
    ensures MembersParsed(content, pos, j, ks, i, end, read)
  {
    hide ParseMembers, ParseValue, ParseKey, Scan, Utf8, Utf8Strings, Canonical, ScanFrom, Utf8MembersFrom, CanonicalMembers, Fits;
    var t, done := Scan(content, pos), CanonicalMembers(j, ks, i);
    Utf8MembersStep(j, ks, i);
    if Utf8(ks[i]) {
      ParseMembersStep(content, t, done, read);
      CanonicalMembersStep(j, ks, i);
      ScanIs(content, mid);
      ScanIs(content, mid + 1);
      ScanIs(content, next);
    } else {
      ParseMembersBadKey(content, t, done, read);
    }
  }

  lemma MemberThenEnd(content: Text, pos: nat, value: nat, mid: nat, end: nat, j: Json, ks: seq<Text>, i: nat,
                      read: Text -> Json)
    requires pos <= |content| && value <= |content| && mid < end <= |content|
    requires Keys(j, ks) && i + 1 == |ks| && KeyParsed(content, pos, ks[i], value)
    requires Parsed(content, value, j.members[ks[i]], mid, read)
    requires ScanFrom(content, mid) == Scanned(First(CLOSE_BRACE).token, end - 1, end)
    ensures MembersParsed(content, pos, j, ks, i, end, read)
  {
    hide ParseMembers, ParseValue, ParseKey, Scan, Utf8, Utf8Strings, Canonical, ScanFrom, Utf8MembersFrom, CanonicalMembers, Fits;
    var t, done := Scan(content, pos), CanonicalMembers(j, ks, i);
    Utf8MembersStep(j, ks, i);
    if Utf8(ks[i]) {
      ParseMembersStep(content, t, done, read);
      CanonicalMembersStep(j, ks, i);
      ScanIs(content, mid);
    } else {
      ParseMembersBadKey(content, t, done, read);
    }
  }

  lemma ParseEmptyObject(content: Text, pos: nat, j: Json, style: Style, indent: uint32, read: Text -> Json)
    requires j.Object? && |j.members| == 0 && At(content, pos, Dump(j, style, indent))
    ensures pos + |Dump(j, style, indent)| <= |content|
    ensures Parsed(content, pos, j, pos + |Dump(j, style, indent)|, read)
  {
    hide ScanFrom, ParseElems, ParseMembers;
    AtByte(content, pos, [OPEN_BRACE, CLOSE_BRACE], 0);
    AtByte(content, pos, [OPEN_BRACE, CLOSE_BRACE], 1);
    ScanPunctuation(content, pos);
    ScanPunctuation(content, pos + 1);
    assert j.members == map[];
    assert Canonical(j).members == map[];
  }

  lemma ParseObjectHeader(content: Text, pos: nat, next: nat, read: Text -> Json)
    requires pos < |content| && next <= |content|
    requires ScanFrom(content, pos) == Scanned(BeginObject, pos, pos + 1)
    requires ScanFrom(content, pos + 1) == ScanFrom(content, next)
    requires Scan(content, next).token != EndObject && Scan(content, next).token != ValueSeparator
    ensures var r := ParseMembers(content, Scan(content, next), map[], read);
      ParseValue(content, Scan(content, pos), read) ==
      if r.Ok? then Ok((Object(r.value.0), r.value.1)) else Err(r.error)
  {
    hide ParseElems, ParseMembers, ScanFrom;
    ScanIs(content, pos);
    ScanIs(content, pos + 1);
    ScanIs(content, next);
  }

  lemma ParseWholeObject(content: Text, pos: nat, next: nat, end: nat, j: Json, ks: seq<Text>, read: Text -> Json)
    requires pos < |content| && next <= |content| && end <= |content| && Keys(j, ks) && ks != []
    requires ScanFrom(content, pos) == Scanned(First(OPEN_BRACE).token, pos, pos + 1)
    requires ScanFrom(content, pos + 1) == ScanFrom(content, next)
    requires MembersParsed(content, next, j, ks, 0, end, read)
    ensures Parsed(content, pos, j, end, read)
  {
    hide ParseMembers, ParseValue, ScanFrom, Utf8MembersFrom, Utf8Strings, CanonicalMembers, Canonical;
    CanonicalMembersEnds(j, ks);
    Utf8MembersAll(j, ks);
    ParseObjectHeader(content, pos, next, read);
    ScanIs(content, pos);
  }

  // ----- the round trip

  lemma {:induction false} ParseDumped(content: Text, pos: nat, j: Json, style: Style, indent: uint32, read: Text -> Json)
    requires FloatFree(j) && At(content, pos, Dump(j, style, indent))
    requires NumberEnds(content, pos + |Dump(j, style, indent)|)
    ensures pos + |Dump(j, style, indent)| <= |content|
    ensures Parsed(content, pos, j, pos + |Dump(j, style, indent)|, read)
    decreases j, 2, 0
  {
    hide *;
    if j.Array? {
      ParseDumpedArray(content, pos, j, style, indent, read);
    } else if j.Object? {
      ParseDumpedObject(content, pos, j, style, indent, read);
    } else {
      ParseDumpedScalar(content, pos, j, style, indent, read);
    }
  }

  lemma ParseDumpedScalar(content: Text, pos: nat, j: Json, style: Style, indent: uint32, read: Text -> Json)
    requires FloatFree(j) && !j.Array? && !j.Object? && At(content, pos, Dump(j, style, indent))
    requires NumberEnds(content, pos + |Dump(j, style, indent)|)
    ensures pos + |Dump(j, style, indent)| <= |content|
    ensures Parsed(content, pos, j, pos + |Dump(j, style, indent)|, read)
  {
    hide ScanFrom, ParseValue, Numeral, EscapeText, NumberEnds, Scan, Utf8;
    var end := pos + |Dump(j, style, indent)|;
    match j
    case Null =>
      AtByte(content, pos, NULL_TEXT, 0);
      ScanNull(content, pos);
      ParseWord(content, pos, end, LiteralNull, read);
    case Boolean(b) =>
      AtByte(content, pos, if b then TRUE_TEXT else FALSE_TEXT, 0);
      if b { ScanTrue(content, pos); } else { ScanFalse(content, pos); }
      ParseWord(content, pos, end, if b then LiteralTrue else LiteralFalse, read);
    case Integer(i) => ParseNumeral(content, pos, j, i, read);
    case Unsigned(u) => ParseNumeral(content, pos, j, u, read);
    case String(s) => ParseQuoted(content, pos, s, read);
  }

  lemma {:induction false} ParseDumpedArray(content: Text, pos: nat, j: Json, style: Style, indent: uint32, read: Text -> Json)
    requires FloatFree(j) && j.Array? && At(content, pos, Dump(j, style, indent))
    ensures pos + |Dump(j, style, indent)| <= |content|
    ensures Parsed(content, pos, j, pos + |Dump(j, style, indent)|, read)
    decreases j, 1, 0
  {
    hide *;
    if j.elems == [] {
      ParseEmptyArray(content, pos, j, style, indent, read);
    } else {
      var open := Opening(style, OPEN_BRACKET, Deeper(style, indent));
      ArrayText(j, style, indent);
      AtSplit(content, pos, open, ElemText(j, 0, style, indent));
      ScanOpening(content, pos, style, OPEN_BRACKET, Deeper(style, indent));
      ParseDumpedElems(content, pos + |open|, j, 0, style, indent, read);
      ParseWholeArray(content, pos, pos + |open|, pos + |Dump(j, style, indent)|, j, read);
    }
  }

  lemma {:induction false} ParseDumpedElems(content: Text, pos: nat, j: Json, i: nat, style: Style, indent: uint32,
                                            read: Text -> Json)
    requires FloatFree(j) && j.Array? && i < |j.elems| && At(content, pos, ElemText(j, i, style, indent))
    ensures pos + |ElemText(j, i, style, indent)| <= |content|
    ensures ElemsParsed(content, pos, j, i, pos + |ElemText(j, i, style, indent)|, read)
    decreases j, 0, |j.elems| - i
  {
    hide *;
    var x, inner := j.elems[i], Deeper(style, indent);
    var d, tail := Dump(x, style, inner), ElemTail(j, i + 1, style, indent);
    var mid, end := pos + |d|, pos + |ElemText(j, i, style, indent)|;
    assert ElemText(j, i, style, indent) == d + tail by { ElemTextParts(j, i, style, indent); }
    AtSplit(content, pos, d, tail);
    AtFits(content, mid, tail);
    ElemsFloatFree(j, i);
    CanonicalElemsStep(j, i);
    Utf8FromStep(j, i);
    if i + 1 < |j.elems| {
      var sep, next := Separator(style, i + 1, inner), ElemText(j, i + 1, style, indent);
      ElemTailMore(j, i + 1, style, indent);
      AtSplit(content, mid, sep, next);
      ScanSeparator(content, mid, style, i + 1, inner);
      ParseDumped(content, pos, x, style, inner, read);
      ParseDumpedElems(content, mid + |sep|, j, i + 1, style, indent, read);
      ElemThenElems(content, pos, mid, mid + |sep|, end, j, i, read);
    } else {
      ElemTailLast(j, style, indent);
      ScanClosing(content, mid, style, indent, CLOSE_BRACKET);
      ParseDumped(content, pos, x, style, inner, read);
      ElemThenEnd(content, pos, mid, end, j, i, read);
    }
  }

  lemma {:induction false} ParseDumpedObject(content: Text, pos: nat, j: Json, style: Style, indent: uint32, read: Text -> Json)
    requires FloatFree(j) && j.Object? && At(content, pos, Dump(j, style, indent))
    ensures pos + |Dump(j, style, indent)| <= |content|
    ensures Parsed(content, pos, j, pos + |Dump(j, style, indent)|, read)
    decreases j, 1, 0
  {
    hide *;
    if |j.members| == 0 {
      ParseEmptyObject(content, pos, j, style, indent, read);
    } else {
      var ks, inner := SortedKeys(j.members.Keys), Deeper(style, indent);
      var open := Opening(style, OPEN_BRACE, inner);
      ObjectText(j, style, indent);
      AtSplit(content, pos, open, MemberText(j, ks, 0, style, indent));
      ScanOpening(content, pos, style, OPEN_BRACE, inner);
      ParseDumpedMembers(content, pos + |open|, j, ks, 0, style, indent, read);
      ParseWholeObject(content, pos, pos + |open|, pos + |Dump(j, style, indent)|, j, ks, read);
    }
  }

  lemma {:induction false} ParseDumpedMembers(content: Text, pos: nat, j: Json, ks: seq<Text>, i: nat, style: Style,
                                              indent: uint32, read: Text -> Json)
    requires FloatFree(j) && Keys(j, ks) && i < |ks| && At(content, pos, MemberText(j, ks, i, style, indent))
    ensures pos + |MemberText(j, ks, i, style, indent)| <= |content|
    ensures MembersParsed(content, pos, j, ks, i, pos + |MemberText(j, ks, i, style, indent)|, read)
    decreases j, 0, |ks| - i
  {
    hide *;
    KeyIn(j, ks, i);
    var x, inner := j.members[ks[i]], Deeper(style, indent);
    var key, d, tail := KeyText(style, ks[i]), Dump(x, style, inner), MemberTail(j, ks, i + 1, style, indent);
    var value := pos + |key|;
    var mid, end := value + |d|, pos + |MemberText(j, ks, i, style, indent)|;
    MemberTextParts(j, ks, i, style, indent);
    AtSplit(content, pos, key, d + tail);
    AtSplit(content, value, d, tail);
    AtFits(content, mid, tail);
    ParseKeyText(content, pos, style, ks[i]);
    MembersFloatFree(j, ks[i]);
    if i + 1 < |ks| {
      var sep, next := Separator(style, i + 1, inner), MemberText(j, ks, i + 1, style, indent);
      MemberTailMore(j, ks, i + 1, style, indent);
      AtSplit(content, mid, sep, next);
      ScanSeparator(content, mid, style, i + 1, inner);
      ParseDumped(content, value, x, style, inner, read);
      ParseDumpedMembers(content, mid + |sep|, j, ks, i + 1, style, indent, read);
      MemberThenMembers(content, pos, value, mid, mid + |sep|, end, j, ks, i, read);
    } else {
      MemberTailLast(j, ks, style, indent);
      ScanClosing(content, mid, style, indent, CLOSE_BRACE);
      ParseDumped(content, value, x, style, inner, read);
      MemberThenEnd(content, pos, value, mid, end, j, ks, i, read);
    }
  }

  /** Printing and parsing, for every float-free value, compact or with any indentation:
      the value comes back exactly if its strings are UTF-8; else parsing fails. */
  lemma TextRoundTrip(j: Json, style: Style, read: Text -> Json)
    requires FloatFree(j)
    ensures Parse(Dump(j, style, 0), read) == if Utf8Strings(j) then Ok(Canonical(j)) else Err(InvalidArgument)
    ensures Equals(Canonical(j), j)
  {
    hide *;
    var text := Dump(j, style, 0);
    WholeText(text);
    EndsAtEnd(text);
    ParseDumped(text, 0, j, style, 0, read);
    ParseWhole(text, j, read);
    FloatFreeIsFinite(j);
    CanonicalEquals(j);
  }

  lemma WholeText(text: Text)
    ensures At(text, 0, text)
  {
  }

  lemma EndsAtEnd(text: Text)
    ensures NumberEnds(text, |text|)
  {
  }

  lemma ParseWhole(text: Text, j: Json, read: Text -> Json)
    requires Parsed(text, 0, j, |text|, read)
    ensures Parse(text, read) == if Utf8Strings(j) then Ok(Canonical(j)) else Err(InvalidArgument)
  {
    hide ParseValue, Canonical, Utf8Strings, Run;
    FinalRun(text, EndOfInput, |text| + 1, Mark(ParseError, |text|));
    ScanIs(text, |text|);
    assert SkipBlanks(text, |text|) == |text|;
  }

  lemma {:induction false} FloatFreeIsFinite(j: Json)
    requires FloatFree(j)
    ensures Finite(j)
  {
    match j
    case Array(es) =>
      forall i | 0 <= i < |es| ensures Finite(es[i]) { FloatFreeIsFinite(es[i]); }
    case Object(m) =>
      forall k | k in m ensures Finite(m[k]) { FloatFreeIsFinite(m[k]); }
    case _ =>
  }
}
