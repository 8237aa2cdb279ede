/**
 What the escapes of a JSON string stand for (section 7 of RFC 7159): a string is a list
 of plain bytes and escapes, and `get_string` reads exactly what those stand for.
 */
module Escapes {
  import opened Bytes
  import opened Results
  import opened Strings

  const UPPER_DIGITS: Text := [0x30, 0x31, 0x32, 0x33, 0x34, 0x35, 0x36, 0x37, 0x38, 0x39, 0x41, 0x42, 0x43, 0x44, 0x45, 0x46]

  /** The byte is the hexadecimal digit of the number, in either case. */
  predicate DigitFor(c: byte, d: nat)
    requires d < 16
  {
    c == UPPER_DIGITS[d] || c == LOWER_DIGITS[d]
  }

  /** Four digits, the most significant first, spell a code unit. */
  predicate Spells(s: Text, unit: nat) {
    && |s| == 4 && unit < 0x1_0000
    && DigitFor(s[0], unit / 4096) && DigitFor(s[1], unit / 256 % 16)
    && DigitFor(s[2], unit / 16 % 16) && DigitFor(s[3], unit % 16)
  }

  // ----- items

  datatype Item =
    | Plain(c: byte)
    | Simple(letter: byte, value: byte)
    | Unit(unit: nat, digits: Text)
    | Pair(cp: nat, high: Text, low: Text)

  /** The letters after a backslash and what they stand for. */
  const SIMPLE: map<byte, byte> :=
    map[0x22 := 0x22, 0x5C := 0x5C, 0x2F := 0x2F, 0x62 := 0x08, 0x66 := 0x0C, 0x6E := 0x0A, 0x72 := 0x0D, 0x74 := 0x09]

  predicate IsItem(item: Item) {
    match item
    case Plain(c) => c != BACKSLASH
    case Simple(letter, value) => letter in SIMPLE && SIMPLE[letter] == value
    case Unit(unit, digits) => Scalar(unit) && Spells(digits, unit)
    case Pair(cp, high, low) =>
      && 0x1_0000 <= cp <= 0x10FFFF
      && Spells(high, 0xD800 + (cp - 0x1_0000) / 1024) && Spells(low, 0xDC00 + (cp - 0x1_0000) % 1024)
  }

  function TextOf(item: Item): Text {
    match item
    case Plain(c) => [c]
    case Simple(letter, _) => [BACKSLASH, letter]
    case Unit(_, digits) => [BACKSLASH, LOWER_U] + digits
    case Pair(_, high, low) => [BACKSLASH, LOWER_U] + high + [BACKSLASH, LOWER_U] + low
  }

  /** UTF-8, as `EncodeIsChar` describes it. */
  function Meaning(item: Item): Text
    requires IsItem(item)
  {
    match item
    case Plain(c) => [c]
    case Simple(_, value) => [value]
    case Unit(unit, _) => Encode(unit)
    case Pair(cp, _, _) => Encode(cp)
  }

  predicate AreItems(items: seq<Item>) {
    forall i :: 0 <= i < |items| ==> IsItem(items[i])
  }

  function Texts(items: seq<Item>): Text {
    if items == [] then [] else TextOf(items[0]) + Texts(items[1..])
  }

  function Meanings(items: seq<Item>): Text
    requires AreItems(items)
  {
    if items == [] then [] else Meaning(items[0]) + Meanings(items[1..])
  }

  // ----- digits

  lemma DigitValue(c: byte, d: nat)
    requires d < 16
    ensures DigitFor(c, d) <==> HexDigit(c) && HexValue(c) == d
  {
  }

  lemma LowDigit16(q: nat, r: nat)
    requires r < 16
    ensures (q * 16 + r) / 16 == q && (q * 16 + r) % 16 == r
  {
  }

  lemma Shifts(n: nat)
    ensures n / 256 == n / 16 / 16 && n / 4096 == n / 16 / 16 / 16
  {
  }

  /** A number below 2^16 and its four digits. */
  lemma FourDigits(n: nat, a: nat, b: nat, c: nat, d: nat)
    requires a < 16 && b < 16 && c < 16 && d < 16
    ensures n == a * 4096 + b * 256 + c * 16 + d <==>
      n / 4096 == a && n / 256 % 16 == b && n / 16 % 16 == c && n % 16 == d
  {
    Shifts(n);
    var x, y := a * 16 + b, (a * 16 + b) * 16 + c;
    LowDigit16(a, b);
    LowDigit16(x, c);
    LowDigit16(y, d);
  }

  /** Four digits spell exactly one code unit, which is what they are read as. */
  lemma SpellsIff(s: Text, unit: nat)
    requires |s| == 4
    ensures Spells(s, unit) <==> FourHex(s) && FourHexValue(s) == unit
  {
    if unit < 0x1_0000 {
      DigitValue(s[0], unit / 4096);
      DigitValue(s[1], unit / 256 % 16);
      DigitValue(s[2], unit / 16 % 16);
      DigitValue(s[3], unit % 16);
    }
    hide DigitFor, HexDigit, HexValue;
    if FourHex(s) {
      HexBound(s[0]);
      HexBound(s[1]);
      HexBound(s[2]);
      HexBound(s[3]);
      FourDigits(unit, HexValue(s[0]), HexValue(s[1]), HexValue(s[2]), HexValue(s[3]));
    }
  }

  lemma HexBound(c: byte)
    requires HexDigit(c)
    ensures HexValue(c) < 16
  {
  }

  // ----- reading items

  lemma UnitText(digits: Text, rest: Text)
    requires |digits| == 4 && FourHex(digits) && WellEscaped(rest)
    ensures var s := [BACKSLASH, LOWER_U] + digits + rest;
      WellEscaped(s) && s[2..6] == digits && s[6..] == rest && FourHex(s[2..]) && FourHexValue(s[2..]) == FourHexValue(digits)
  {
    var s := [BACKSLASH, LOWER_U] + digits + rest;
    assert s[6..] == rest && s[2..][..4] == digits;
    hide HexDigit, HexValue;
    assert EscapeLength(s) == 6;
  }

  lemma UnescapeUnit(s: Text)
    requires WellEscaped(s) && |s| >= 6 && s[0] == BACKSLASH && s[1] == LOWER_U && FourHex(s[2..])
    requires Scalar(FourHexValue(s[2..]))
    ensures UnescapeOne(s) == Ok((Encode(FourHexValue(s[2..])), 6))
  {
    hide WellEscaped, FourHexValue, FourHex, Encode;
  }

  lemma UnescapePair(s: Text)
    requires WellEscaped(s) && |s| >= 12 && s[0] == BACKSLASH && s[1] == LOWER_U && s[6] == BACKSLASH && s[7] == LOWER_U
    requires FourHex(s[2..]) && FourHex(s[8..])
    requires 0xD800 <= FourHexValue(s[2..]) <= 0xDBFF && 0xDC00 <= FourHexValue(s[8..]) <= 0xDFFF
    ensures UnescapeOne(s) == Ok((Encode(FourHexValue(s[2..]) * 1024 + FourHexValue(s[8..]) - 0x35FDC00), 12))
  {
    hide WellEscaped, FourHexValue, FourHex, Encode;
  }

  lemma ReadUnit(unit: nat, digits: Text, rest: Text)
    requires Scalar(unit) && Spells(digits, unit) && WellEscaped(rest)
    ensures var s := [BACKSLASH, LOWER_U] + digits + rest;
      WellEscaped(s) && UnescapeOne(s) == Ok((Encode(unit), 6)) && s[6..] == rest
  {
    SpellsIff(digits, unit);
    hide Spells, Encode, FourHex, FourHexValue, WellEscaped, UnescapeOne;
    UnitText(digits, rest);
    UnescapeUnit([BACKSLASH, LOWER_U] + digits + rest);
  }

  lemma Surrogates(cp: nat)
    requires 0x1_0000 <= cp <= 0x10FFFF
    ensures var high, low := 0xD800 + (cp - 0x1_0000) / 1024, 0xDC00 + (cp - 0x1_0000) % 1024;
      0xD800 <= high <= 0xDBFF && 0xDC00 <= low <= 0xDFFF && high * 1024 + low - 0x35FDC00 == cp
  {
  }

  lemma PairParts(s: Text, high: Text, low: Text, tail: Text, rest: Text)
    requires tail == [BACKSLASH, LOWER_U] + low + rest && s == [BACKSLASH, LOWER_U] + high + tail && |high| == |low| == 4
    ensures s[6..] == tail && s[8..] == tail[2..] && s[12..] == rest
    ensures s[0] == s[6] == BACKSLASH && s[1] == s[7] == LOWER_U
  {
  }

  lemma ReadSurrogates(high: Text, low: Text, rest: Text)
    requires |high| == |low| == 4 && FourHex(high) && FourHex(low) && WellEscaped(rest)
    requires 0xD800 <= FourHexValue(high) <= 0xDBFF && 0xDC00 <= FourHexValue(low) <= 0xDFFF
    ensures var s := [BACKSLASH, LOWER_U] + high + ([BACKSLASH, LOWER_U] + low + rest);
      WellEscaped(s) && s[12..] == rest &&
      UnescapeOne(s) == Ok((Encode(FourHexValue(high) * 1024 + FourHexValue(low) - 0x35FDC00), 12))
  {
    hide Encode, FourHex, FourHexValue, WellEscaped, UnescapeOne;
    var tail := [BACKSLASH, LOWER_U] + low + rest;
    var s := [BACKSLASH, LOWER_U] + high + tail;
    UnitText(low, rest);
    UnitText(high, tail);
    PairParts(s, high, low, tail, rest);
    UnescapePair(s);
  }

  lemma ReadPair(cp: nat, high: Text, low: Text, rest: Text)
    requires IsItem(Pair(cp, high, low)) && WellEscaped(rest)
    ensures var s := [BACKSLASH, LOWER_U] + high + ([BACKSLASH, LOWER_U] + low + rest);
      WellEscaped(s) && UnescapeOne(s) == Ok((Encode(cp), 12)) && s[12..] == rest
  {
    PairSpelled(cp, high, low);
    hide *;
    ReadSurrogates(high, low, rest);
  }

  lemma PairSpelled(cp: nat, high: Text, low: Text)
    requires IsItem(Pair(cp, high, low))
    ensures |high| == |low| == 4 && FourHex(high) && FourHex(low)
    ensures 0xD800 <= FourHexValue(high) <= 0xDBFF && 0xDC00 <= FourHexValue(low) <= 0xDFFF
    ensures FourHexValue(high) * 1024 + FourHexValue(low) - 0x35FDC00 == cp
  {
    var h, l := 0xD800 + (cp - 0x1_0000) / 1024, 0xDC00 + (cp - 0x1_0000) % 1024;
    hide Spells, FourHex, FourHexValue;
    Spelled(high, h);
    Spelled(low, l);
    Surrogates(cp);
  }

  lemma Spelled(s: Text, unit: nat)
    requires Spells(s, unit)
    ensures |s| == 4 && FourHex(s) && FourHexValue(s) == unit
  {
    hide DigitFor;
    assert |s| == 4;
    hide *;
    SpellsIff(s, unit);
  }

  lemma ReadItem(item: Item, rest: Text)
    requires IsItem(item) && WellEscaped(rest)
    ensures WellEscaped(TextOf(item) + rest)
    ensures Unescape(TextOf(item) + rest) == Prepend(Meaning(item), Unescape(rest))
  {
    hide Unescape, UnescapeOne, Spells, Encode, EscapeLength, WellEscaped;
    var s := TextOf(item) + rest;
    match item
    case Plain(c) =>
      assert s[1..] == rest;
      PlainItem(s);
      UnescapePlain(s);
    case Simple(letter, value) =>
      assert s[2..] == rest;
      SimpleItem(s);
      UnescapeEscape(s);
    case Unit(unit, digits) =>
      ReadUnit(unit, digits, rest);
      UnescapeEscape(s);
    case Pair(cp, high, low) =>
      ReadPair(cp, high, low, rest);
      assert s == [BACKSLASH, LOWER_U] + high + ([BACKSLASH, LOWER_U] + low + rest);
      UnescapeEscape(s);
  }

  lemma PlainItem(s: Text)
    requires s != [] && s[0] != BACKSLASH && WellEscaped(s[1..])
    ensures WellEscaped(s)
  {
  }

  lemma SimpleItem(s: Text)
    requires |s| >= 2 && s[0] == BACKSLASH && s[1] in SIMPLE && WellEscaped(s[2..])
    ensures WellEscaped(s) && UnescapeOne(s) == Ok(([SIMPLE[s[1]]], 2))
  {
  }

  /** Any list of plain bytes and escapes is read as what they stand for, in order. */
  lemma {:induction false} ReadItems(items: seq<Item>)
    requires AreItems(items)
    ensures WellEscaped(Texts(items)) && Unescape(Texts(items)) == Ok(Meanings(items))
  {
    hide Unescape, TextOf, Meaning, IsItem;
    if items == [] {
      UnescapeEmpty();
    } else {
      ReadItems(items[1..]);
      ReadItem(items[0], Texts(items[1..]));
    }
  }

  // ----- and nothing else is read

  /** The parts of a \u escape as it stands in the text. */
  lemma UnitShape(s: Text)
    requires |s| >= 6 && FourHex(s[2..])
    ensures FourHex(s[2..6]) && FourHexValue(s[2..6]) == FourHexValue(s[2..]) && Spells(s[2..6], FourHexValue(s[2..]))
  {
    assert s[2..6] == s[2..][..4];
    hide HexDigit, HexValue, Spells;
    SpellsIff(s[2..6], FourHexValue(s[2..]));
  }

  lemma CodePoint(high: nat, low: nat)
    requires 0xD800 <= high <= 0xDBFF && 0xDC00 <= low <= 0xDFFF
    ensures var cp: int := high * 1024 + low - 0x35FDC00;
      0x1_0000 <= cp <= 0x10FFFF && 0xD800 + (cp - 0x1_0000) / 1024 == high && 0xDC00 + (cp - 0x1_0000) % 1024 == low
  {
  }

  lemma PairItem(high: nat, low: nat, a: Text, b: Text) returns (item: Item)
    requires 0xD800 <= high <= 0xDBFF && 0xDC00 <= low <= 0xDFFF && Spells(a, high) && Spells(b, low)
    ensures IsItem(item) && TextOf(item) == [BACKSLASH, LOWER_U] + a + [BACKSLASH, LOWER_U] + b
    ensures 0 <= high * 1024 + low - 0x35FDC00 <= 0x10FFFF && Meaning(item) == Encode(high * 1024 + low - 0x35FDC00)
  {
    CodePoint(high, low);
    hide Spells, Encode;
    item := Pair(high * 1024 + low - 0x35FDC00, a, b);
  }

  lemma PairSplit(s: Text)
    requires |s| >= 12 && s[0] == BACKSLASH && s[1] == LOWER_U && s[6] == BACKSLASH && s[7] == LOWER_U
    ensures s == [BACKSLASH, LOWER_U] + s[2..6] + [BACKSLASH, LOWER_U] + s[8..12] + s[12..]
    ensures |[BACKSLASH, LOWER_U] + s[2..6] + [BACKSLASH, LOWER_U] + s[8..12]| == 12
  {
  }

  lemma FirstPair(s: Text) returns (item: Item)
    requires WellEscaped(s) && |s| >= 12 && s[0] == BACKSLASH && s[1] == LOWER_U && s[6] == BACKSLASH && s[7] == LOWER_U
    requires FourHex(s[2..]) && FourHex(s[8..])
    requires 0xD800 <= FourHexValue(s[2..]) <= 0xDBFF && 0xDC00 <= FourHexValue(s[8..]) <= 0xDFFF
    ensures IsItem(item) && UnescapeOne(s) == Ok((Meaning(item), 12)) && |TextOf(item)| == 12
    ensures s == TextOf(item) + s[12..]
  {
    hide *;
    var high, low := FourHexValue(s[2..]), FourHexValue(s[8..]);
    UnescapePair(s);
    UnitShape(s);
    assert s[6..][2..] == s[8..] && s[6..][2..6] == s[8..12];
    UnitShape(s[6..]);
    item := PairItem(high, low, s[2..6], s[8..12]);
    PairSplit(s);
  }

  lemma FirstUnit(s: Text) returns (item: Item)
    requires WellEscaped(s) && |s| >= 6 && s[0] == BACKSLASH && s[1] == LOWER_U && FourHex(s[2..])
    requires Scalar(FourHexValue(s[2..]))
    ensures IsItem(item) && UnescapeOne(s) == Ok((Meaning(item), 6)) && |TextOf(item)| == 6
    ensures s == TextOf(item) + s[6..]
  {
    UnescapeUnit(s);
    hide WellEscaped, Encode, FourHex, FourHexValue, UnescapeOne, Spells;
    UnitShape(s);
    item := Unit(FourHexValue(s[2..]), s[2..6]);
  }

  lemma FirstSimple(s: Text) returns (item: Item)
    requires WellEscaped(s) && |s| >= 2 && s[0] == BACKSLASH && s[1] != LOWER_U
    ensures IsItem(item) && UnescapeOne(s) == Ok((Meaning(item), 2)) && |TextOf(item)| == 2
    ensures s == TextOf(item) + s[2..]
  {
    EscapeShape(s);
    SimpleItem(s);
    item := Simple(s[1], SIMPLE[s[1]]);
  }

  /** What `UnescapeOne` has looked at if it succeeds. */
  lemma OneShape(s: Text)
    requires WellEscaped(s) && s != [] && s[0] == BACKSLASH && UnescapeOne(s).Ok?
    ensures |s| >= 2
    ensures s[1] == LOWER_U ==> |s| >= 6 && FourHex(s[2..]) && !(0xDC00 <= FourHexValue(s[2..]) <= 0xDFFF)
    ensures s[1] == LOWER_U && 0xD800 <= FourHexValue(s[2..]) <= 0xDBFF ==>
      |s| >= 12 && s[6] == BACKSLASH && s[7] == LOWER_U && FourHex(s[8..]) && 0xDC00 <= FourHexValue(s[8..]) <= 0xDFFF
  {
    EscapeShape(s);
    if |s| >= 8 && s[1] == LOWER_U && s[6] == BACKSLASH && s[7] == LOWER_U { PairShape(s); }
    hide WellEscaped, Encode, FourHex, FourHexValue;
  }

  lemma FirstItem(s: Text) returns (item: Item)
    requires WellEscaped(s) && s != [] && s[0] == BACKSLASH && UnescapeOne(s).Ok?
    ensures IsItem(item) && UnescapeOne(s).value == (Meaning(item), |TextOf(item)|)
    ensures s == TextOf(item) + s[|TextOf(item)|..]
  {
    OneShape(s);
    hide WellEscaped, Encode, FourHex, FourHexValue, UnescapeOne, IsItem, TextOf, Meaning;
    if s[1] != LOWER_U {
      item := FirstSimple(s);
    } else if 0xD800 <= FourHexValue(s[2..]) <= 0xDBFF {
      item := FirstPair(s);
    } else {
      item := FirstUnit(s);
    }
  }

  /** `get_string` succeeds with `t` exactly if the string is a list of plain bytes and
      escapes that stand for `t`. */
  lemma {:induction false} ReadIff(s: Text, t: Text)
    requires WellEscaped(s)
    ensures Unescape(s) == Ok(t) <==> exists items :: AreItems(items) && Texts(items) == s && Meanings(items) == t
  {
    forall items | AreItems(items) && Texts(items) == s && Meanings(items) == t ensures Unescape(s) == Ok(t) {
      ReadItems(items);
    }
    if Unescape(s) == Ok(t) {
      var items := ItemsOf(s);
      ReadItems(items);
    }
  }

  lemma {:induction false} ItemsOf(s: Text) returns (items: seq<Item>)
    requires WellEscaped(s) && Unescape(s).Ok?
    ensures AreItems(items) && Texts(items) == s
    decreases |s|
  {
    hide Unescape, UnescapeOne, TextOf, IsItem, WellEscaped;
    if s == [] {
      items := [];
    } else if s[0] != BACKSLASH {
      PlainStep(s);
      items := ItemsOf(s[1..]);
      items := [Plain(s[0])] + items;
    } else {
      UnescapeEscape(s);
      var item := FirstItem(s);
      items := ItemsOf(s[|TextOf(item)|..]);
      items := [item] + items;
    }
  }

  lemma PlainStep(s: Text)
    requires WellEscaped(s) && s != [] && s[0] != BACKSLASH && Unescape(s).Ok?
    ensures WellEscaped(s[1..]) && Unescape(s[1..]).Ok?
    ensures IsItem(Plain(s[0])) && TextOf(Plain(s[0])) == [s[0]]
  {
  }

  // ----- the escapes that are written

  /** An item of a JSON text: a byte below a blank, a quote or a backslash needs an escape. */
  predicate InText(item: Item) {
    IsItem(item) && (item.Plain? ==> item.c >= 0x20 && item.c != 0x22)
  }

  /** `escape_string` writes each byte as an item that stands for it, and as the shortest. */
  lemma WrittenItem(c: byte) returns (item: Item)
    requires c < 0x80
    ensures InText(item) && TextOf(item) == EscapeByte(c) && Meaning(item) == [c]
    ensures forall other :: InText(other) && Meaning(other) == [c] ==> |EscapeByte(c)| <= |TextOf(other)|
  {
    if c in {0x22, 0x5C} {
      item := Simple(c, c);
    } else if c in {0x08, 0x0C, 0x0A, 0x0D, 0x09} {
      item := Simple(if c == 0x08 then 0x62 else if c == 0x0C then 0x66 else if c == 0x0A then 0x6E
        else if c == 0x0D then 0x72 else 0x74, c);
    } else if c < 0x20 {
      item := Unit(c, [0x30, 0x30, HexDigitOf(c / 16), HexDigitOf(c % 16)]);
      ControlSpelled(c);
    } else {
      item := Plain(c);
    }
    hide Spells;
    forall other | InText(other) && Meaning(other) == [c] ensures |EscapeByte(c)| <= |TextOf(other)| {
      ItemLengths(c, other);
    }
  }

  lemma ControlSpelled(c: byte)
    requires c < 0x20
    ensures Spells([0x30, 0x30, HexDigitOf(c / 16), HexDigitOf(c % 16)], c) && Encode(c) == [c]
  {
  }

  lemma ItemLengths(c: byte, item: Item)
    requires InText(item) && Meaning(item) == [c]
    ensures |TextOf(item)| >= |EscapeByte(c)|
  {
    hide Encode;
    if item.Unit? || item.Pair? { assert |TextOf(item)| >= 6 by { SpelledLength(item); } }
  }

  lemma SpelledLength(item: Item)
    requires IsItem(item) && (item.Unit? || item.Pair?)
    ensures |TextOf(item)| >= 6
  {
  }

  /** Control characters are written with lower-case digits. */
  lemma ControlText(c: byte)
    requires c < 0x20 && c !in {0x08, 0x09, 0x0A, 0x0C, 0x0D}
    ensures EscapeByte(c) == [0x5C, 0x75, 0x30, 0x30, LOWER_DIGITS[c / 16], LOWER_DIGITS[c % 16]]
  {
  }
}
