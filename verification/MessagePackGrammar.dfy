/**
 Which byte strings `from_msgpack` reads, and as what: every format of MessagePack but the
 binary and extension types, in any of the widths it offers. Decoding succeeds exactly
 where such an item stands.
 */
module MessagePackGrammar {
  import opened Bytes
  import opened Results
  import opened Json
  import opened Binary
  import M = MessagePack

  /** How a head holds a length: in itself, or in `width` bytes after it. */
  datatype Form = Short | Wide(width: nat)

  datatype Kind = Chars | Elements | Pairs

  datatype Item =
    | Nil
    | Bool(b: bool)
    | Fixint(i: int)
    | Positive(width: nat, n: nat)
    | Signed(width: nat, i: int)
    | Number(width: nat, bits: nat)
    | Str(form: Form, s: Text)
    | Group(kind: Kind, form: Form, items: seq<Item>)

  // ----- the bytes of an item

  predicate Fits(kind: Kind, form: Form, n: nat) {
    match form
    case Short => n < if kind.Chars? then 32 else 16
    case Wide(width) => (width in {2, 4} || (width == 1 && kind.Chars?)) && n < Range(width)
  }

  /** The formats fixstr, str 8 to 32, fixarray, array 16 and 32, fixmap, map 16 and 32. */
  function HeadByte(kind: Kind, form: Form, n: nat): byte
    requires Fits(kind, form, n)
  {
    match kind
    case Chars => if form.Short? then 0xA0 + n else if form.width == 1 then 0xD9 else if form.width == 2 then 0xDA else 0xDB
    case Elements => if form.Short? then 0x90 + n else if form.width == 2 then 0xDC else 0xDD
    case Pairs => if form.Short? then 0x80 + n else if form.width == 2 then 0xDE else 0xDF
  }

  function HeadText(kind: Kind, form: Form, n: nat): Text
    requires Fits(kind, form, n)
  {
    [HeadByte(kind, form, n)] + if form.Short? then [] else BigEndian(n, form.width)
  }

  function Count(kind: Kind, items: seq<Item>): nat {
    if kind.Pairs? then |items| / 2 else |items|
  }

  /** A signed number that fits a type of so many values. */
  predicate InHalf(i: int, range: int) {
    -range <= 2 * i < range
  }

  predicate IsItem(item: Item)
    decreases item
  {
    match item
    case Nil => true
    case Bool(_) => true
    case Fixint(i) => -32 <= i < 128
    case Positive(width, n) => width in {1, 2, 4, 8} && n < Range(width)
    case Signed(width, i) => width in {1, 2, 4, 8} && InHalf(i, Range(width))
    case Number(width, bits) => width in {4, 8} && bits < Range(width)
    case Str(form, s) => Fits(Chars, form, |s|)
    case Group(kind, form, items) =>
      !kind.Chars? && Fits(kind, form, Count(kind, items)) && HasShape(kind, items) &&
      forall i :: 0 <= i < |items| ==> IsItem(items[i])
  }

  /** Keys are strings, and each has a value. */
  predicate HasShape(kind: Kind, items: seq<Item>) {
    kind.Pairs? ==> |items| % 2 == 0 && forall i :: 0 <= i < |items| && i % 2 == 0 ==> items[i].Str?
  }

  predicate AreItems(items: seq<Item>) {
    forall i :: 0 <= i < |items| ==> IsItem(items[i])
  }

  function WidthOf(width: nat): nat {
    if width == 1 then 0 else if width == 2 then 1 else if width == 4 then 2 else 3
  }

  function TextOf(item: Item): Text
    requires IsItem(item)
    decreases item, 0
  {
    match item
    case Nil => [0xC0]
    case Bool(b) => [if b then 0xC3 else 0xC2]
    case Fixint(i) => [if i < 0 then 0x100 + i else i]
    case Positive(width, n) => [0xCC + WidthOf(width)] + BigEndian(n, width)
    case Signed(width, i) => [0xD0 + WidthOf(width)] + BigEndian(i, width)
    case Number(width, bits) => [if width == 4 then 0xCA else 0xCB] + BigEndian(bits, width)
    case Str(form, s) => HeadText(Chars, form, |s|) + s
    case Group(kind, form, items) => HeadText(kind, form, Count(kind, items)) + Texts(items)
  }

  function Texts(items: seq<Item>): Text
    requires AreItems(items)
    decreases items, 0
  {
    if items == [] then [] else TextOf(items[0]) + Texts(items[1..])
  }

  // ----- what an item is read as

  lemma InRange(width: nat, n: nat)
    requires width in {1, 2, 4, 8} && n < Range(width)
    ensures n < TWO_TO_THE_64 && Range(width) <= TWO_TO_THE_64
  {
    Ranges();
  }

  function ValueOf(item: Item): Json
    requires IsItem(item)
    decreases item, 0
  {
    match item
    case Nil => Null
    case Bool(b) => Boolean(b)
    case Fixint(i) => if i < 0 then Integer(i) else Unsigned(i)
    case Positive(width, n) =>
      InRange(width, n);
      Unsigned(n)
    case Signed(width, i) =>
      InRange(width, 0);
      Integer(i)
    case Number(width, bits) =>
      InRange(width, bits);
      NewFloat(if width == 8 then bits else WidenSingle(bits))
    case Str(_, s) => String(s)
    case Group(kind, _, items) => if kind.Pairs? then Object(Members(items)) else Array(Values(items))
  }

  function Values(items: seq<Item>): seq<Json>
    requires AreItems(items)
    decreases items, 0
  {
    if items == [] then [] else [ValueOf(items[0])] + Values(items[1..])
  }

  /** The members of alternating keys and values: the last value of a key counts. */
  function Members(items: seq<Item>): map<Text, Json>
    requires AreItems(items) && HasShape(Pairs, items)
    decreases items, 0
  {
    if items == [] then map[]
    else map[items[0].s := ValueOf(items[1])] + Members(items[2..])
  }

  // ----- every item is read as its value

  lemma AfterHead(v: Text, idx: nat, head: byte, rest: Text)
    requires At(v, idx, [head] + rest)
    ensures idx < |v| && v[idx] == head && At(v, idx + 1, rest)
  {
    AtSplit(v, idx, [head], rest);
    assert v[idx] == v[idx..idx + 1][0];
  }

  lemma Room(v: Text, idx: nat)
    requires |v| <= MAX_SIZE && idx < |v|
    ensures LengthFits(|v|, 1, idx)
  {
  }

  lemma DecodeUnsigned(v: Text, idx: nat, width: nat, n: nat)
    requires |v| <= MAX_SIZE && width in {1, 2, 4, 8} && n < Range(width)
    requires At(v, idx, [0xCC + WidthOf(width)] + BigEndian(n, width))
    ensures n < TWO_TO_THE_64 && M.Decode(v, idx) == Ok((Unsigned(n), idx + 1 + width))
  {
    InRange(width, n);
    HeadBelow(width);
    hide *;
    AfterHead(v, idx, 0xCC + WidthOf(width), BigEndian(n, width));
    GetWritten(v, idx, n, width);
    UnsignedAt(v, idx, width);
    UnsignedRead(v, idx, width, n);
  }

  lemma HeadBelow(width: nat)
    ensures WidthOf(width) <= 3
  {
  }

  lemma UnsignedRead(v: Text, idx: nat, width: nat, n: nat)
    requires idx < |v| && width in {1, 2, 4, 8} && GetFromVector(v, idx, width) == Ok(n)
    ensures n < TWO_TO_THE_64 && M.ReadUnsigned(v, idx, width) == Ok((Unsigned(n), idx + 1 + width))
  {
    InRange(width, n);
  }

  lemma UnsignedAt(v: Text, idx: nat, width: nat)
    requires |v| <= MAX_SIZE && idx < |v| && width in {1, 2, 4, 8} && v[idx] == 0xCC + WidthOf(width)
    ensures M.Decode(v, idx) == M.ReadUnsigned(v, idx, width)
  {
    Room(v, idx);
    hide M.DecodeArray, M.DecodeObject, GetString, GetFloat, M.ReadUnsigned, M.ReadString, M.ReadSigned;
  }

  lemma SignedWritten(v: Text, idx: nat, i: int, width: nat)
    requires width > 0 && InHalf(i, Range(width)) && At(v, idx + 1, BigEndian(i, width))
    ensures GetSigned(v, idx, width) == Ok(i)
  {
    hide BigEndian, Range;
    if i < 0 {
      GetWrittenNegative(v, idx, i, width);
    } else {
      GetWritten(v, idx, i, width);
    }
  }

  lemma DecodeSigned(v: Text, idx: nat, width: nat, i: int)
    requires |v| <= MAX_SIZE && width in {1, 2, 4, 8} && InHalf(i, Range(width))
    requires At(v, idx, [0xD0 + WidthOf(width)] + BigEndian(i, width))
    ensures -TWO_TO_THE_63 <= i < TWO_TO_THE_63 && M.Decode(v, idx) == Ok((Integer(i), idx + 1 + width))
  {
    SignedBound(width, i);
    HeadBelow(width);
    hide *;
    AfterHead(v, idx, 0xD0 + WidthOf(width), BigEndian(i, width));
    SignedWritten(v, idx, i, width);
    SignedAt(v, idx, width);
    SignedRead(v, idx, width, i);
  }

  lemma SignedBound(width: nat, i: int)
    requires width in {1, 2, 4, 8} && InHalf(i, Range(width))
    ensures -TWO_TO_THE_63 <= i < TWO_TO_THE_63
  {
    InRange(width, 0);
  }

  lemma SignedRead(v: Text, idx: nat, width: nat, i: int)
    requires idx < |v| && width in {1, 2, 4, 8} && GetSigned(v, idx, width) == Ok(i)
    ensures -TWO_TO_THE_63 <= i < TWO_TO_THE_63 && M.ReadSigned(v, idx, width) == Ok((Integer(i), idx + 1 + width))
  {
    InRange(width, 0);
    hide GetFromVector;
  }

  lemma SignedAt(v: Text, idx: nat, width: nat)
    requires |v| <= MAX_SIZE && idx < |v| && width in {1, 2, 4, 8} && v[idx] == 0xD0 + WidthOf(width)
    ensures M.Decode(v, idx) == M.ReadSigned(v, idx, width)
  {
    Room(v, idx);
    hide M.DecodeArray, M.DecodeObject, GetString, GetFloat, M.ReadUnsigned, M.ReadString, M.ReadSigned;
  }

  lemma DecodeNumber(v: Text, idx: nat, width: nat, bits: nat)
    requires |v| <= MAX_SIZE && IsItem(Number(width, bits)) && At(v, idx, TextOf(Number(width, bits)))
    ensures M.Decode(v, idx) == Ok((ValueOf(Number(width, bits)), idx + 1 + width))
  {
    InRange(width, bits);
    hide BigEndian, Range, M.DecodeArray, M.DecodeObject, GetString, M.ReadUnsigned, M.ReadString, M.ReadSigned, GetFromVector,
      WidenSingle;
    AfterHead(v, idx, if width == 4 then 0xCA else 0xCB, BigEndian(bits, width));
    Room(v, idx);
    GetWritten(v, idx, bits, width);
  }

  lemma DecodeFixed(v: Text, idx: nat, item: Item)
    requires |v| <= MAX_SIZE && IsItem(item) && (item.Nil? || item.Bool? || item.Fixint?) && At(v, idx, TextOf(item))
    ensures M.Decode(v, idx) == Ok((ValueOf(item), idx + 1))
  {
    assert v[idx] == v[idx..idx + 1][0];
    Room(v, idx);
    hide M.DecodeArray, M.DecodeObject, GetString, GetFloat, M.ReadUnsigned, M.ReadString, M.ReadSigned;
  }

  /** The bytes of a length and what follows them. */
  lemma HeadBytes(v: Text, idx: nat, kind: Kind, form: Form, n: nat, rest: Text)
    requires |v| <= MAX_SIZE && Fits(kind, form, n) && At(v, idx, HeadText(kind, form, n) + rest)
    ensures idx + |HeadText(kind, form, n)| <= |v| && At(v, idx + |HeadText(kind, form, n)|, rest)
    ensures idx < |v| && v[idx] == HeadByte(kind, form, n) && LengthFits(|v|, 1, idx)
    ensures var width := if form.Short? then 0 else form.width;
      |HeadText(kind, form, n)| == 1 + width && At(v, idx + 1 + width, rest) &&
      (form.Wide? ==> GetFromVector(v, idx, width) == Ok(n))
  {
    hide BigEndian, Range;
    var length := if form.Short? then [] else BigEndian(n, form.width);
    assert HeadText(kind, form, n) + rest == [HeadByte(kind, form, n)] + (length + rest);
    AfterHead(v, idx, HeadByte(kind, form, n), length + rest);
    AtSplit(v, idx + 1, length, rest);
    Room(v, idx);
    if form.Wide? { GetWritten(v, idx, n, form.width); }
  }

  lemma DecodeStr(v: Text, idx: nat, form: Form, s: Text)
    requires |v| <= MAX_SIZE && Fits(Chars, form, |s|) && At(v, idx, HeadText(Chars, form, |s|) + s)
    ensures M.Decode(v, idx) == Ok((String(s), idx + |HeadText(Chars, form, |s|) + s|))
  {
    HeadBytes(v, idx, Chars, form, |s|, s);
    hide BigEndian, Range, M.DecodeArray, M.DecodeObject, GetFloat, M.ReadUnsigned, M.ReadSigned, GetFromVector, At, HeadText,
      GetString;
    GetWrittenString(v, idx + |HeadText(Chars, form, |s|)|, s);
  }

  lemma FirstOf(v: Text, idx: nat, items: seq<Item>)
    requires AreItems(items) && items != [] && At(v, idx, Texts(items))
    ensures AreItems(items[1..]) && At(v, idx, TextOf(items[0])) && At(v, idx + |TextOf(items[0])|, Texts(items[1..]))
    ensures |Texts(items)| == |TextOf(items[0])| + |Texts(items[1..])|
  {
    hide TextOf, IsItem;
    AtSplit(v, idx, TextOf(items[0]), Texts(items[1..]));
  }

  lemma TextValue(item: Item)
    requires IsItem(item)
    ensures item.Str? <==> ValueOf(item).String?
    ensures item.Str? ==> ValueOf(item) == String(item.s)
  {
    hide Values, Members, WidenSingle;
  }

  lemma {:induction false} DecodeList(v: Text, idx: nat, items: seq<Item>, acc: seq<Json>)
    requires |v| <= MAX_SIZE && AreItems(items) && At(v, idx, Texts(items))
    ensures M.DecodeElems(v, idx, |items|, acc) == Ok((acc + Values(items), idx + |Texts(items)|))
    decreases items, 0
  {
    hide M.Decode, IsItem, TextOf, ValueOf;
    if items != [] {
      FirstOf(v, idx, items);
      DecodeItem(v, idx, items[0]);
      DecodeList(v, idx + |TextOf(items[0])|, items[1..], acc + [ValueOf(items[0])]);
      assert acc + [ValueOf(items[0])] + Values(items[1..]) == acc + Values(items);
    } else {
      assert acc + [] == acc;
    }
  }

  lemma FirstPair(v: Text, idx: nat, items: seq<Item>)
    requires |v| <= MAX_SIZE && AreItems(items) && HasShape(Pairs, items) && items != [] && At(v, idx, Texts(items))
    ensures |items| >= 2 && AreItems(items[2..]) && HasShape(Pairs, items[2..])
    ensures var next := idx + |TextOf(items[0])|; var end := next + |TextOf(items[1])|;
      M.Decode(v, idx) == Ok((String(items[0].s), next)) && M.Decode(v, next) == Ok((ValueOf(items[1]), end)) &&
      At(v, end, Texts(items[2..])) && idx + |Texts(items)| == end + |Texts(items[2..])|
    decreases items, 0
  {
    hide M.Decode, IsItem, TextOf, ValueOf, Texts;
    assert items[1..][0] == items[1] && items[1..][1..] == items[2..];
    FirstOf(v, idx, items);
    FirstOf(v, idx + |TextOf(items[0])|, items[1..]);
    DecodeItem(v, idx, items[0]);
    TextValue(items[0]);
    DecodeItem(v, idx + |TextOf(items[0])|, items[1]);
  }

  lemma MembersStep(acc: map<Text, Json>, items: seq<Item>)
    requires AreItems(items) && HasShape(Pairs, items) && items != []
    ensures |items| >= 2 && AreItems(items[2..]) && HasShape(Pairs, items[2..])
    ensures acc + Members(items) == acc[items[0].s := ValueOf(items[1])] + Members(items[2..])
  {
    hide IsItem, ValueOf;
    assert Members(items) == map[items[0].s := ValueOf(items[1])] + Members(items[2..]);
    hide Members;
    MergeFirst(acc, items[0].s, ValueOf(items[1]), Members(items[2..]));
  }

  lemma MergeFirst(acc: map<Text, Json>, key: Text, x: Json, rest: map<Text, Json>)
    ensures acc + (map[key := x] + rest) == acc[key := x] + rest
  {
  }

  lemma {:induction false} DecodeDict(v: Text, idx: nat, items: seq<Item>, acc: map<Text, Json>)
    requires |v| <= MAX_SIZE && AreItems(items) && HasShape(Pairs, items) && At(v, idx, Texts(items))
    ensures M.DecodeMembers(v, idx, |items| / 2, acc) == Ok((acc + Members(items), idx + |Texts(items)|))
    decreases items, 1
  {
    hide M.Decode, IsItem, TextOf, ValueOf;
    if items != [] {
      FirstPair(v, idx, items);
      MembersStep(acc, items);
      var end := idx + |TextOf(items[0])| + |TextOf(items[1])|;
      DecodeDict(v, end, items[2..], acc[items[0].s := ValueOf(items[1])]);
    } else {
      assert acc + map[] == acc;
    }
  }

  lemma {:induction false} DecodeGroup(v: Text, idx: nat, item: Item)
    requires |v| <= MAX_SIZE && IsItem(item) && item.Group? && At(v, idx, TextOf(item))
    ensures M.Decode(v, idx) == Ok((ValueOf(item), idx + |TextOf(item)|))
    decreases item, 0
  {
    hide *;
    GroupParts(item);
    var items, form, n := item.items, item.form, Count(item.kind, item.items);
    HeadBytes(v, idx, item.kind, form, n, Texts(items));
    GroupAt(v, idx, item.kind, form, n);
    var after := idx + |HeadText(item.kind, form, n)|;
    if item.kind.Elements? {
      DecodeList(v, after, items, []);
      ElementsEnd(v, after, items);
    } else {
      DecodeDict(v, after, items, map[]);
      PairsEnd(v, after, items);
    }
  }

  lemma GroupParts(item: Item)
    requires IsItem(item) && item.Group?
    ensures !item.kind.Chars? && AreItems(item.items) && HasShape(item.kind, item.items)
    ensures Fits(item.kind, item.form, Count(item.kind, item.items))
    ensures Count(item.kind, item.items) == if item.kind.Pairs? then |item.items| / 2 else |item.items|
    ensures TextOf(item) == HeadText(item.kind, item.form, Count(item.kind, item.items)) + Texts(item.items)
    ensures ValueOf(item) == if item.kind.Pairs? then Object(Members(item.items)) else Array(Values(item.items))
  {
    hide HeadText, Texts, Values, Members;
  }

  lemma ElementsEnd(v: Text, after: nat, items: seq<Item>)
    requires AreItems(items) && after <= |v|
    requires M.DecodeElems(v, after, |items|, []) == Ok(([] + Values(items), after + |Texts(items)|))
    ensures M.DecodeArray(v, after, |items|) == Ok((Array(Values(items)), after + |Texts(items)|))
  {
    hide M.DecodeElems, Values, Texts;
    assert [] + Values(items) == Values(items);
  }

  lemma PairsEnd(v: Text, after: nat, items: seq<Item>)
    requires AreItems(items) && HasShape(Pairs, items) && after <= |v|
    requires M.DecodeMembers(v, after, |items| / 2, map[]) == Ok((map[] + Members(items), after + |Texts(items)|))
    ensures M.DecodeObject(v, after, |items| / 2) == Ok((Object(Members(items)), after + |Texts(items)|))
  {
    hide M.DecodeMembers, Members, Texts;
    assert map[] + Members(items) == Members(items);
  }

  /** The head of a group is followed by its items. */
  lemma GroupAt(v: Text, idx: nat, kind: Kind, form: Form, n: nat)
    requires |v| <= MAX_SIZE && idx < |v| && !kind.Chars? && Fits(kind, form, n) && v[idx] == HeadByte(kind, form, n)
    requires form.Wide? ==> GetFromVector(v, idx, form.width) == Ok(n)
    requires idx + |HeadText(kind, form, n)| <= |v|
    ensures var after := idx + |HeadText(kind, form, n)|;
      M.Decode(v, idx) == if kind.Elements? then M.DecodeArray(v, after, n) else M.DecodeObject(v, after, n)
  {
    Room(v, idx);
    hide M.DecodeArray, M.DecodeObject, GetString, GetFloat, M.ReadUnsigned, M.ReadString, M.ReadSigned, GetFromVector,
      BigEndian, Range;
  }

  /** An item standing anywhere in a vector is read as its value, up to exactly its end. */
  lemma {:induction false} DecodeItem(v: Text, idx: nat, item: Item)
    requires |v| <= MAX_SIZE && IsItem(item) && At(v, idx, TextOf(item))
    ensures M.Decode(v, idx) == Ok((ValueOf(item), idx + |TextOf(item)|))
    decreases item, 1
  {
    hide M.Decode, At, BigEndian, Texts, Values, Members, HeadText;
    match item
    case Positive(width, n) => DecodeUnsigned(v, idx, width, n);
    case Signed(width, i) => DecodeSigned(v, idx, width, i);
    case Number(width, bits) => DecodeNumber(v, idx, width, bits);
    case Str(form, s) => DecodeStr(v, idx, form, s);
    case Group(_, _, _) => DecodeGroup(v, idx, item);
    case _ => DecodeFixed(v, idx, item);
  }

  // ----- and nothing else is read

  lemma NumberFor(v: Text, idx: nat) returns (item: Item)
    requires |v| <= MAX_SIZE && M.Decode(v, idx).Ok? && (0xCA <= v[idx] <= 0xD3)
    ensures IsItem(item) && At(v, idx, TextOf(item))
  {
    hide BigEndian, At, M.DecodeArray, M.DecodeObject, GetString, M.ReadString, WidenSingle, GetFromVector;
    var b := v[idx];
    var width := if b in {0xCC, 0xD0} then 1 else if b in {0xCD, 0xD1} then 2 else if b in {0xCA, 0xCE, 0xD2} then 4 else 8;
    assert GetFromVector(v, idx, width).Ok?;
    hide M.Decode;
    WideBytes(v, idx, width);
    var n := GetFromVector(v, idx, width).value;
    if b <= 0xCB {
      item := Number(width, n);
    } else if b <= 0xCF {
      item := Positive(width, n);
    } else {
      item := SignedFor(v, idx, width, n);
    }
  }

  /** The bytes of a number of the upper half are those of the negative number. */
  lemma SignedFor(v: Text, idx: nat, width: nat, n: nat) returns (item: Item)
    requires idx < |v| && width in {1, 2, 4, 8} && v[idx] == 0xD0 + WidthOf(width) && n < Range(width)
    requires At(v, idx, [v[idx]] + BigEndian(n, width))
    ensures IsItem(item) && At(v, idx, TextOf(item))
  {
    hide BigEndian, At;
    var i: int := if 2 * n < Range(width) then n else n - Range(width);
    BigEndianWraps(n, width);
    EvenRange(width);
    item := Signed(width, i);
  }

  lemma EvenRange(width: nat)
    requires width > 0
    ensures Range(width) % 2 == 0
  {
  }

  lemma {:induction false} BigEndianWraps(n: int, width: nat)
    ensures BigEndian(n - Range(width), width) == BigEndian(n, width)
    decreases width
  {
    if width > 0 {
      var r := Range(width - 1);
      assert (n - 256 * r) / 256 == n / 256 - r && (n - 256 * r) % 256 == n % 256;
      BigEndianWraps(n / 256, width - 1);
    }
  }

  /** The form of the head at `idx` and the length it holds. */
  lemma FormFor(v: Text, idx: nat, kind: Kind, short: byte, shorts: nat, wide: byte) returns (form: Form, n: nat)
    requires idx < |v| && (kind, short, shorts, wide) in {(Chars, 0xA0, 32, 0xD9), (Elements, 0x90, 16, 0xDC), (Pairs, 0x80, 16, 0xDE)}
    requires short <= v[idx] < short + shorts || wide <= v[idx] <= wide + if kind.Chars? then 2 else 1
    requires v[idx] >= wide ==> GetFromVector(v, idx, HeadWidth(kind, v[idx])).Ok?
    ensures Fits(kind, form, n) && At(v, idx, HeadText(kind, form, n)) && form == (if v[idx] < wide then Short else Wide(HeadWidth(kind, v[idx])))
    ensures n == if v[idx] < wide then v[idx] - short else GetFromVector(v, idx, HeadWidth(kind, v[idx])).value
    ensures |HeadText(kind, form, n)| == if v[idx] < wide then 1 else 1 + HeadWidth(kind, v[idx])
  {
    hide BigEndian, At, GetFromVector, Range;
    if v[idx] < wide {
      form, n := Short, v[idx] - short;
      SingleByte(v, idx);
      assert [v[idx]] + [] == [v[idx]];
    } else {
      var width := HeadWidth(kind, v[idx]);
      form, n := Wide(width), GetFromVector(v, idx, width).value;
      WideBytes(v, idx, width);
    }
  }

  function HeadWidth(kind: Kind, b: byte): nat {
    if b == 0xD9 then 1 else if b in {0xDA, 0xDC, 0xDE} then 2 else 4
  }

  /** What the decoder does at the head of a string, an array or a map. */
  lemma StrAt(v: Text, idx: nat)
    requires |v| <= MAX_SIZE && M.Decode(v, idx).Ok? && (0xA0 <= v[idx] <= 0xBF || 0xD9 <= v[idx] <= 0xDB)
    ensures var wide := v[idx] >= 0xD9; var width := HeadWidth(Chars, v[idx]);
      (wide ==> GetFromVector(v, idx, width).Ok?) &&
      M.Decode(v, idx) == GetString(v, if wide then GetFromVector(v, idx, width).value else v[idx] - 0xA0,
        idx + 1 + if wide then width else 0)
  {
    hide M.DecodeArray, M.DecodeObject, GetString, GetFloat, M.ReadUnsigned, M.ReadSigned, GetFromVector;
  }

  lemma StrFor(v: Text, idx: nat) returns (item: Item)
    requires |v| <= MAX_SIZE && M.Decode(v, idx).Ok? && (0xA0 <= v[idx] <= 0xBF || 0xD9 <= v[idx] <= 0xDB)
    ensures IsItem(item) && At(v, idx, TextOf(item))
  {
    hide M.Decode, GetFromVector, HeadText;
    StrAt(v, idx);
    var form, n := FormFor(v, idx, Chars, 0xA0, 32, 0xD9);
    var next := idx + |HeadText(Chars, form, n)|;
    var s := v[next..next + n];
    AtJoin(v, idx, HeadText(Chars, form, n), s);
    item := Str(form, s);
  }

  /** The item at `idx`, where decoding it ends, and its value. */
  lemma NextItem(v: Text, idx: nat) returns (item: Item)
    requires |v| <= MAX_SIZE && M.Decode(v, idx).Ok?
    ensures IsItem(item) && At(v, idx, TextOf(item)) && idx < |v|
    ensures M.Decode(v, idx) == Ok((ValueOf(item), idx + |TextOf(item)|))
    ensures item.Str? <==> AsText(M.Decode(v, idx).value.0).Ok?
    decreases |v| - idx, 1, 0
  {
    item := ItemFor(v, idx);
    hide M.Decode, IsItem, TextOf, ValueOf;
    DecodeItem(v, idx, item);
    TextValue(item);
  }

  lemma Before(v: Text, idx: nat, item: Item, items: seq<Item>)
    requires IsItem(item) && AreItems(items) && At(v, idx, TextOf(item)) && At(v, idx + |TextOf(item)|, Texts(items))
    ensures AreItems([item] + items) && At(v, idx, Texts([item] + items))
  {
    hide IsItem, TextOf, At;
    AtJoin(v, idx, TextOf(item), Texts(items));
    assert ([item] + items)[1..] == items;
  }

  lemma NoMore(v: Text, idx: nat)
    requires idx <= |v|
    ensures AreItems([]) && HasShape(Pairs, []) && At(v, idx, Texts([]))
  {
  }

  lemma {:induction false} ListFor(v: Text, idx: nat, n: nat, acc: seq<Json>) returns (items: seq<Item>)
    requires |v| <= MAX_SIZE && idx <= |v| && M.DecodeElems(v, idx, n, acc).Ok?
    ensures AreItems(items) && |items| == n && At(v, idx, Texts(items))
    decreases |v| - idx, 2, n
  {
    hide M.Decode, At, AreItems, Texts, TextOf, IsItem, ValueOf;
    if n == 0 {
      items := [];
      NoMore(v, idx);
    } else {
      var item := NextItem(v, idx);
      items := ListFor(v, idx + |TextOf(item)|, n - 1, acc + [ValueOf(item)]);
      Before(v, idx, item, items);
      items := [item] + items;
    }
  }

  lemma {:induction false} DictFor(v: Text, idx: nat, n: nat, acc: map<Text, Json>) returns (items: seq<Item>)
    requires |v| <= MAX_SIZE && idx <= |v| && M.DecodeMembers(v, idx, n, acc).Ok?
    ensures AreItems(items) && HasShape(Pairs, items) && |items| == 2 * n && At(v, idx, Texts(items))
    decreases |v| - idx, 2, n
  {
    hide M.Decode, At, AreItems, Texts, TextOf, IsItem, ValueOf;
    if n == 0 {
      items := [];
      NoMore(v, idx);
    } else {
      var key := NextItem(v, idx);
      var next := idx + |TextOf(key)|;
      var x := NextItem(v, next);
      items := DictFor(v, next + |TextOf(x)|, n - 1, acc[AsText(ValueOf(key)).value := ValueOf(x)]);
      Before(v, next, x, items);
      Before(v, idx, key, [x] + items);
      PairShape(key, x, items);
      items := [key] + ([x] + items);
    }
  }

  lemma PairShape(key: Item, x: Item, items: seq<Item>)
    requires key.Str? && HasShape(Pairs, items)
    ensures HasShape(Pairs, [key] + ([x] + items))
  {
    var more := [key] + ([x] + items);
    forall i | 0 <= i < |more| && i % 2 == 0 ensures more[i].Str? {
      assert i >= 2 ==> more[i] == items[i - 2];
    }
  }

  /** The bytes of a group and its length are those the decoder has read. */
  lemma GroupRead(v: Text, idx: nat, kind: Kind)
    requires |v| <= MAX_SIZE && M.Decode(v, idx).Ok?
    requires if kind.Elements? then 0x90 <= v[idx] <= 0x9F || 0xDC <= v[idx] <= 0xDD
      else kind.Pairs? && (0x80 <= v[idx] <= 0x8F || 0xDE <= v[idx] <= 0xDF)
    ensures var wide := v[idx] >= 0xDC; var width := HeadWidth(kind, v[idx]);
      (wide ==> GetFromVector(v, idx, width).Ok?) &&
      var n := if wide then GetFromVector(v, idx, width).value else v[idx] % 16;
      var after := idx + 1 + if wide then width else 0;
      after <= |v| && M.Decode(v, idx) == if kind.Elements? then M.DecodeArray(v, after, n) else M.DecodeObject(v, after, n)
  {
    hide M.DecodeArray, M.DecodeObject, GetString, GetFloat, M.ReadUnsigned, M.ReadSigned, M.ReadString, GetFromVector;
  }

  lemma {:induction false} GroupFor(v: Text, idx: nat, kind: Kind) returns (item: Item)
    requires |v| <= MAX_SIZE && M.Decode(v, idx).Ok?
    requires if kind.Elements? then 0x90 <= v[idx] <= 0x9F || 0xDC <= v[idx] <= 0xDD
      else kind.Pairs? && (0x80 <= v[idx] <= 0x8F || 0xDE <= v[idx] <= 0xDF)
    ensures IsItem(item) && At(v, idx, TextOf(item))
    decreases |v| - idx, 0, 0
  {
    hide *;
    GroupRead(v, idx, kind);
    if kind.Elements? {
      var form, n := FormFor(v, idx, Elements, 0x90, 16, 0xDC);
      var after := idx + |HeadText(kind, form, n)|;
      ArrayRead(v, after, n);
      var items := ListFor(v, after, n, []);
      item := MakeGroup(v, idx, kind, form, n, items);
    } else {
      var form, n := FormFor(v, idx, Pairs, 0x80, 16, 0xDE);
      var after := idx + |HeadText(kind, form, n)|;
      ObjectRead(v, after, n);
      var items := DictFor(v, after, n, map[]);
      item := MakeGroup(v, idx, kind, form, n, items);
    }
  }

  lemma ArrayRead(v: Text, after: nat, n: nat)
    requires after <= |v| && M.DecodeArray(v, after, n).Ok?
    ensures M.DecodeElems(v, after, n, []).Ok?
  {
  }

  lemma ObjectRead(v: Text, after: nat, n: nat)
    requires after <= |v| && M.DecodeObject(v, after, n).Ok?
    ensures M.DecodeMembers(v, after, n, map[]).Ok?
  {
  }

  lemma MakeGroup(v: Text, idx: nat, kind: Kind, form: Form, n: nat, items: seq<Item>) returns (item: Item)
    requires !kind.Chars? && AreItems(items) && (kind.Pairs? ==> HasShape(Pairs, items))
    requires |items| == (if kind.Pairs? then 2 * n else n) && Fits(kind, form, n)
    requires At(v, idx, HeadText(kind, form, n)) && At(v, idx + |HeadText(kind, form, n)|, Texts(items))
    ensures IsItem(item) && At(v, idx, TextOf(item))
  {
    hide HeadText, Texts, At, Fits;
    item := Group(kind, form, items);
    AtJoin(v, idx, HeadText(kind, form, n), Texts(items));
  }

  lemma FixedFor(v: Text, idx: nat) returns (item: Item)
    requires |v| <= MAX_SIZE && M.Decode(v, idx).Ok?
    requires v[idx] <= 0x7F || v[idx] >= 0xE0 || v[idx] in {0xC0, 0xC2, 0xC3}
    ensures IsItem(item) && At(v, idx, TextOf(item))
  {
    var b: int := v[idx];
    SingleByte(v, idx);
    item := if b == 0xC0 then Nil else if b <= 0x7F then Fixint(b) else if b >= 0xE0 then Fixint(b - 0x100) else Bool(b == 0xC3);
  }

  lemma OtherBytes(v: Text, idx: nat)
    requires M.Decode(v, idx).Ok?
    ensures idx < |v| && v[idx] !in {0xC1, 0xC4, 0xC5, 0xC6, 0xC7, 0xC8, 0xC9, 0xD4, 0xD5, 0xD6, 0xD7, 0xD8}
  {
  }

  lemma {:induction false} ItemFor(v: Text, idx: nat) returns (item: Item)
    requires |v| <= MAX_SIZE && M.Decode(v, idx).Ok?
    ensures IsItem(item) && At(v, idx, TextOf(item))
    decreases |v| - idx, 0, 1
  {
    OtherBytes(v, idx);
    hide M.Decode, At, TextOf, IsItem;
    var b := v[idx];
    if b <= 0x7F || b >= 0xE0 || b in {0xC0, 0xC2, 0xC3} {
      item := FixedFor(v, idx);
    } else if b <= 0x8F || b >= 0xDE {
      item := GroupFor(v, idx, Pairs);
    } else if b <= 0x9F || b >= 0xDC {
      item := GroupFor(v, idx, Elements);
    } else if b <= 0xBF || b >= 0xD9 {
      item := StrFor(v, idx);
    } else {
      item := NumberFor(v, idx);
    }
  }

  /** The item stands at `idx`, is read as `j` and ends at `next`. */
  predicate Stands(v: Text, idx: nat, item: Item, j: Json, next: nat) {
    IsItem(item) && At(v, idx, TextOf(item)) && ValueOf(item) == j && next == idx + |TextOf(item)|
  }

  /** `from_msgpack` reads `j` up to `next` exactly if an item with that value stands there. */
  lemma DecodeIff(v: Text, idx: nat, j: Json, next: nat)
    requires |v| <= MAX_SIZE
    ensures M.Decode(v, idx) == Ok((j, next)) <==> exists item :: Stands(v, idx, item, j, next)
  {
    hide M.Decode, IsItem, TextOf, ValueOf, At;
    forall item | Stands(v, idx, item, j, next) ensures M.Decode(v, idx) == Ok((j, next)) {
      DecodeItem(v, idx, item);
    }
    if M.Decode(v, idx) == Ok((j, next)) {
      var item := NextItem(v, idx);
      assert Stands(v, idx, item, j, next);
    }
  }

  // ----- what the encoder chooses

  /** The encoder takes the shortest of the formats for a number. */
  lemma ShortestUnsigned(n: nat) returns (item: Item)
    requires n < TWO_TO_THE_64
    ensures IsItem(item) && TextOf(item) == M.EncodeUnsigned(n) && ValueOf(item) == Unsigned(n)
    ensures forall width: nat :: IsItem(Positive(width, n)) ==> |M.EncodeUnsigned(n)| <= 1 + width
    ensures n < 128 ==> item.Fixint?
  {
    Ranges();
    hide Range;
    item := if n < 128 then Fixint(n) else Positive(if n <= 0xFF then 1 else if n <= 0xFFFF then 2 else if n <= 0xFFFF_FFFF then 4 else 8, n);
    OneByte(n);
    hide BigEndian;
  }

  lemma ShortestNegative(i: int) returns (item: Item)
    requires -TWO_TO_THE_63 <= i < 0
    ensures IsItem(item) && TextOf(item) == M.EncodeNegative(i) && ValueOf(item) == Integer(i)
    ensures forall width: nat :: IsItem(Signed(width, i)) ==> |M.EncodeNegative(i)| <= 1 + width
    ensures i >= -32 ==> item.Fixint?
  {
    Ranges();
    hide Range;
    item := if i >= -32 then Fixint(i)
      else Signed(if i >= -0x80 then 1 else if i >= -0x8000 then 2 else if i >= -0x8000_0000 then 4 else 8, i);
    OneByte(i);
    hide BigEndian;
  }

  lemma ShortestHead(kind: Kind, n: nat) returns (form: Form)
    requires n < 0x1_0000_0000
    ensures Fits(kind, form, n)
    ensures HeadText(kind, form, n) == match kind
      case Chars => M.StringHead(n)
      case Elements => M.ContainerHead(0x90, 0xDC, n)
      case Pairs => M.ContainerHead(0x80, 0xDE, n)
    ensures forall other :: Fits(kind, other, n) ==> |HeadText(kind, form, n)| <= |HeadText(kind, other, n)|
  {
    Ranges();
    hide BigEndian, Range;
    form := if n < 16 || (kind.Chars? && n < 32) then Short
      else if kind.Chars? && n <= 0xFF then Wide(1) else if n <= 0xFFFF then Wide(2) else Wide(4);
  }

  /** From 2^32 on there is no head at all. */
  lemma NoHead(n: nat)
    requires n >= 0x1_0000_0000
    ensures M.StringHead(n) == [] && M.ContainerHead(0x90, 0xDC, n) == [] && M.ContainerHead(0x80, 0xDE, n) == []
  {
  }
}
