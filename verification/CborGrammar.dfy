/**
 Which byte strings `from_cbor` reads, and as what: the items of section 2.1 and 2.2 of
 RFC 7049 that it supports, with heads of any width and lengths definite or not. Decoding
 succeeds exactly where such an item stands.
 */
module CborGrammar {
  import opened Bytes
  import opened Results
  import opened Json
  import opened Binary
  import C = Cbor

  /** How a head holds its number: in itself, or in `width` bytes after it. */
  datatype Form = Short | Wide(width: nat)

  datatype Group = Chunks | Elements | Pairs

  datatype Item =
    | Literal(b: byte)
    | Positive(form: Form, n: nat)
    | Negative(form: Form, n: nat)
    | Number(width: nat, bits: nat)
    | Chars(form: Form, s: Text)
    | Counted(group: Group, form: Form, items: seq<Item>)
    | Open(group: Group, items: seq<Item>)

  const BREAK: byte := 0xFF

  // ----- the bytes of an item

  predicate Fits(form: Form, n: nat) {
    match form
    case Short => n < 0x18
    case Wide(width) => width in {1, 2, 4, 8} && n < Range(width)
  }

  /** What a head adds to the type for its form. */
  function FormByte(form: Form, n: nat): nat {
    match form
    case Short => n
    case Wide(width) => if width == 1 then 0x18 else if width == 2 then 0x19 else if width == 4 then 0x1A else 0x1B
  }

  function HeadText(base: byte, form: Form, n: nat): Text
    requires base <= 0xA0 && Fits(form, n)
  {
    [base + FormByte(form, n)] + if form.Short? then [] else BigEndian(n, form.width)
  }

  /** The number in the head of a group. */
  function Count(group: Group, items: seq<Item>): nat {
    if group.Pairs? then |items| / 2 else |items|
  }

  function Base(group: Group): byte {
    match group
    case Chunks => 0x60
    case Elements => 0x80
    case Pairs => 0xA0
  }

  predicate IsItem(item: Item)
    decreases item
  {
    match item
    case Literal(b) => b in {0xF4, 0xF5, 0xF6}
    case Positive(form, n) => Fits(form, n)
    case Negative(form, n) => Fits(form, n)
    case Number(width, bits) => width in {2, 4, 8} && bits < Range(width)
    case Chars(form, s) => Fits(form, |s|)
    case Counted(group, form, items) => !group.Chunks? && Fits(form, Count(group, items)) && HasShape(group, items) && forall i :: 0 <= i < |items| ==> IsItem(items[i])
    case Open(group, items) => HasShape(group, items) && forall i :: 0 <= i < |items| ==> IsItem(items[i])
  }

  /** Chunks and keys are strings, and each key has a value. */
  predicate HasShape(group: Group, items: seq<Item>) {
    && (group.Chunks? ==> forall i :: 0 <= i < |items| ==> IsText(items[i]))
    && (group.Pairs? ==> |items| % 2 == 0 && forall i :: 0 <= i < |items| && i % 2 == 0 ==> IsText(items[i]))
  }

  predicate AreItems(items: seq<Item>) {
    forall i :: 0 <= i < |items| ==> IsItem(items[i])
  }

  predicate IsText(item: Item) {
    item.Chars? || (item.Open? && item.group.Chunks?)
  }

  function TextOf(item: Item): Text
    requires IsItem(item)
    decreases item, 0
  {
    match item
    case Literal(b) => [b]
    case Positive(form, n) => HeadText(0x00, form, n)
    case Negative(form, n) => HeadText(0x20, form, n)
    case Number(width, bits) => [if width == 2 then 0xF9 else if width == 4 then 0xFA else 0xFB] + BigEndian(bits, width)
    case Chars(form, s) => HeadText(0x60, form, |s|) + s
    case Counted(group, form, items) => HeadText(Base(group), form, Count(group, items)) + Texts(items)
    case Open(group, items) => [Base(group) + 0x1F] + Texts(items) + [BREAK]
  }

  function Texts(items: seq<Item>): Text
    requires AreItems(items)
    decreases items, 0
  {
    if items == [] then [] else TextOf(items[0]) + Texts(items[1..])
  }

  // ----- what an item is read as

  function ValueOf(item: Item): Json
    requires IsItem(item)
    decreases item, 0
  {
    match item
    case Literal(b) => if b == 0xF6 then Null else Boolean(b == 0xF5)
    case Positive(_, n) =>
      assert n < TWO_TO_THE_64 by { FitsBound(item.form, n); }
      Unsigned(n)
    case Negative(_, n) =>
      assert n < TWO_TO_THE_64 by { FitsBound(item.form, n); }
      Integer(if n < TWO_TO_THE_63 then -1 - n else TWO_TO_THE_64 - 1 - n)
    case Number(width, bits) => NumberValue(width, bits)
    case Chars(_, s) => String(s)
    case Counted(group, _, items) => GroupValue(group, items)
    case Open(group, items) => GroupValue(group, items)
  }

  /** Half, single or double precision; see `Widening`. */
  function NumberValue(width: nat, bits: nat): Json
    requires width in {2, 4, 8} && bits < Range(width)
  {
    Ranges();
    NewFloat(if width == 8 then bits else if width == 4 then WidenSingle(bits) else WidenHalf(bits))
  }

  lemma FitsBound(form: Form, n: nat)
    requires Fits(form, n)
    ensures n < TWO_TO_THE_64
  {
    Ranges();
  }

  function GroupValue(group: Group, items: seq<Item>): Json
    requires AreItems(items) && HasShape(group, items)
    decreases items, 1
  {
    match group
    case Chunks => String(Joined(items))
    case Elements => Array(Values(items))
    case Pairs => Object(Members(items))
  }

  function Values(items: seq<Item>): seq<Json>
    requires AreItems(items)
    decreases items, 0
  {
    if items == [] then [] else [ValueOf(items[0])] + Values(items[1..])
  }

  /** The texts one after the other. */
  function Joined(items: seq<Item>): Text
    requires AreItems(items) && HasShape(Chunks, items)
    decreases items, 0
  {
    if items == [] then [] else ItemText(items[0]) + Joined(items[1..])
  }

  function ItemText(item: Item): Text
    requires IsItem(item) && IsText(item)
    decreases item, 1
  {
    if item.Chars? then item.s else Joined(item.items)
  }

  /** The members of alternating keys and values: the last value of a key counts. */
  function Members(items: seq<Item>): map<Text, Json>
    requires AreItems(items) && HasShape(Pairs, items)
    decreases items, 0
  {
    if items == [] then map[]
    else map[ItemText(items[0]) := ValueOf(items[1])] + Members(items[2..])
  }

  // ----- every item is read as its value

  lemma HeadBytes(v: Text, idx: nat, base: byte, form: Form, n: nat)
    requires base <= 0xA0 && Fits(form, n) && At(v, idx, HeadText(base, form, n))
    ensures idx < |v| && v[idx] == base + FormByte(form, n)
    ensures form.Wide? ==> At(v, idx + 1, BigEndian(n, form.width)) && |HeadText(base, form, n)| == 1 + form.width
    ensures form.Short? ==> |HeadText(base, form, n)| == 1
  {
    hide BigEndian;
    var head := [base + FormByte(form, n)];
    AtSplit(v, idx, head, if form.Short? then [] else BigEndian(n, form.width));
    assert v[idx] == v[idx..idx + 1][0];
  }

  lemma ReadHeadText(v: Text, idx: nat, base: byte, form: Form, n: nat)
    requires base <= 0xA0 && Fits(form, n) && At(v, idx, HeadText(base, form, n))
    ensures idx < |v| && base <= v[idx] <= base + 0x1B
    ensures C.ReadHead(v, idx, v[idx] - base) == Ok((n, idx + |HeadText(base, form, n)|))
  {
    HeadBytes(v, idx, base, form, n);
    hide BigEndian, GetFromVector, HeadText, Range, At;
    if form.Wide? { GetWritten(v, idx, n, form.width); }
  }

  lemma DecodeLeaf(v: Text, idx: nat, item: Item)
    requires |v| <= MAX_SIZE && IsItem(item) && !item.Counted? && !item.Open? && At(v, idx, TextOf(item))
    ensures C.Decode(v, idx) == Ok((ValueOf(item), idx + |TextOf(item)|))
  {
    hide C.DecodeElems, C.DecodeMembers, C.DecodeChunks, C.ReadHead, GetString, BigEndian, HeadText, GetFloat, Range;
    match item
    case Literal(b) => assert v[idx] == v[idx..idx + 1][0];
    case Positive(form, n) => ReadHeadText(v, idx, 0x00, form, n);
    case Negative(form, n) => ReadHeadText(v, idx, 0x20, form, n);
    case Number(width, bits) => DecodeNumber(v, idx, width, bits);
    case Chars(form, s) => DecodeChars(v, idx, form, s);
  }

  lemma DecodeNumber(v: Text, idx: nat, width: nat, bits: nat)
    requires width in {2, 4, 8} && bits < Range(width) && At(v, idx, TextOf(Number(width, bits)))
    ensures C.Decode(v, idx) == Ok((NumberValue(width, bits), idx + |TextOf(Number(width, bits))|))
  {
    hide C.DecodeElems, C.DecodeMembers, C.DecodeChunks, C.ReadHead, GetString, BigEndian, Range;
    var head: Text := [if width == 2 then 0xF9 else if width == 4 then 0xFA else 0xFB];
    AtSplit(v, idx, head, BigEndian(bits, width));
    assert v[idx] == v[idx..idx + 1][0] == head[0];
    GetWritten(v, idx, bits, width);
    Ranges();
  }

  lemma DecodeChars(v: Text, idx: nat, form: Form, s: Text)
    requires |v| <= MAX_SIZE && Fits(form, |s|) && At(v, idx, HeadText(0x60, form, |s|) + s)
    ensures C.Decode(v, idx) == Ok((String(s), idx + |HeadText(0x60, form, |s|) + s|))
  {
    hide C.DecodeElems, C.DecodeMembers, C.DecodeChunks, C.ReadHead, GetString, BigEndian, HeadText;
    var head := HeadText(0x60, form, |s|);
    AtSplit(v, idx, head, s);
    ReadHeadText(v, idx, 0x60, form, |s|);
    GetWrittenString(v, idx + |head|, s);
  }

  /** No item begins with the break byte. */
  lemma FirstByte(item: Item)
    requires IsItem(item)
    ensures TextOf(item) != [] && TextOf(item)[0] != BREAK
  {
    hide BigEndian, Texts, Fits;
    match item
    case Positive(form, n) => HeadFirst(0x00, form, n);
    case Negative(form, n) => HeadFirst(0x20, form, n);
    case Chars(form, s) => HeadFirst(0x60, form, |s|);
    case Counted(group, form, items) => HeadFirst(Base(group), form, Count(group, items));
    case _ =>
  }

  lemma HeadFirst(base: byte, form: Form, n: nat)
    requires base <= 0xA0 && Fits(form, n)
    ensures HeadText(base, form, n) != [] && base <= HeadText(base, form, n)[0] <= base + 0x1B
  {
    hide BigEndian;
  }

  /** The first of the items, and the others after it. */
  lemma FirstOf(v: Text, idx: nat, items: seq<Item>, tail: Text)
    requires AreItems(items) && items != [] && At(v, idx, Texts(items) + tail)
    ensures AreItems(items[1..]) && At(v, idx, TextOf(items[0])) && At(v, idx + |TextOf(items[0])|, Texts(items[1..]) + tail)
    ensures idx < |v| && v[idx] != BREAK
    ensures |Texts(items)| == |TextOf(items[0])| + |Texts(items[1..])|
  {
    hide *;
    TextsFirst(items);
    var t := TextOf(items[0]);
    assert t + Texts(items[1..]) + tail == t + (Texts(items[1..]) + tail);
    AtSplit(v, idx, t, Texts(items[1..]) + tail);
    FirstByte(items[0]);
    AtFirst(v, idx, t);
  }

  lemma TextsFirst(items: seq<Item>)
    requires AreItems(items) && items != []
    ensures IsItem(items[0]) && AreItems(items[1..]) && Texts(items) == TextOf(items[0]) + Texts(items[1..])
  {
    hide TextOf, IsItem;
  }

  lemma LastBreak(v: Text, idx: nat)
    requires At(v, idx, [BREAK])
    ensures idx < |v| && v[idx] == BREAK
  {
    assert v[idx] == v[idx..idx + 1][0];
  }

  lemma TextValue(item: Item)
    requires IsItem(item)
    ensures IsText(item) <==> ValueOf(item).String?
    ensures IsText(item) ==> ValueOf(item) == String(ItemText(item))
  {
    hide HeadText, Texts, Values, Members, WidenSingle, WidenHalf;
  }

  lemma {:induction false} DecodeList(v: Text, idx: nat, items: seq<Item>, acc: seq<Json>)
    requires |v| <= MAX_SIZE && AreItems(items) && At(v, idx, Texts(items))
    ensures C.DecodeElems(v, idx, |items|, acc) == Ok((acc + Values(items), idx + |Texts(items)|))
    decreases items, 0
  {
    hide C.Decode, IsItem, TextOf, ValueOf;
    if items != [] {
      assert Texts(items) + [] == Texts(items) && Texts(items[1..]) + [] == Texts(items[1..]);
      FirstOf(v, idx, items, []);
      DecodeItem(v, idx, items[0]);
      DecodeList(v, idx + |TextOf(items[0])|, items[1..], acc + [ValueOf(items[0])]);
      assert acc + [ValueOf(items[0])] + Values(items[1..]) == acc + Values(items);
    } else {
      assert acc + [] == acc;
    }
  }

  lemma {:induction false} DecodeOpenList(v: Text, idx: nat, items: seq<Item>, acc: seq<Json>)
    requires |v| <= MAX_SIZE && AreItems(items) && At(v, idx, Texts(items) + [BREAK])
    ensures C.DecodeElemsToBreak(v, idx, acc) == Ok((acc + Values(items), idx + |Texts(items)| + 1))
    decreases items, 0
  {
    hide C.Decode, IsItem, TextOf, ValueOf;
    if items != [] {
      FirstOf(v, idx, items, [BREAK]);
      DecodeItem(v, idx, items[0]);
      DecodeOpenList(v, idx + |TextOf(items[0])|, items[1..], acc + [ValueOf(items[0])]);
      assert acc + [ValueOf(items[0])] + Values(items[1..]) == acc + Values(items);
    } else {
      assert acc + [] == acc && [] + [BREAK] == [BREAK];
      LastBreak(v, idx);
    }
  }

  lemma {:induction false} DecodeOpenChunks(v: Text, idx: nat, items: seq<Item>, acc: Text)
    requires |v| <= MAX_SIZE && AreItems(items) && HasShape(Chunks, items) && At(v, idx, Texts(items) + [BREAK])
    ensures C.DecodeChunks(v, idx, acc) == Ok((acc + Joined(items), idx + |Texts(items)| + 1))
    decreases items, 0
  {
    hide C.Decode, IsItem, IsText, TextOf, ValueOf, ItemText;
    if items != [] {
      FirstOf(v, idx, items, [BREAK]);
      DecodeItem(v, idx, items[0]);
      TextValue(items[0]);
      DecodeOpenChunks(v, idx + |TextOf(items[0])|, items[1..], acc + ItemText(items[0]));
      assert acc + ItemText(items[0]) + Joined(items[1..]) == acc + Joined(items);
    } else {
      assert acc + [] == acc && [] + [BREAK] == [BREAK];
      LastBreak(v, idx);
    }
  }

  /** The first key and its value, and the pairs after them. */
  lemma FirstPair(v: Text, idx: nat, items: seq<Item>, tail: Text)
    requires |v| <= MAX_SIZE && AreItems(items) && HasShape(Pairs, items) && items != [] && At(v, idx, Texts(items) + tail)
    ensures |items| >= 2 && AreItems(items[2..]) && HasShape(Pairs, items[2..]) && idx < |v| && v[idx] != BREAK
    ensures var next := idx + |TextOf(items[0])|; var end := next + |TextOf(items[1])|;
      C.Decode(v, idx) == Ok((String(ItemText(items[0])), next)) && C.Decode(v, next) == Ok((ValueOf(items[1]), end)) &&
      At(v, end, Texts(items[2..]) + tail) && idx + |Texts(items)| == end + |Texts(items[2..])|
    decreases items, 0
  {
    hide C.Decode, IsItem, IsText, TextOf, ValueOf, ItemText, Texts;
    assert items[1..][0] == items[1] && items[1..][1..] == items[2..];
    FirstOf(v, idx, items, tail);
    FirstOf(v, idx + |TextOf(items[0])|, items[1..], tail);
    DecodeItem(v, idx, items[0]);
    TextValue(items[0]);
    DecodeItem(v, idx + |TextOf(items[0])|, items[1]);
  }

  lemma MembersStep(acc: map<Text, Json>, items: seq<Item>)
    requires AreItems(items) && HasShape(Pairs, items) && items != []
    ensures |items| >= 2 && AreItems(items[2..]) && HasShape(Pairs, items[2..])
    ensures acc + Members(items) == acc[ItemText(items[0]) := ValueOf(items[1])] + Members(items[2..])
  {
    hide IsItem, IsText, ValueOf, ItemText;
    assert Members(items) == map[ItemText(items[0]) := ValueOf(items[1])] + Members(items[2..]);
    hide Members;
    MergeFirst(acc, ItemText(items[0]), ValueOf(items[1]), Members(items[2..]));
  }

  lemma MergeFirst(acc: map<Text, Json>, key: Text, x: Json, rest: map<Text, Json>)
    ensures acc + (map[key := x] + rest) == acc[key := x] + rest
  {
  }

  lemma {:induction false} DecodeDict(v: Text, idx: nat, items: seq<Item>, acc: map<Text, Json>)
    requires |v| <= MAX_SIZE && AreItems(items) && HasShape(Pairs, items) && At(v, idx, Texts(items))
    ensures C.DecodeMembers(v, idx, |items| / 2, acc) == Ok((acc + Members(items), idx + |Texts(items)|))
    decreases items, 1
  {
    hide C.Decode, IsItem, IsText, TextOf, ValueOf, ItemText;
    if items != [] {
      assert Texts(items) + [] == Texts(items) && Texts(items[2..]) + [] == Texts(items[2..]);
      FirstPair(v, idx, items, []);
      MembersStep(acc, items);
      var end := idx + |TextOf(items[0])| + |TextOf(items[1])|;
      DecodeDict(v, end, items[2..], acc[ItemText(items[0]) := ValueOf(items[1])]);
    } else {
      assert acc + map[] == acc;
    }
  }

  lemma {:induction false} DecodeOpenDict(v: Text, idx: nat, items: seq<Item>, acc: map<Text, Json>)
    requires |v| <= MAX_SIZE && AreItems(items) && HasShape(Pairs, items) && At(v, idx, Texts(items) + [BREAK])
    ensures C.DecodeMembersToBreak(v, idx, acc) == Ok((acc + Members(items), idx + |Texts(items)| + 1))
    decreases items, 1
  {
    hide C.Decode, IsItem, IsText, TextOf, ValueOf, ItemText;
    if items != [] {
      FirstPair(v, idx, items, [BREAK]);
      MembersStep(acc, items);
      var end := idx + |TextOf(items[0])| + |TextOf(items[1])|;
      DecodeOpenDict(v, end, items[2..], acc[ItemText(items[0]) := ValueOf(items[1])]);
    } else {
      assert acc + map[] == acc && [] + [BREAK] == [BREAK];
      LastBreak(v, idx);
    }
  }

  lemma {:induction false} DecodeCounted(v: Text, idx: nat, item: Item)
    requires |v| <= MAX_SIZE && IsItem(item) && item.Counted? && At(v, idx, TextOf(item))
    ensures C.Decode(v, idx) == Ok((ValueOf(item), idx + |TextOf(item)|))
    decreases item, 0
  {
    hide C.DecodeElems, C.DecodeMembers, C.DecodeChunks, C.ReadHead, HeadText, Texts, Values, Members, Fits;
    var items, n := item.items, Count(item.group, item.items);
    var head := HeadText(Base(item.group), item.form, n);
    AtSplit(v, idx, head, Texts(items));
    ReadHeadText(v, idx, Base(item.group), item.form, n);
    if item.group.Elements? {
      DecodeList(v, idx + |head|, items, []);
      assert [] + Values(items) == Values(items);
    } else {
      DecodeDict(v, idx + |head|, items, map[]);
      assert map[] + Members(items) == Members(items);
    }
  }

  lemma {:induction false} DecodeOpen(v: Text, idx: nat, item: Item)
    requires |v| <= MAX_SIZE && IsItem(item) && item.Open? && At(v, idx, TextOf(item))
    ensures C.Decode(v, idx) == Ok((ValueOf(item), idx + |TextOf(item)|))
    decreases item, 0
  {
    hide C.DecodeElemsToBreak, C.DecodeMembersToBreak, C.DecodeChunks, C.ReadHead, Texts, Values, Members, Joined;
    var items := item.items;
    var head := [Base(item.group) + 0x1F];
    assert TextOf(item) == head + (Texts(items) + [BREAK]);
    AtSplit(v, idx, head, Texts(items) + [BREAK]);
    assert v[idx] == v[idx..idx + 1][0];
    match item.group
    case Chunks =>
      DecodeOpenChunks(v, idx + 1, items, []);
      assert [] + Joined(items) == Joined(items);
    case Elements =>
      DecodeOpenList(v, idx + 1, items, []);
      assert [] + Values(items) == Values(items);
    case Pairs =>
      DecodeOpenDict(v, idx + 1, items, map[]);
      assert map[] + Members(items) == Members(items);
  }

  /** An item standing anywhere in a vector is read as its value, up to exactly its end. */
  lemma {:induction false} DecodeItem(v: Text, idx: nat, item: Item)
    requires |v| <= MAX_SIZE && IsItem(item) && At(v, idx, TextOf(item))
    ensures C.Decode(v, idx) == Ok((ValueOf(item), idx + |TextOf(item)|))
    decreases item, 1
  {
    hide C.Decode, TextOf, ValueOf, IsItem;
    if item.Counted? {
      DecodeCounted(v, idx, item);
    } else if item.Open? {
      DecodeOpen(v, idx, item);
    } else {
      DecodeLeaf(v, idx, item);
    }
  }

  // ----- and nothing else is read

  lemma FormFor(v: Text, idx: nat, base: byte) returns (form: Form, n: nat)
    requires idx < |v| && base <= 0xA0 && base <= v[idx] <= base + 0x1B && C.ReadHead(v, idx, v[idx] - base).Ok?
    ensures Fits(form, n) && At(v, idx, HeadText(base, form, n))
    ensures C.ReadHead(v, idx, v[idx] - base).value == (n, idx + |HeadText(base, form, n)|)
  {
    hide GetFromVector, BigEndian, At;
    n := C.ReadHead(v, idx, v[idx] - base).value.0;
    if v[idx] - base <= 0x17 {
      form := Short;
      SingleByte(v, idx);
      assert [base + FormByte(form, n)] + [] == [v[idx]];
    } else {
      var width := C.Width(v[idx] - base);
      form := Wide(width);
      WideBytes(v, idx, width);
    }
  }

  lemma NumberFor(v: Text, idx: nat) returns (item: Item)
    requires idx < |v| && v[idx] in {0xF9, 0xFA, 0xFB} && C.Decode(v, idx).Ok?
    ensures IsItem(item) && At(v, idx, TextOf(item))
  {
    var width := if v[idx] == 0xF9 then 2 else if v[idx] == 0xFA then 4 else 8;
    assert GetFloat(v, idx, width).Ok?;
    hide BigEndian, At, C.Decode;
    WideBytes(v, idx, width);
    item := Number(width, GetFromVector(v, idx, width).value);
  }

  lemma CharsFor(v: Text, idx: nat) returns (item: Item)
    requires idx < |v| && 0x60 <= v[idx] <= 0x7B && C.Decode(v, idx).Ok?
    ensures IsItem(item) && At(v, idx, TextOf(item))
  {
    assert C.ReadHead(v, idx, v[idx] - 0x60).Ok?;
    var (n, next) := C.ReadHead(v, idx, v[idx] - 0x60).value;
    assert GetString(v, n, next).Ok?;
    hide C.Decode, C.ReadHead, HeadText;
    var form, m := FormFor(v, idx, 0x60);
    var s := v[next..next + n];
    AtJoin(v, idx, HeadText(0x60, form, n), s);
    item := Chars(form, s);
  }

  /** The item at `idx`, where decoding it ends, and its value. */
  lemma NextItem(v: Text, idx: nat) returns (item: Item)
    requires |v| <= MAX_SIZE && C.Decode(v, idx).Ok?
    ensures IsItem(item) && At(v, idx, TextOf(item)) && idx < |v|
    ensures C.Decode(v, idx) == Ok((ValueOf(item), idx + |TextOf(item)|))
    ensures IsText(item) <==> AsText(C.Decode(v, idx).value.0).Ok?
    decreases |v| - idx, 1, 0
  {
    item := ItemFor(v, idx);
    hide C.Decode, IsItem, TextOf, ValueOf, IsText;
    DecodeItem(v, idx, item);
    TextValue(item);
  }

  /** One more item in front of those that follow it. */
  lemma Before(v: Text, idx: nat, item: Item, items: seq<Item>, tail: Text)
    requires IsItem(item) && AreItems(items) && At(v, idx, TextOf(item)) && At(v, idx + |TextOf(item)|, Texts(items) + tail)
    ensures AreItems([item] + items) && At(v, idx, Texts([item] + items) + tail)
  {
    hide IsItem, TextOf, At;
    AtJoin(v, idx, TextOf(item), Texts(items) + tail);
    assert ([item] + items)[1..] == items;
    assert TextOf(item) + (Texts(items) + tail) == Texts([item] + items) + tail;
  }

  lemma NoMore(v: Text, idx: nat)
    requires idx <= |v|
    ensures AreItems([]) && HasShape(Pairs, []) && At(v, idx, Texts([]) + [])
  {
  }

  lemma OnlyBreak(v: Text, idx: nat)
    requires idx < |v| && v[idx] == BREAK
    ensures AreItems([]) && HasShape(Chunks, []) && HasShape(Pairs, []) && At(v, idx, Texts([]) + [BREAK])
  {
    assert Texts([]) + [BREAK] == [BREAK];
  }

  lemma {:induction false} ListFor(v: Text, idx: nat, n: nat, acc: seq<Json>) returns (items: seq<Item>)
    requires |v| <= MAX_SIZE && idx <= |v| && C.DecodeElems(v, idx, n, acc).Ok?
    ensures AreItems(items) && |items| == n && At(v, idx, Texts(items) + [])
    decreases |v| - idx, 2, n
  {
    hide C.Decode, At, AreItems, Texts, TextOf, IsItem, ValueOf;
    if n == 0 {
      items := [];
      NoMore(v, idx);
    } else {
      var item := NextItem(v, idx);
      items := ListFor(v, idx + |TextOf(item)|, n - 1, acc + [ValueOf(item)]);
      Before(v, idx, item, items, []);
      items := [item] + items;
    }
  }

  lemma {:induction false} OpenListFor(v: Text, idx: nat, acc: seq<Json>) returns (items: seq<Item>)
    requires |v| <= MAX_SIZE && idx <= |v| && C.DecodeElemsToBreak(v, idx, acc).Ok?
    ensures AreItems(items) && At(v, idx, Texts(items) + [BREAK])
    decreases |v| - idx, 2, 0
  {
    hide C.Decode, At, AreItems, Texts, TextOf, IsItem, ValueOf;
    if v[idx] == BREAK {
      items := [];
      OnlyBreak(v, idx);
    } else {
      var item := NextItem(v, idx);
      items := OpenListFor(v, idx + |TextOf(item)|, acc + [ValueOf(item)]);
      Before(v, idx, item, items, [BREAK]);
      items := [item] + items;
    }
  }

  lemma {:induction false} ChunksFor(v: Text, idx: nat, acc: Text) returns (items: seq<Item>)
    requires |v| <= MAX_SIZE && idx <= |v| && C.DecodeChunks(v, idx, acc).Ok?
    ensures AreItems(items) && HasShape(Chunks, items) && At(v, idx, Texts(items) + [BREAK])
    decreases |v| - idx, 2, 0
  {
    hide C.Decode, At, AreItems, Texts, TextOf, IsItem, ValueOf, IsText;
    if v[idx] == BREAK {
      items := [];
      OnlyBreak(v, idx);
    } else {
      var item := NextItem(v, idx);
      items := ChunksFor(v, idx + |TextOf(item)|, acc + AsText(ValueOf(item)).value);
      Before(v, idx, item, items, [BREAK]);
      items := [item] + items;
    }
  }

  lemma {:induction false} DictFor(v: Text, idx: nat, n: nat, acc: map<Text, Json>) returns (items: seq<Item>)
    requires |v| <= MAX_SIZE && idx <= |v| && C.DecodeMembers(v, idx, n, acc).Ok?
    ensures AreItems(items) && HasShape(Pairs, items) && |items| == 2 * n && At(v, idx, Texts(items) + [])
    decreases |v| - idx, 2, n
  {
    hide C.Decode, At, AreItems, Texts, TextOf, IsItem, ValueOf, IsText;
    if n == 0 {
      items := [];
      NoMore(v, idx);
    } else {
      var key := NextItem(v, idx);
      var next := idx + |TextOf(key)|;
      var x := NextItem(v, next);
      items := DictFor(v, next + |TextOf(x)|, n - 1, acc[AsText(ValueOf(key)).value := ValueOf(x)]);
      items := PairBefore(v, idx, key, x, items, []);
    }
  }

  lemma {:induction false} OpenDictFor(v: Text, idx: nat, acc: map<Text, Json>) returns (items: seq<Item>)
    requires |v| <= MAX_SIZE && idx <= |v| && C.DecodeMembersToBreak(v, idx, acc).Ok?
    ensures AreItems(items) && HasShape(Pairs, items) && At(v, idx, Texts(items) + [BREAK])
    decreases |v| - idx, 2, 0
  {
    hide C.Decode, At, AreItems, Texts, TextOf, IsItem, ValueOf, IsText;
    if v[idx] == BREAK {
      items := [];
      OnlyBreak(v, idx);
    } else {
      var key := NextItem(v, idx);
      var next := idx + |TextOf(key)|;
      var x := NextItem(v, next);
      items := OpenDictFor(v, next + |TextOf(x)|, acc[AsText(ValueOf(key)).value := ValueOf(x)]);
      items := PairBefore(v, idx, key, x, items, [BREAK]);
    }
  }

  lemma PairBefore(v: Text, idx: nat, key: Item, x: Item, items: seq<Item>, tail: Text) returns (more: seq<Item>)
    requires IsItem(key) && IsText(key) && IsItem(x) && AreItems(items) && HasShape(Pairs, items)
    requires At(v, idx, TextOf(key)) && At(v, idx + |TextOf(key)|, TextOf(x))
    requires At(v, idx + |TextOf(key)| + |TextOf(x)|, Texts(items) + tail)
    ensures AreItems(more) && HasShape(Pairs, more) && |more| == |items| + 2 && At(v, idx, Texts(more) + tail)
  {
    hide IsItem, IsText, TextOf, Texts, At, AreItems, HasShape;
    Before(v, idx + |TextOf(key)|, x, items, tail);
    Before(v, idx, key, [x] + items, tail);
    more := [key] + ([x] + items);
    PairShape(key, x, items);
  }

  lemma PairShape(key: Item, x: Item, items: seq<Item>)
    requires IsText(key) && HasShape(Pairs, items)
    ensures HasShape(Pairs, [key] + ([x] + items))
  {
    hide IsText;
    var more := [key] + ([x] + items);
    forall i | 0 <= i < |more| && i % 2 == 0 ensures IsText(more[i]) {
      assert i >= 2 ==> more[i] == items[i - 2];
    }
  }

  lemma CountedFor(v: Text, idx: nat, group: Group, form: Form, n: nat, items: seq<Item>) returns (item: Item)
    requires !group.Chunks? && AreItems(items) && HasShape(group, items) && n == Count(group, items)
    requires Fits(form, n) && At(v, idx, HeadText(Base(group), form, n))
    requires At(v, idx + |HeadText(Base(group), form, n)|, Texts(items) + [])
    ensures IsItem(item) && At(v, idx, TextOf(item))
  {
    hide HeadText, Texts, At;
    assert Texts(items) + [] == Texts(items);
    item := Counted(group, form, items);
    AtJoin(v, idx, HeadText(Base(group), form, n), Texts(items));
  }

  lemma OpenFor(v: Text, idx: nat, group: Group, items: seq<Item>) returns (item: Item)
    requires AreItems(items) && HasShape(group, items) && idx < |v| && v[idx] == Base(group) + 0x1F
    requires At(v, idx + 1, Texts(items) + [BREAK])
    ensures IsItem(item) && At(v, idx, TextOf(item))
  {
    SingleByte(v, idx);
    hide Texts, At;
    item := Open(group, items);
    AtJoin(v, idx, [v[idx]], Texts(items) + [BREAK]);
    assert [v[idx]] + (Texts(items) + [BREAK]) == TextOf(item);
  }

  lemma {:induction false} GroupFor(v: Text, idx: nat) returns (item: Item)
    requires |v| <= MAX_SIZE && C.Decode(v, idx).Ok?
    requires 0x80 <= v[idx] <= 0x9B || 0xA0 <= v[idx] <= 0xBB || v[idx] in {0x7F, 0x9F, 0xBF}
    ensures IsItem(item) && At(v, idx, TextOf(item))
    decreases |v| - idx, 0, 0
  {
    hide C.ReadHead, C.DecodeElems, C.DecodeMembers, C.DecodeChunks, C.DecodeElemsToBreak, C.DecodeMembersToBreak, At,
      HeadText, Fits;
    var b := v[idx];
    if b == 0x7F {
      var items := ChunksFor(v, idx + 1, []);
      item := OpenFor(v, idx, Chunks, items);
    } else if b == 0x9F {
      var items := OpenListFor(v, idx + 1, []);
      item := OpenFor(v, idx, Elements, items);
    } else if b == 0xBF {
      var items := OpenDictFor(v, idx + 1, map[]);
      item := OpenFor(v, idx, Pairs, items);
    } else if b <= 0x9B {
      var form, n := FormFor(v, idx, 0x80);
      var items := ListFor(v, idx + |HeadText(0x80, form, n)|, n, []);
      item := CountedFor(v, idx, Elements, form, n, items);
    } else {
      var form, n := FormFor(v, idx, 0xA0);
      var items := DictFor(v, idx + |HeadText(0xA0, form, n)|, n, map[]);
      item := CountedFor(v, idx, Pairs, form, n, items);
    }
  }

  lemma {:induction false} ItemFor(v: Text, idx: nat) returns (item: Item)
    requires |v| <= MAX_SIZE && C.Decode(v, idx).Ok?
    ensures IsItem(item) && At(v, idx, TextOf(item))
    decreases |v| - idx, 0, 1
  {
    hide C.ReadHead, C.DecodeElems, C.DecodeMembers, C.DecodeChunks, C.DecodeElemsToBreak, C.DecodeMembersToBreak, At,
      HeadText, GetFloat, GetString;
    var b := v[idx];
    if b in {0xF4, 0xF5, 0xF6} {
      item := Literal(b);
      SingleByte(v, idx);
    } else if b in {0xF9, 0xFA, 0xFB} {
      item := NumberFor(v, idx);
    } else if b <= 0x1B {
      var form, n := FormFor(v, idx, 0x00);
      item := Positive(form, n);
    } else if 0x20 <= b <= 0x3B {
      var form, n := FormFor(v, idx, 0x20);
      item := Negative(form, n);
    } else if 0x60 <= b <= 0x7B {
      item := CharsFor(v, idx);
    } else {
      item := GroupFor(v, idx);
    }
  }

  /** The item stands at `idx`, is read as `j` and ends at `next`. */
  predicate Stands(v: Text, idx: nat, item: Item, j: Json, next: nat) {
    IsItem(item) && At(v, idx, TextOf(item)) && ValueOf(item) == j && next == idx + |TextOf(item)|
  }

  /** `from_cbor` reads `j` up to `next` exactly if an item with that value stands there. */
  lemma DecodeIff(v: Text, idx: nat, j: Json, next: nat)
    requires |v| <= MAX_SIZE
    ensures C.Decode(v, idx) == Ok((j, next)) <==> exists item :: Stands(v, idx, item, j, next)
  {
    hide C.Decode, IsItem, TextOf, ValueOf, At;
    forall item | Stands(v, idx, item, j, next) ensures C.Decode(v, idx) == Ok((j, next)) {
      DecodeItem(v, idx, item);
    }
    if C.Decode(v, idx) == Ok((j, next)) {
      var item := NextItem(v, idx);
      assert Stands(v, idx, item, j, next);
    }
  }
}
