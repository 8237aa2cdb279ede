/**
 What the grammar of CBOR gives for encoded values: lengths left open, repeated keys,
 heads wider than needed, and numbers beyond 63 bits.
 */
module CborForms {
  import opened Bytes
  import opened Results
  import opened Json
  import opened Binary
  import opened CborGrammar
  import C = Cbor
  import R = CborRoundTrip

  // ----- encoded values as items

  /** An encoded value is an item whose value is the canonical form. */
  lemma EncodedItem(j: Json) returns (item: Item)
    requires |C.Encode(j)| <= MAX_SIZE
    ensures IsItem(item) && TextOf(item) == C.Encode(j) && ValueOf(item) == Canonical(j)
  {
    hide C.Encode, C.Decode, IsItem, TextOf, ValueOf, Canonical;
    var v := C.Encode(j);
    assert v[0..0 + |v|] == v;
    R.DecodeEncoded(v, 0, j);
    item := NextItem(v, 0);
    assert v[0..0 + |v|] == TextOf(item);
  }

  function Encodings(xs: seq<Json>): Text {
    if xs == [] then [] else C.Encode(xs[0]) + Encodings(xs[1..])
  }

  function CanonicalList(xs: seq<Json>): seq<Json> {
    seq(|xs|, i requires 0 <= i < |xs| => Canonical(xs[i]))
  }

  lemma {:induction false} EncodedItems(xs: seq<Json>) returns (items: seq<Item>)
    requires |Encodings(xs)| <= MAX_SIZE
    ensures AreItems(items) && |items| == |xs| && Texts(items) == Encodings(xs) && Values(items) == CanonicalList(xs)
    ensures forall i :: 0 <= i < |xs| ==> ValueOf(items[i]) == Canonical(xs[i])
  {
    hide C.Encode, IsItem, TextOf, ValueOf, Canonical;
    items := [];
    if xs != [] {
      var item := EncodedItem(xs[0]);
      var rest := EncodedItems(xs[1..]);
      items := [item] + rest;
      assert items[1..] == rest;
      assert CanonicalList(xs) == [Canonical(xs[0])] + CanonicalList(xs[1..]);
    }
  }

  lemma OpenText(v: Text, idx: nat, b: byte, items: seq<Item>, body: Text)
    requires AreItems(items) && Texts(items) == body && At(v, idx, [b] + body + [BREAK])
    ensures forall group :: Base(group) + 0x1F == b && HasShape(group, items) ==>
      IsItem(Open(group, items)) && TextOf(Open(group, items)) == [b] + body + [BREAK]
  {
    hide Texts, HasShape;
  }

  // ----- open lengths

  /** Any values between the head of an open array and the break byte are its elements. */
  lemma OpenArray(v: Text, idx: nat, xs: seq<Json>)
    requires |v| <= MAX_SIZE && At(v, idx, [0x9F] + Encodings(xs) + [BREAK])
    ensures C.Decode(v, idx) == Ok((Array(CanonicalList(xs)), idx + |Encodings(xs)| + 2))
  {
    hide C.Encode, C.Decode, IsItem, Texts, At, CanonicalList, Encodings;
    AtFits(v, idx, [0x9F] + Encodings(xs) + [BREAK]);
    var items := EncodedItems(xs);
    OpenText(v, idx, 0x9F, items, Encodings(xs));
    DecodeItem(v, idx, Open(Elements, items));
  }

  function Strings(cs: seq<Text>): seq<Json> {
    seq(|cs|, i requires 0 <= i < |cs| => String(cs[i]))
  }

  function Concat(cs: seq<Text>): Text {
    if cs == [] then [] else cs[0] + Concat(cs[1..])
  }

  lemma {:induction false} JoinedConcat(items: seq<Item>, cs: seq<Text>)
    requires AreItems(items) && |items| == |cs|
    requires forall i :: 0 <= i < |cs| ==> ValueOf(items[i]) == String(cs[i])
    ensures HasShape(Chunks, items) && Joined(items) == Concat(cs)
  {
    hide IsItem, IsText, ValueOf, ItemText;
    forall i | 0 <= i < |items| ensures IsText(items[i]) { TextValue(items[i]); }
    if cs != [] {
      TextValue(items[0]);
      JoinedConcat(items[1..], cs[1..]);
    }
  }

  /** The chunks of an open string are put together in their order. */
  lemma OpenString(v: Text, idx: nat, cs: seq<Text>)
    requires |v| <= MAX_SIZE && At(v, idx, [0x7F] + Encodings(Strings(cs)) + [BREAK])
    ensures C.Decode(v, idx) == Ok((String(Concat(cs)), idx + |Encodings(Strings(cs))| + 2))
  {
    hide C.Encode, C.Decode, IsItem, Texts, At, CanonicalList, Encodings, Joined, ItemText, Concat;
    AtFits(v, idx, [0x7F] + Encodings(Strings(cs)) + [BREAK]);
    var items := EncodedItems(Strings(cs));
    JoinedConcat(items, cs);
    OpenText(v, idx, 0x7F, items, Encodings(Strings(cs)));
    DecodeItem(v, idx, Open(Chunks, items));
  }

  // ----- members

  datatype Member = Member(key: Text, value: Json)

  /** Keys and values in turn. */
  function Alternating(ms: seq<Member>): seq<Json> {
    if ms == [] then [] else [String(ms[0].key), ms[0].value] + Alternating(ms[1..])
  }

  /** No member after number `i` has its key. */
  predicate IsLast(ms: seq<Member>, i: nat)
    requires i < |ms|
  {
    forall k :: i < k < |ms| ==> ms[k].key != ms[i].key
  }

  /** The object with these members, where the last value of a key counts. */
  ghost predicate LastWins(ms: seq<Member>, m: map<Text, Json>) {
    && (forall key :: key in m <==> exists i :: 0 <= i < |ms| && ms[i].key == key)
    && (forall i :: 0 <= i < |ms| && IsLast(ms, i) ==> ms[i].key in m && m[ms[i].key] == Canonical(ms[i].value))
  }

  lemma LastWinsStep(ms: seq<Member>, m: map<Text, Json>)
    requires ms != [] && LastWins(ms[1..], m)
    ensures LastWins(ms, map[ms[0].key := Canonical(ms[0].value)] + m)
  {
    hide Canonical;
    var all := map[ms[0].key := Canonical(ms[0].value)] + m;
    forall key ensures key in all <==> exists i :: 0 <= i < |ms| && ms[i].key == key {
      if i :| 0 <= i < |ms| && ms[i].key == key {
        assert i > 0 ==> ms[1..][i - 1].key == key;
      }
      if key in m {
        var i :| 0 <= i < |ms[1..]| && ms[1..][i].key == key;
        assert ms[i + 1].key == key;
      }
    }
    forall i | 0 <= i < |ms| && IsLast(ms, i) ensures ms[i].key in all && all[ms[i].key] == Canonical(ms[i].value) {
      if i > 0 {
        assert ms[1..][i - 1] == ms[i] && IsLast(ms[1..], i - 1);
      } else {
        assert ms[0].key !in m;
      }
    }
  }

  lemma {:induction false} AlternatingItems(items: seq<Item>, ms: seq<Member>)
    requires AreItems(items) && |items| == |Alternating(ms)|
    requires forall i :: 0 <= i < |items| ==> ValueOf(items[i]) == Canonical(Alternating(ms)[i])
    ensures HasShape(Pairs, items) && LastWins(ms, Members(items))
  {
    hide IsItem, IsText, ValueOf, ItemText, Canonical, LastWins;
    if ms == [] {
      NoMembers();
    } else {
      var all, rest := Alternating(ms), Alternating(ms[1..]);
      assert all == [String(ms[0].key), ms[0].value] + rest;
      forall i | 0 <= i < |rest| ensures ValueOf(items[2..][i]) == Canonical(rest[i]) {
        assert all[i + 2] == rest[i] && items[2..][i] == items[i + 2];
      }
      AlternatingItems(items[2..], ms[1..]);
      assert Canonical(String(ms[0].key)) == String(ms[0].key) by { CanonicalString(ms[0].key); }
      TextValue(items[0]);
      forall i | 0 <= i < |items| && i % 2 == 0 ensures IsText(items[i]) {
        assert i >= 2 ==> items[i] == items[2..][i - 2];
      }
      LastWinsStep(ms, Members(items[2..]));
    }
  }

  lemma NoMembers()
    ensures LastWins([], map[])
  {
  }

  lemma CanonicalString(s: Text)
    ensures Canonical(String(s)) == String(s)
  {
  }

  /** An open map holds each of its keys with the last value given for it. */
  lemma OpenMap(v: Text, idx: nat, ms: seq<Member>) returns (m: map<Text, Json>)
    requires |v| <= MAX_SIZE && At(v, idx, [0xBF] + Encodings(Alternating(ms)) + [BREAK])
    ensures C.Decode(v, idx) == Ok((Object(m), idx + |Encodings(Alternating(ms))| + 2)) && LastWins(ms, m)
  {
    hide C.Encode, C.Decode, IsItem, Texts, At, CanonicalList, Encodings, Members, Alternating, LastWins;
    AtFits(v, idx, [0xBF] + Encodings(Alternating(ms)) + [BREAK]);
    var items := EncodedItems(Alternating(ms));
    AlternatingItems(items, ms);
    OpenText(v, idx, 0xBF, items, Encodings(Alternating(ms)));
    DecodeItem(v, idx, Open(Pairs, items));
    m := Members(items);
  }

  lemma {:induction false} AlternatingLength(ms: seq<Member>)
    ensures |Alternating(ms)| == 2 * |ms|
  {
    if ms != [] { AlternatingLength(ms[1..]); }
  }

  /** So does a map of a declared length, whatever the width of its head. */
  lemma CountedMap(v: Text, idx: nat, form: Form, ms: seq<Member>) returns (m: map<Text, Json>)
    requires |v| <= MAX_SIZE && Fits(form, |ms|) && At(v, idx, HeadText(0xA0, form, |ms|) + Encodings(Alternating(ms)))
    ensures C.Decode(v, idx) == Ok((Object(m), idx + |HeadText(0xA0, form, |ms|) + Encodings(Alternating(ms))|))
    ensures LastWins(ms, m)
  {
    hide *;
    var text := HeadText(0xA0, form, |ms|) + Encodings(Alternating(ms));
    AtFits(v, idx, text);
    var items := EncodedItems(Alternating(ms));
    AlternatingItems(items, ms);
    AlternatingLength(ms);
    DecodeCountedMap(v, idx, form, |ms|, items);
    m := Members(items);
  }

  lemma DecodeCountedMap(v: Text, idx: nat, form: Form, n: nat, items: seq<Item>)
    requires |v| <= MAX_SIZE && AreItems(items) && HasShape(Pairs, items) && |items| == 2 * n && Fits(form, n)
    requires At(v, idx, HeadText(0xA0, form, n) + Texts(items))
    ensures C.Decode(v, idx) == Ok((Object(Members(items)), idx + |HeadText(0xA0, form, n) + Texts(items)|))
  {
    hide *;
    CountedText(form, n, items);
    DecodeItem(v, idx, Counted(Pairs, form, items));
  }

  lemma CountedText(form: Form, n: nat, items: seq<Item>)
    requires AreItems(items) && HasShape(Pairs, items) && |items| == 2 * n && Fits(form, n)
    ensures IsItem(Counted(Pairs, form, items))
    ensures TextOf(Counted(Pairs, form, items)) == HeadText(0xA0, form, n) + Texts(items)
    ensures ValueOf(Counted(Pairs, form, items)) == Object(Members(items))
  {
    hide Texts, HeadText, Fits, Members;
  }

  // ----- heads and numbers

  /** The encoder uses the shortest of the heads for its number. */
  lemma ShortestHead(base: byte, n: nat) returns (form: Form)
    requires base <= 0xA0 && n < TWO_TO_THE_64
    ensures Fits(form, n) && C.Head(base, n) == HeadText(base, form, n)
    ensures forall other :: Fits(other, n) ==> |C.Head(base, n)| <= |HeadText(base, other, n)|
  {
    Ranges();
    hide BigEndian, Range;
    form := if n <= 0x17 then Short else if n <= 0xFF then Wide(1) else if n <= 0xFFFF then Wide(2)
      else if n <= 0xFFFF_FFFF then Wide(4) else Wide(8);
    assert [base + n] + [] == [base + n];
  }

  /** A negative number below -2^63 wraps around to a non-negative one; every other one is
      read as it is. */
  lemma NegativeNumber(v: Text, idx: nat, form: Form, n: nat)
    requires |v| <= MAX_SIZE && Fits(form, n) && At(v, idx, HeadText(0x20, form, n))
    ensures C.Decode(v, idx).Ok? && C.Decode(v, idx).value.0.Integer?
    ensures var i := C.Decode(v, idx).value.0.i;
      (i - (-1 - n)) % TWO_TO_THE_64 == 0 && (i == -1 - n <==> n < TWO_TO_THE_63)
  {
    NegativeItem(form, n);
    hide *;
    DecodeItem(v, idx, Negative(form, n));
    WrapAround(n);
  }

  lemma WrapAround(n: nat)
    requires n < TWO_TO_THE_64
    ensures var i: int := if n < TWO_TO_THE_63 then -1 - n else TWO_TO_THE_64 - 1 - n;
      (i - (-1 - n)) % TWO_TO_THE_64 == 0 && (i == -1 - n <==> n < TWO_TO_THE_63)
  {
  }

  lemma NegativeItem(form: Form, n: nat)
    requires Fits(form, n)
    ensures n < TWO_TO_THE_64 && IsItem(Negative(form, n)) && TextOf(Negative(form, n)) == HeadText(0x20, form, n)
    ensures ValueOf(Negative(form, n)) == Integer(if n < TWO_TO_THE_63 then -1 - n else TWO_TO_THE_64 - 1 - n)
  {
    FitsBound(form, n);
    hide HeadText, Fits;
  }
}
