/**
 Percent encoding (`Percent`) and query strings (`QueryString`).

 The fields are a list in the iteration order of the multimap.
 */
module QueryString {
  import opened Bytes
  import S = Strings

  const PERCENT: byte := 0x25
  const AMPERSAND: byte := 0x26
  const PLUS: byte := 0x2B
  const EQUALS: byte := 0x3D
  const SPACE: byte := 0x20

  // ----- encoding

  predicate Escaped(c: byte) {
    c == 0x21 || c == 0x23 || c == 0x24 || 0x26 <= c <= 0x2C || 0x2F <= c <= 0x3B || c == 0x3D || c == 0x3F ||
    c == 0x40 || c == 0x5B || c == 0x5D
  }

  /** The digits 0 to 9 and A to F. */
  function UpperHex(n: nat): byte
    requires n < 16
  {
    if n < 10 then 0x30 + n else 0x41 + (n - 10)
  }

  function EncodeByte(c: byte): (r: Text)
    ensures |r| > 0
  {
    if c == SPACE then [PLUS]
    else if Escaped(c) then [PERCENT, UpperHex(c / 16), UpperHex(c % 16)]
    else [c]
  }

  function Encode(value: Text): Text {
    if value == [] then [] else EncodeByte(value[0]) + Encode(value[1..])
  }

  method EncodeValue(value: Text) returns (result: Text)
    ensures result == Encode(value)
  {
    hide Encode;
    result := [];
    assert value[0..] == value;
    for i := 0 to |value|
      invariant result + Encode(value[i..]) == Encode(value)
    {
      var chr := value[i];
      EncodeStep(value, i);
      if chr == SPACE {
        result := result + [PLUS];
      } else if Escaped(chr) {
        result := result + [PERCENT, UpperHex(chr / 16), UpperHex(chr % 16)];
      } else {
        result := result + [chr];
      }
    }
    EncodeStep(value, |value|);
  }

  lemma EncodeStep(value: Text, i: nat)
    requires i <= |value|
    ensures Encode(value[i..]) == if i == |value| then [] else EncodeByte(value[i]) + Encode(value[i + 1..])
  {
    if i < |value| { assert value[i..][1..] == value[i + 1..]; }
  }

  // ----- decoding

  /** The value of the longest prefix of hexadecimal digits, in front of which stands `n`. */
  function HexPrefix(s: Text, n: nat): nat {
    if s == [] || !S.HexDigit(s[0]) then n else HexPrefix(s[1..], 16 * n + S.HexValue(s[0]))
  }

  /** `strtol` to base 16 of at most two characters. */
  function Strtol(s: Text): int
    requires |s| <= 2
  {
    var t := SkipSpace(s);
    if t != [] && t[0] == MINUS then
      var magnitude: int := HexPrefix(t[1..], 0);
      -magnitude
    else if t != [] && t[0] == PLUS then HexPrefix(t[1..], 0)
    else HexPrefix(t, 0)
  }

  function Decode(s: Text): Text {
    if s == [] then []
    else if s[0] == PERCENT && |s| > 2 then [Strtol(s[1..3]) % 256] + Decode(s[3..])
    else [if s[0] == PLUS then SPACE else s[0]] + Decode(s[1..])
  }

  method DecodeValue(value: Text) returns (result: Text)
    ensures result == Decode(value)
  {
    hide Decode, Strtol;
    result := [];
    var i := 0;
    assert value[0..] == value;
    while i < |value|
      invariant 0 <= i <= |value|
      invariant result + Decode(value[i..]) == Decode(value)
    {
      var chr := value[i];
      DecodeStep(value, i);
      if chr == PERCENT && i + 2 < |value| {
        result := result + [Strtol(value[i + 1..i + 3]) % 256];
        i := i + 2;
      } else {
        result := result + [if chr == PLUS then SPACE else chr];
      }
      i := i + 1;
    }
    DecodeStep(value, i);
  }

  lemma DecodeStep(value: Text, i: nat)
    requires i <= |value|
    ensures Decode(value[i..]) ==
      if i == |value| then []
      else if value[i] == PERCENT && i + 2 < |value| then [Strtol(value[i + 1..i + 3]) % 256] + Decode(value[i + 3..])
      else [if value[i] == PLUS then SPACE else value[i]] + Decode(value[i + 1..])
  {
    hide Strtol;
    if i < |value| {
      assert value[i..][1..] == value[i + 1..];
      if i + 2 < |value| {
        assert value[i..][1..3] == value[i + 1..i + 3];
        assert value[i..][3..] == value[i + 3..];
      }
    }
  }

  // ----- what survives the round trip

  /** A percent sign, which is not escaped, is decoded literally as the last byte, or before
      a last byte that is not escaped either. */
  predicate Literal(value: Text, k: nat)
    requires k < |value|
  {
    value[k] == PERCENT ==> k == |value| - 1 || (k == |value| - 2 && !Escaped(value[k + 1]))
  }

  predicate Faithful(value: Text) {
    forall k :: 0 <= k < |value| ==> Literal(value, k)
  }

  lemma FaithfulTail(c: byte, rest: Text)
    ensures Faithful([c] + rest) <==> Faithful(rest) && (c == PERCENT ==> |Encode(rest)| < 2)
  {
    var v := [c] + rest;
    EncodeLonger(rest);
    assert Literal(v, 0) <==> (c == PERCENT ==> |Encode(rest)| < 2);
    hide Encode;
    forall k | 0 <= k < |rest| ensures Literal(rest, k) == Literal(v, k + 1) {
    }
    if Faithful(rest) && Literal(v, 0) {
      forall k | 0 <= k < |v| ensures Literal(v, k) {
        if k > 0 { assert Literal(rest, k - 1); }
      }
    }
  }

  lemma {:induction false} EncodeLonger(v: Text)
    ensures |Encode(v)| >= |v|
    ensures |v| == 1 ==> |Encode(v)| == if Escaped(v[0]) then 3 else 1
  {
    if v != [] {
      EncodeLonger(v[1..]);
    }
  }

  /** The first byte of an encoded byte is no digit. */
  lemma EncodedHead(c: byte)
    ensures !IsDigit(EncodeByte(c)[0])
    ensures |EncodeByte(c)| == 1 || EncodeByte(c)[0] == PERCENT
  {
  }

  lemma HexPrefixOne(b: byte, n: nat)
    ensures HexPrefix([b], n) == if S.HexDigit(b) then 16 * n + S.HexValue(b) else n
  {
    assert [b][1..] == [];
  }

  lemma HexPrefixTwo(a: byte, b: byte)
    ensures S.HexDigit(a) && S.HexDigit(b) ==> HexPrefix([a, b], 0) == 16 * S.HexValue(a) + S.HexValue(b)
    ensures S.HexDigit(a) && !S.HexDigit(b) ==> HexPrefix([a, b], 0) == S.HexValue(a)
    ensures !S.HexDigit(a) ==> HexPrefix([a, b], 0) == 0
  {
    assert [a, b][1..] == [b];
    if S.HexDigit(a) { HexPrefixOne(b, S.HexValue(a)); }
  }

  lemma SkipSpaceTwo(a: byte, b: byte)
    ensures !IsSpace(a) ==> SkipSpace([a, b]) == [a, b]
    ensures IsSpace(a) ==> SkipSpace([a, b]) == if IsSpace(b) then [] else [b]
  {
    assert [a, b][1..] == [b];
    assert [b][1..] == [];
    assert SkipSpace([b]) == if IsSpace(b) then [] else [b];
  }

  /** No two bytes but "25" read as the percent sign. */
  lemma StrtolCases(a: byte, b: byte)
    requires !IsDigit(a) && (a == PERCENT || !IsDigit(b))
    ensures Strtol([a, b]) % 256 != PERCENT
  {
    SkipSpaceTwo(a, b);
    HexPrefixOne(b, 0);
    HexPrefixTwo(a, b);
    assert [a, b][1..] == [b] && [b][1..] == [];
    assert HexPrefix([], 0) == 0;
    hide HexPrefix, SkipSpace;
  }

  /** A percent sign that decoding does not take literally is never decoded to itself. */
  lemma PercentChanges(rest: Text)
    requires |Encode(rest)| >= 2
    ensures Strtol(Encode(rest)[..2]) % 256 != PERCENT
  {
    hide Strtol, EncodeByte;
    var w := Encode(rest);
    EncodedHead(rest[0]);
    if |EncodeByte(rest[0])| == 1 {
      assert w[1] == Encode(rest[1..])[0] == EncodeByte(rest[1])[0];
      EncodedHead(rest[1]);
    }
    assert w[..2] == [w[0], w[1]];
    StrtolCases(w[0], w[1]);
  }

  lemma UpperHexValue(n: nat)
    requires n < 16
    ensures S.HexDigit(UpperHex(n)) && S.HexValue(UpperHex(n)) == n
    ensures !IsSpace(UpperHex(n)) && UpperHex(n) != MINUS && UpperHex(n) != PLUS
  {
  }

  lemma EscapeValue(c: byte)
    ensures Strtol([UpperHex(c / 16), UpperHex(c % 16)]) == c
  {
    var a, b := UpperHex(c / 16), UpperHex(c % 16);
    SkipSpaceTwo(a, b);
    HexPrefixTwo(a, b);
    UpperHexValue(c / 16);
    UpperHexValue(c % 16);
    hide HexPrefix, SkipSpace, UpperHex, S.HexValue;
  }

  /** Decoding an encoded value gives the value back exactly if it is faithful. */
  lemma {:induction false} DecodeEncode(v: Text)
    ensures Decode(Encode(v)) == v <==> Faithful(v)
  {
    if v != [] {
      var c, rest := v[0], v[1..];
      assert v == [c] + rest;
      FaithfulTail(c, rest);
      DecodeEncode(rest);
      DecodeHead(c, rest);
    }
  }

  lemma DecodeEscape(c: byte, w: Text)
    requires Escaped(c) && c != SPACE
    ensures Decode(EncodeByte(c) + w) == [c] + Decode(w)
  {
    hide Strtol;
    var t := EncodeByte(c) + w;
    assert t[1..3] == [UpperHex(c / 16), UpperHex(c % 16)] && t[3..] == w;
    EscapeValue(c);
  }

  lemma DecodePlain(c: byte, w: Text)
    requires !Escaped(c) && (c == PERCENT ==> |w| < 2)
    ensures Decode(EncodeByte(c) + w) == [c] + Decode(w)
  {
    hide Strtol;
    assert (EncodeByte(c) + w)[1..] == w;
  }

  lemma DecodePercent(rest: Text)
    requires |Encode(rest)| >= 2
    ensures Decode([PERCENT] + Encode(rest)) != [PERCENT] + rest
  {
    hide Strtol, Encode;
    var w := Encode(rest);
    var t := [PERCENT] + w;
    assert t[1..3] == w[..2];
    PercentChanges(rest);
    assert Decode(t)[0] != PERCENT;
  }

  lemma DecodeHead(c: byte, rest: Text)
    ensures c == PERCENT && |Encode(rest)| >= 2 ==> Decode(Encode([c] + rest)) != [c] + rest
    ensures !(c == PERCENT && |Encode(rest)| >= 2) ==> Decode(Encode([c] + rest)) == [c] + Decode(Encode(rest))
  {
    assert ([c] + rest)[1..] == rest;
    assert Encode([c] + rest) == EncodeByte(c) + Encode(rest);
    hide Decode, Encode;
    if Escaped(c) {
      DecodeEscape(c, Encode(rest));
    } else if c == PERCENT && |Encode(rest)| >= 2 {
      DecodePercent(rest);
    } else {
      DecodePlain(c, Encode(rest));
    }
  }

  // ----- query strings

  datatype Field = Field(name: Text, value: Text)

  function FieldText(f: Field): Text {
    f.name + [EQUALS] + Encode(f.value)
  }

  function Create(fields: seq<Field>): Text {
    if fields == [] then []
    else if |fields| == 1 then FieldText(fields[0])
    else FieldText(fields[0]) + [AMPERSAND] + Create(fields[1..])
  }

  /** `create` */
  method CreateQuery(fields: seq<Field>) returns (result: Text)
    ensures result == Create(fields)
  {
    hide Create, Encode;
    result := [];
    var first := true;
    assert fields[..0] == [];
    CreateEmpty();
    for i := 0 to |fields|
      invariant first == (i == 0)
      invariant result == Create(fields[..i])
    {
      CreateSnoc(fields[..i], fields[i]);
      assert fields[..i] + [fields[i]] == fields[..i + 1];
      var encoded := EncodeValue(fields[i].value);
      result := result + (if !first then [AMPERSAND] else []) + (fields[i].name + [EQUALS] + encoded);
      first := false;
    }
    assert fields[..|fields|] == fields;
  }

  lemma CreateEmpty()
    ensures Create([]) == []
  {
  }

  lemma {:induction false} CreateSnoc(fields: seq<Field>, f: Field)
    ensures Create(fields + [f]) == Create(fields) + (if fields == [] then [] else [AMPERSAND]) + FieldText(f)
  {
    hide FieldText;
    if fields != [] {
      assert (fields + [f])[1..] == fields[1..] + [f];
      CreateSnoc(fields[1..], f);
      if |fields| == 1 { assert fields[1..] == []; }
    }
  }

  /** Position of the first '&', or the length. */
  function FirstAmpersand(s: Text): (k: nat)
    ensures k <= |s| && AMPERSAND !in s[..k]
    ensures k < |s| ==> s[k] == AMPERSAND
  {
    if s == [] || s[0] == AMPERSAND then 0
    else
      var k := FirstAmpersand(s[1..]);
      assert s[..k + 1] == [s[0]] + s[1..][..k];
      1 + k
  }

  const NPOS := -1

  /** Position of the last '=', or `NPOS`. */
  function LastEquals(s: Text): (k: int)
    ensures NPOS <= k < |s|
    ensures k >= 0 ==> s[k] == EQUALS
    ensures forall i :: 0 <= i < |s| && i > k ==> s[i] != EQUALS
  {
    if s == [] then NPOS
    else if s[|s| - 1] == EQUALS then |s| - 1
    else LastEquals(s[..|s| - 1])
  }

  /** The field in the text between two '&': the name goes up to the last '='. */
  function FieldOf(s: Text): Field {
    var k := LastEquals(s);
    if k == NPOS then Field(s, []) else Field(s[..k], Decode(s[k + 1..]))
  }

  /** A field with an empty name is dropped. */
  function Kept(f: Field): seq<Field> {
    if f.name == [] then [] else [f]
  }

  function Parse(s: Text): seq<Field>
    decreases |s|
  {
    var k := FirstAmpersand(s);
    Kept(FieldOf(s[..k])) + if k == |s| then [] else Parse(s[k + 1..])
  }

  /** The field that the positions kept by the loop of `parse` describe. */
  method FieldAt(s: Text, namePos: nat, nameEnd: int, valuePos: int, end: nat) returns (f: Field)
    requires namePos <= end <= |s|
    requires nameEnd == NPOS <==> valuePos == NPOS
    requires nameEnd != NPOS ==> namePos <= nameEnd < end && valuePos == nameEnd + 1
    requires LastEquals(s[namePos..end]) == if nameEnd == NPOS then NPOS else nameEnd - namePos
    ensures f == FieldOf(s[namePos..end])
  {
    hide Decode, LastEquals;
    var name := s[namePos..if nameEnd == NPOS then end else nameEnd];
    var value: Text := [];
    if valuePos != NPOS {
      value := DecodeValue(s[valuePos..end]);
      assert s[namePos..end][..nameEnd - namePos] == name;
      assert s[namePos..end][nameEnd - namePos + 1..] == s[valuePos..end];
    }
    return Field(name, value);
  }

  /** `parse`: one pass with the positions of the name, of its end and of the value. */
  method ParseQuery(s: Text) returns (result: seq<Field>)
    ensures result == Parse(s)
  {
    hide Parse, FieldOf, FirstAmpersand, LastEquals, Kept;
    result := [];
    if s == [] {
      ParseEmpty();
      return;
    }
    var namePos := 0;
    var nameEnd := NPOS;
    var valuePos := NPOS;
    assert s[0..] == s;
    LastEqualsEmpty(s, 0);
    for c := 0 to |s|
      invariant namePos <= c
      invariant nameEnd == NPOS <==> valuePos == NPOS
      invariant nameEnd != NPOS ==> namePos <= nameEnd < c && valuePos == nameEnd + 1
      invariant LastEquals(s[namePos..c]) == if nameEnd == NPOS then NPOS else nameEnd - namePos
      invariant AMPERSAND !in s[namePos..c]
      invariant result + Parse(s[namePos..]) == Parse(s)
    {
      if s[c] == AMPERSAND {
        ParseStep(s, namePos, c);
        var f := FieldAt(s, namePos, nameEnd, valuePos, c);
        result := result + Kept(f);
        namePos, nameEnd, valuePos := c + 1, NPOS, NPOS;
        LastEqualsEmpty(s, namePos);
      } else {
        LastEqualsSnoc(s, namePos, c);
        if s[c] == EQUALS {
          nameEnd, valuePos := c, c + 1;
        }
      }
    }
    if namePos < |s| {
      ParseStep(s, namePos, |s|);
      var f := FieldAt(s, namePos, nameEnd, valuePos, |s|);
      result := result + Kept(f);
    } else {
      assert s[namePos..] == [];
      ParseEmpty();
    }
  }

  lemma ParseEmpty()
    ensures Parse([]) == []
  {
  }

  lemma LastEqualsEmpty(s: Text, i: nat)
    requires i <= |s|
    ensures LastEquals(s[i..i]) == NPOS
  {
  }

  lemma LastEqualsSnoc(s: Text, from: nat, c: nat)
    requires from <= c < |s|
    ensures LastEquals(s[from..c + 1]) == if s[c] == EQUALS then c - from else LastEquals(s[from..c])
  {
    assert s[from..c + 1][..c - from] == s[from..c];
  }

  lemma NotInSlice(s: Text, from: nat, to: nat, c: byte)
    requires from <= to <= |s| && c !in s[from..to]
    ensures forall i :: from <= i < to ==> s[i] != c
  {
    forall i | from <= i < to ensures s[i] != c {
      assert s[i] == s[from..to][i - from];
    }
  }

  lemma FirstAmpersandUnique(s: Text, k: nat)
    requires k <= |s| && AMPERSAND !in s[..k] && (k < |s| ==> s[k] == AMPERSAND)
    ensures FirstAmpersand(s) == k
  {
    assert s[0..k] == s[..k] && s[0..FirstAmpersand(s)] == s[..FirstAmpersand(s)];
    NotInSlice(s, 0, k, AMPERSAND);
    NotInSlice(s, 0, FirstAmpersand(s), AMPERSAND);
  }

  lemma ParseStep(s: Text, from: nat, c: nat)
    requires from <= c <= |s| && AMPERSAND !in s[from..c] && (c < |s| ==> s[c] == AMPERSAND)
    ensures Parse(s[from..]) == Kept(FieldOf(s[from..c])) + if c == |s| then [] else Parse(s[c + 1..])
  {
    hide FieldOf, FirstAmpersand;
    assert s[from..][..c - from] == s[from..c];
    FirstAmpersandUnique(s[from..], c - from);
    if c < |s| { assert s[from..][c - from + 1..] == s[c + 1..]; }
  }

  // ----- the round trip

  /** A name that comes back: it may even hold '=', but not '&'. */
  predicate GoodName(name: Text) {
    name != [] && AMPERSAND !in name
  }

  lemma {:induction false} EncodedBytes(v: Text)
    ensures AMPERSAND !in Encode(v) && EQUALS !in Encode(v)
  {
    if v != [] {
      EncodedBytes(v[1..]);
      assert AMPERSAND !in EncodeByte(v[0]) && EQUALS !in EncodeByte(v[0]);
    }
  }

  lemma LastEqualsUnique(s: Text, k: nat)
    requires k < |s| && s[k] == EQUALS && EQUALS !in s[k + 1..]
    ensures LastEquals(s) == k
  {
    NotInSlice(s, k + 1, |s|, EQUALS);
  }

  /** The text of a field is read as the field with its value encoded and decoded. */
  lemma FieldOfText(f: Field)
    requires GoodName(f.name)
    ensures AMPERSAND !in FieldText(f) && FieldOf(FieldText(f)) == Field(f.name, Decode(Encode(f.value)))
  {
    hide Encode, Decode, LastEquals;
    var s, e := FieldText(f), Encode(f.value);
    EncodedBytes(f.value);
    assert s[|f.name| + 1..] == e && s[..|f.name|] == f.name;
    LastEqualsUnique(s, |f.name|);
  }

  lemma {:induction false} ParseCreateGood(fields: seq<Field>)
    requires forall i :: 0 <= i < |fields| ==> GoodName(fields[i].name)
    ensures Parse(Create(fields)) == seq(|fields|, i requires 0 <= i < |fields| =>
      Field(fields[i].name, Decode(Encode(fields[i].value))))
  {
    hide FieldText, FieldOf, Decode, Encode, Parse;
    if fields == [] {
      ParseEmpty();
    } else {
      var t, rest, s := FieldText(fields[0]), fields[1..], Create(fields);
      FieldOfText(fields[0]);
      ParseCreateGood(rest);
      assert s[0..] == s && s[0..|t|] == t;
      if |fields| > 1 {
        assert s[|t| + 1..] == Create(rest);
      }
      ParseStep(s, 0, |t|);
    }
  }

  lemma {:induction false} ParsedNames(s: Text)
    ensures forall f :: f in Parse(s) ==> GoodName(f.name)
    decreases |s|
  {
    hide FirstAmpersand, LastEquals, Decode;
    var k := FirstAmpersand(s);
    var f := FieldOf(s[..k]);
    assert AMPERSAND !in f.name;
    if k < |s| { ParsedNames(s[k + 1..]); }
  }

  /** Parsing a created query string gives the fields back, in order, exactly if no name is
      empty or holds '&' and every value is faithful. */
  lemma ParseCreate(fields: seq<Field>)
    ensures Parse(Create(fields)) == fields <==>
      forall i :: 0 <= i < |fields| ==> GoodName(fields[i].name) && Faithful(fields[i].value)
  {
    hide Parse, Create, Decode, Encode, Faithful, GoodName;
    forall i | 0 <= i < |fields|
      ensures Decode(Encode(fields[i].value)) == fields[i].value <==> Faithful(fields[i].value)
    {
      DecodeEncode(fields[i].value);
    }
    ParsedNames(Create(fields));
    if Parse(Create(fields)) == fields {
      forall i | 0 <= i < |fields| ensures GoodName(fields[i].name) {
        assert fields[i] in fields;
      }
    }
    if forall i :: 0 <= i < |fields| ==> GoodName(fields[i].name) {
      ParseCreateGood(fields);
      var back := Parse(Create(fields));
      assert forall i :: 0 <= i < |fields| ==> back[i] == Field(fields[i].name, Decode(Encode(fields[i].value)));
      if back == fields {
        forall i | 0 <= i < |fields| ensures Faithful(fields[i].value) {
          assert back[i] == fields[i];
        }
      }
    }
  }

  // ----- names without '='

  function Joined(names: seq<Text>): Text {
    if names == [] then []
    else if |names| == 1 then names[0]
    else names[0] + [AMPERSAND] + Joined(names[1..])
  }

  /** Text between two '&' without a '=' is a name, taken as it is, with an empty value. */
  lemma {:induction false} ParseNames(names: seq<Text>)
    requires forall i :: 0 <= i < |names| ==> GoodName(names[i]) && EQUALS !in names[i]
    ensures Parse(Joined(names)) == seq(|names|, i requires 0 <= i < |names| => Field(names[i], []))
  {
    hide FieldOf, Decode, Parse;
    if names == [] {
      ParseEmpty();
    } else {
      var name, rest, s := names[0], names[1..], Joined(names);
      NameAlone(name);
      ParseNames(rest);
      assert s[0..] == s && s[0..|name|] == name;
      if |names| > 1 {
        assert s[|name| + 1..] == Joined(rest);
      }
      ParseStep(s, 0, |name|);
    }
  }

  lemma NameAlone(name: Text)
    requires EQUALS !in name
    ensures FieldOf(name) == Field(name, [])
  {
    hide Decode;
  }

  /** "a=b+c&d=%3D" is created from the fields a, "b c" and d, "=". */
  lemma CreateExample()
    ensures Create([Field([0x61], [0x62, 0x20, 0x63]), Field([0x64], [0x3D])]) ==
      [0x61, 0x3D, 0x62, 0x2B, 0x63, 0x26, 0x64, 0x3D, 0x25, 0x33, 0x44]
  {
    hide Encode, EncodeByte, Create;
    EncodeExample();
    var fields := [Field([0x61], [0x62, 0x20, 0x63]), Field([0x64], [0x3D])];
    CreateTwo(fields[0], fields[1]);
    assert fields == [fields[0], fields[1]];
  }

  lemma CreateTwo(f: Field, g: Field)
    ensures Create([f, g]) == FieldText(f) + [AMPERSAND] + FieldText(g)
  {
    hide FieldText;
    assert [f, g][1..] == [g];
  }

  lemma EncodeExample()
    ensures Encode([0x62, 0x20, 0x63]) == [0x62, 0x2B, 0x63] && Encode([0x3D]) == [0x25, 0x33, 0x44]
  {
    assert EncodeByte(0x62) == [0x62] && EncodeByte(0x20) == [0x2B] && EncodeByte(0x63) == [0x63];
    assert EncodeByte(0x3D) == [0x25, 0x33, 0x44];
    hide Encode, EncodeByte;
    EncodeFirst(0x63, []);
    EncodeFirst(0x20, [0x63]);
    EncodeFirst(0x62, [0x20, 0x63]);
    EncodeFirst(0x3D, []);
    assert [0x63] + [] == [0x63] && [0x3D] + [] == [0x3D];
    assert [0x20] + [0x63] == [0x20, 0x63] && [0x62] + [0x20, 0x63] == [0x62, 0x20, 0x63];
  }

  lemma EncodeFirst(c: byte, rest: Text)
    ensures Encode([c] + rest) == EncodeByte(c) + Encode(rest) && Encode([]) == []
  {
    assert ([c] + rest)[1..] == rest;
  }

  // ----- which bytes are encoded

  /** gen-delims and sub-delims of section 2.2 of RFC 3986. */
  const RESERVED: set<byte> := {0x3A, 0x2F, 0x3F, 0x23, 0x5B, 0x5D, 0x40} +
    {0x21, 0x24, 0x26, 0x27, 0x28, 0x29, 0x2A, 0x2B, 0x2C, 0x3B, 0x3D}

  /** The reserved bytes are encoded, and so are the digits, which need not be; '%' is not. */
  lemma EscapedIff(c: byte)
    ensures Escaped(c) <==> c in RESERVED || IsDigit(c)
  {
  }

  /** "0123456789ABCDEF" */
  const HEX_CHARS: Text := [0x30, 0x31, 0x32, 0x33, 0x34, 0x35, 0x36, 0x37, 0x38, 0x39, 0x41, 0x42, 0x43, 0x44, 0x45, 0x46]

  /** An encoded byte is '%' and the two digits of its value, in upper case. */
  lemma EncodedForm(c: byte)
    requires c in RESERVED || IsDigit(c)
    ensures EncodeByte(c) == [PERCENT, HEX_CHARS[c / 16], HEX_CHARS[c % 16]]
  {
    UpperHexChar(c / 16);
    UpperHexChar(c % 16);
    EscapedIff(c);
    hide UpperHex, Escaped;
  }

  lemma UpperHexChar(n: nat)
    requires n < 16
    ensures UpperHex(n) == HEX_CHARS[n]
  {
  }
}
