/**
 CBOR (section 2.1 of RFC 7049): `to_cbor` and `from_cbor`.

 The decoder's loops over the items of an array or map carry their result along, as
 the functions that specify them do.
 */
module Cbor {
  import opened Bytes
  import opened Results
  import opened Json
  import opened Binary

  // ----- encoding

  /** A header: the type in the upper bits of `base`, then the number in the shortest of
      the five forms. */
  function Head(base: byte, n: nat): Text
    requires base <= 0xA0
  {
    if n <= 0x17 then [base + n]
    else if n <= 0xFF then [base + 0x18] + BigEndian(n, 1)
    else if n <= 0xFFFF then [base + 0x19] + BigEndian(n, 2)
    else if n <= 0xFFFF_FFFF then [base + 0x1A] + BigEndian(n, 4)
    else if n <= 0xFFFF_FFFF_FFFF_FFFF then [base + 0x1B] + BigEndian(n, 8)
    else []
  }

  function Encode(j: Json): Text
    decreases j
  {
    match j
    case Null => [0xF6]
    case Boolean(b) => [if b then 0xF5 else 0xF4]
    case Integer(i) => if i >= 0 then Head(0x00, i) else Head(0x20, -1 - i)
    case Unsigned(u) => Head(0x00, u)
    case Float(bits) => [0xFB] + BigEndian(bits, 8)
    case String(s) => Head(0x60, |s|) + s
    case Array(es) => Head(0x80, |es|) + EncodeElems(j, 0)
    case Object(m) => Head(0xA0, |m|) + EncodeMembers(j, SortedKeys(m.Keys), 0)
  }

  function EncodeElems(j: Json, i: nat): Text
    requires j.Array?
    decreases j, |j.elems| - i
  {
    if i < |j.elems| then Encode(j.elems[i]) + EncodeElems(j, i + 1) else []
  }

  function EncodeMembers(j: Json, ks: seq<Text>, i: nat): Text
    requires j.Object? && forall k | k in ks :: k in j.members
    decreases j, |ks| - i
  {
    if i < |ks| then
      Head(0x60, |ks[i]|) + ks[i] + (Encode(j.members[ks[i]]) + EncodeMembers(j, ks, i + 1))
    else []
  }

  method WriteHead(v: Output, base: byte, n: nat)
    requires base <= 0xA0
    modifies v
    ensures v.bytes == old(v.bytes) + Head(base, n)
  {
    hide BigEndian;
    if n <= 0x17 {
      v.PushBack(base + n);
    } else if n <= 0xFF {
      v.PushBack(base + 0x18);
      v.AddToVector(1, n);
    } else if n <= 0xFFFF {
      v.PushBack(base + 0x19);
      v.AddToVector(2, n);
    } else if n <= 0xFFFF_FFFF {
      v.PushBack(base + 0x1A);
      v.AddToVector(4, n);
    } else if n <= 0xFFFF_FFFF_FFFF_FFFF {
      v.PushBack(base + 0x1B);
      v.AddToVector(8, n);
    }
  }

  /** `to_cbor_internal` */
  method ToCbor(j: Json, v: Output)
    modifies v
    ensures v.bytes == old(v.bytes) + Encode(j)
    decreases j, 1
  {
    hide Head, BigEndian, EncodeElems, EncodeMembers, SortedKeys;
    match j
    case Null => v.PushBack(0xF6);
    case Boolean(b) => v.PushBack(if b then 0xF5 else 0xF4);
    case Integer(i) =>
      if i >= 0 {
        WriteHead(v, 0x00, i);
      } else {
        WriteHead(v, 0x20, -1 - i);
      }
    case Unsigned(u) => WriteHead(v, 0x00, u);
    case Float(bits) =>
      v.PushBack(0xFB);
      v.AddToVector(8, bits);
    case String(s) =>
      WriteHead(v, 0x60, |s|);
      v.Append(s);
    case Array(es) =>
      WriteHead(v, 0x80, |es|);
      WriteElems(j, v);
    case Object(m) =>
      WriteHead(v, 0xA0, |m|);
      WriteMembers(j, v);
  }

  method WriteElems(j: Json, v: Output)
    requires j.Array?
    modifies v
    ensures v.bytes == old(v.bytes) + EncodeElems(j, 0)
    decreases j, 0
  {
    hide Encode;
    ghost var rest := EncodeElems(j, 0);
    var i := 0;
    while i < |j.elems|
      invariant 0 <= i <= |j.elems|
      invariant rest == EncodeElems(j, i)
      invariant v.bytes + rest == old(v.bytes) + EncodeElems(j, 0)
    {
      ghost var before := v.bytes;
      rest := EncodeElems(j, i + 1);
      ToCbor(j.elems[i], v);
      assert v.bytes + rest == before + (Encode(j.elems[i]) + rest);
      i := i + 1;
    }
  }

  method WriteMembers(j: Json, v: Output)
    requires j.Object?
    modifies v
    ensures v.bytes == old(v.bytes) + EncodeMembers(j, SortedKeys(j.members.Keys), 0)
    decreases j, 0
  {
    hide Head, Encode, SortedKeys;
    var ks := SortedKeys(j.members.Keys);
    ghost var rest := EncodeMembers(j, ks, 0);
    var i := 0;
    while i < |ks|
      invariant 0 <= i <= |ks|
      invariant rest == EncodeMembers(j, ks, i)
      invariant v.bytes + rest == old(v.bytes) + EncodeMembers(j, ks, 0)
    {
      ghost var before := v.bytes;
      rest := EncodeMembers(j, ks, i + 1);
      WriteHead(v, 0x60, |ks[i]|);
      v.Append(ks[i]);
      ToCbor(j.members[ks[i]], v);
      assert v.bytes + rest == before + (Head(0x60, |ks[i]|) + ks[i] + (Encode(j.members[ks[i]]) + rest));
      i := i + 1;
    }
  }

  // ----- decoding

  function Width(form: nat): nat {
    if form == 0x18 then 1 else if form == 0x19 then 2 else if form == 0x1A then 4 else 8
  }

  /** The number in the header at `idx`, whose lower bits are `form`, and the index after it. */
  function ReadHead(v: Text, idx: nat, form: nat): (r: Decoded<nat>)
    requires idx < |v| && form <= 0x1B
    ensures r.Ok? ==> idx < r.value.1 <= |v| && r.value.0 < TWO_TO_THE_64
  {
    Ranges();
    if form <= 0x17 then Ok((form, idx + 1))
    else
      var n :- GetFromVector(v, idx, Width(form));
      Ok((n, idx + 1 + Width(form)))
  }

  /** `from_cbor_internal`. Whatever lengths the headers declare, decoding ends, because
      every item takes at least one byte. */
  function Decode(v: Text, idx: nat): (r: Decoded<Json>)
    ensures r.Ok? ==> idx < r.value.1 <= |v|
    decreases |v| - idx, 0, 0
  {
    if idx >= |v| then Err(OutOfRange)
    else
      var b := v[idx];
      if b <= 0x1B then
        var (n, next) :- ReadHead(v, idx, b);
        Ok((Unsigned(n), next))
      else if 0x20 <= b <= 0x3B then
        var (n, next) :- ReadHead(v, idx, b - 0x20);
        Ok((Integer(-1 - ToSigned(n)), next))
      else if 0x60 <= b <= 0x7B then
        var (n, next) :- ReadHead(v, idx, b - 0x60);
        GetString(v, n, next)
      else if b == 0x7F then
        var (s, next) :- DecodeChunks(v, idx + 1, []);
        Ok((String(s), next))
      else if 0x80 <= b <= 0x9B then
        var (n, next) :- ReadHead(v, idx, b - 0x80);
        var (es, end) :- DecodeElems(v, next, n, []);
        Ok((Array(es), end))
      else if b == 0x9F then
        var (es, next) :- DecodeElemsToBreak(v, idx + 1, []);
        Ok((Array(es), next))
      else if 0xA0 <= b <= 0xBB then
        var (n, next) :- ReadHead(v, idx, b - 0xA0);
        var (m, end) :- DecodeMembers(v, next, n, map[]);
        Ok((Object(m), end))
      else if b == 0xBF then
        var (m, next) :- DecodeMembersToBreak(v, idx + 1, map[]);
        Ok((Object(m), next))
      else if b == 0xF4 then Ok((Boolean(false), idx + 1))
      else if b == 0xF5 then Ok((Boolean(true), idx + 1))
      else if b == 0xF6 then Ok((Null, idx + 1))
      else if b == 0xF9 then GetFloat(v, idx, 2)
      else if b == 0xFA then GetFloat(v, idx, 4)
      else if b == 0xFB then GetFloat(v, idx, 8)
      else Err(InvalidArgument)
  }

  function DecodeElems(v: Text, idx: nat, n: nat, acc: seq<Json>): (r: Decoded<seq<Json>>)
    requires idx <= |v|
    ensures r.Ok? ==> idx <= r.value.1 <= |v|
    decreases |v| - idx, 1, n
  {
    if n == 0 then Ok((acc, idx))
    else
      var (x, next) :- Decode(v, idx);
      DecodeElems(v, next, n - 1, acc + [x])
  }

  function DecodeMembers(v: Text, idx: nat, n: nat, acc: map<Text, Json>): (r: Decoded<map<Text, Json>>)
    requires idx <= |v|
    ensures r.Ok? ==> idx <= r.value.1 <= |v|
    decreases |v| - idx, 1, n
  {
    if n == 0 then Ok((acc, idx))
    else
      var (k, next) :- Decode(v, idx);
      var key :- AsText(k);
      var (x, end) :- Decode(v, next);
      DecodeMembers(v, end, n - 1, acc[key := x])
  }

  /** The chunks of a string of indefinite length, up to the break byte. */
  function DecodeChunks(v: Text, idx: nat, acc: Text): (r: Decoded<Text>)
    requires idx <= |v|
    ensures r.Ok? ==> idx < r.value.1 <= |v|
    decreases |v| - idx, 1, 0
  {
    if idx >= |v| then Err(OutOfRange)
    else if v[idx] == 0xFF then Ok((acc, idx + 1))
    else
      var (x, next) :- Decode(v, idx);
      var chunk :- AsText(x);
      DecodeChunks(v, next, acc + chunk)
  }

  function DecodeElemsToBreak(v: Text, idx: nat, acc: seq<Json>): (r: Decoded<seq<Json>>)
    requires idx <= |v|
    ensures r.Ok? ==> idx < r.value.1 <= |v|
    decreases |v| - idx, 1, 0
  {
    if idx >= |v| then Err(OutOfRange)
    else if v[idx] == 0xFF then Ok((acc, idx + 1))
    else
      var (x, next) :- Decode(v, idx);
      DecodeElemsToBreak(v, next, acc + [x])
  }

  function DecodeMembersToBreak(v: Text, idx: nat, acc: map<Text, Json>): (r: Decoded<map<Text, Json>>)
    requires idx <= |v|
    ensures r.Ok? ==> idx < r.value.1 <= |v|
    decreases |v| - idx, 1, 0
  {
    if idx >= |v| then Err(OutOfRange)
    else if v[idx] == 0xFF then Ok((acc, idx + 1))
    else
      var (k, next) :- Decode(v, idx);
      var key :- AsText(k);
      var (x, end) :- Decode(v, next);
      DecodeMembersToBreak(v, end, acc[key := x])
  }

  // ----- the decoder as it runs

  /** The byte vector and the index that the decoder advances. */
  class Input {
    const v: Text
    var idx: nat

    constructor (v: Text, start: nat)
      ensures this.v == v && idx == start
    {
      this.v := v;
      idx := start;
    }

    /** The result of a step matches its specification, and so does the index if it succeeds. */
    ghost predicate Matches<T>(spec: Decoded<T>, r: Result<T>)
      reads this
    {
      match spec
      case Ok((x, next)) => r == Ok(x) && idx == next
      case Err(e) => r == Err(e)
    }

    /** Reads the number of a header; `idx` is already past its first byte. */
    method TakeHead(form: nat) returns (r: Result<nat>)
      requires 0 < idx <= |v| && form <= 0x1B
      modifies this
      ensures Matches(ReadHead(v, old(idx) - 1, form), r)
    {
      if form <= 0x17 {
        return Ok(form);
      }
      var width := Width(form);
      var n := GetFromVector(v, idx - 1, width);
      idx := idx + width;
      return n;
    }

    method FromCbor() returns (r: Result<Json>)
      modifies this
      ensures Matches(Decode(v, old(idx)), r)
      decreases |v| - idx, 0, 0
    {
      hide ReadHead, GetString, GetFloat, DecodeElems, DecodeMembers, DecodeChunks, DecodeElemsToBreak, DecodeMembersToBreak;
      var current := idx;
      idx := idx + 1;
      if current >= |v| {
        return Err(OutOfRange);
      }
      var b := v[current];
      if b <= 0x1B {
        var n :- TakeHead(b);
        return Ok(Unsigned(n));
      } else if 0x20 <= b <= 0x3B {
        var n :- TakeHead(b - 0x20);
        return Ok(Integer(-1 - ToSigned(n)));
      } else if 0x60 <= b <= 0x7B {
        var n :- TakeHead(b - 0x60);
        var text :- GetString(v, n, idx);
        idx := text.1;
        return Ok(text.0);
      } else if b == 0x7F {
        r := Chunks();
      } else if 0x80 <= b <= 0x9B {
        var n :- TakeHead(b - 0x80);
        r := Elems(n);
      } else if b == 0x9F {
        r := ElemsToBreak();
      } else if 0xA0 <= b <= 0xBB {
        var n :- TakeHead(b - 0xA0);
        r := Members(n);
      } else if b == 0xBF {
        r := MembersToBreak();
      } else if b == 0xF4 || b == 0xF5 {
        return Ok(Boolean(b == 0xF5));
      } else if b == 0xF6 {
        return Ok(Null);
      } else if b == 0xF9 || b == 0xFA || b == 0xFB {
        var number :- GetFloat(v, current, if b == 0xF9 then 2 else if b == 0xFA then 4 else 8);
        idx := number.1;
        return Ok(number.0);
      } else {
        return Err(InvalidArgument);
      }
    }

    ghost predicate MatchesArray(spec: Decoded<seq<Json>>, r: Result<Json>)
      reads this
    {
      match spec
      case Ok((es, next)) => r == Ok(Array(es)) && idx == next
      case Err(e) => r == Err(e)
    }

    ghost predicate MatchesObject(spec: Decoded<map<Text, Json>>, r: Result<Json>)
      reads this
    {
      match spec
      case Ok((m, next)) => r == Ok(Object(m)) && idx == next
      case Err(e) => r == Err(e)
    }

    ghost predicate MatchesString(spec: Decoded<Text>, r: Result<Json>)
      reads this
    {
      match spec
      case Ok((s, next)) => r == Ok(String(s)) && idx == next
      case Err(e) => r == Err(e)
    }

    method Elems(len: nat) returns (r: Result<Json>)
      requires idx <= |v|
      modifies this
      ensures MatchesArray(DecodeElems(v, old(idx), len, []), r)
      decreases |v| - idx, 1, 0
    {
      hide Decode;
      var result: seq<Json> := [];
      var i := 0;
      while i < len
        invariant 0 <= i <= len && old(idx) <= idx <= |v|
        invariant DecodeElems(v, old(idx), len, []) == DecodeElems(v, idx, len - i, result)
      {
        var x :- FromCbor();
        result := result + [x];
        i := i + 1;
      }
      return Ok(Array(result));
    }

    method Members(len: nat) returns (r: Result<Json>)
      requires idx <= |v|
      modifies this
      ensures MatchesObject(DecodeMembers(v, old(idx), len, map[]), r)
      decreases |v| - idx, 1, 0
    {
      hide Decode;
      var result: map<Text, Json> := map[];
      var i := 0;
      while i < len
        invariant 0 <= i <= len && old(idx) <= idx <= |v|
        invariant DecodeMembers(v, old(idx), len, map[]) == DecodeMembers(v, idx, len - i, result)
      {
        var k :- FromCbor();
        var key :- AsText(k);
        var x :- FromCbor();
        result := result[key := x];
        i := i + 1;
      }
      return Ok(Object(result));
    }

    method Chunks() returns (r: Result<Json>)
      requires idx <= |v|
      modifies this
      ensures MatchesString(DecodeChunks(v, old(idx), []), r)
      decreases |v| - idx, 1, 0
    {
      hide Decode;
      var result: Text := [];
      while idx < |v| && v[idx] != 0xFF
        invariant old(idx) <= idx <= |v|
        invariant DecodeChunks(v, old(idx), []) == DecodeChunks(v, idx, result)
        decreases |v| - idx
      {
        var x :- FromCbor();
        var chunk :- AsText(x);
        result := result + chunk;
      }
      if idx >= |v| {
        return Err(OutOfRange);
      }
      idx := idx + 1;
      return Ok(String(result));
    }

    method ElemsToBreak() returns (r: Result<Json>)
      requires idx <= |v|
      modifies this
      ensures MatchesArray(DecodeElemsToBreak(v, old(idx), []), r)
      decreases |v| - idx, 1, 0
    {
      hide Decode;
      var result: seq<Json> := [];
      while idx < |v| && v[idx] != 0xFF
        invariant old(idx) <= idx <= |v|
        invariant DecodeElemsToBreak(v, old(idx), []) == DecodeElemsToBreak(v, idx, result)
        decreases |v| - idx
      {
        var x :- FromCbor();
        result := result + [x];
      }
      if idx >= |v| {
        return Err(OutOfRange);
      }
      idx := idx + 1;
      return Ok(Array(result));
    }

    method MembersToBreak() returns (r: Result<Json>)
      requires idx <= |v|
      modifies this
      ensures MatchesObject(DecodeMembersToBreak(v, old(idx), map[]), r)
      decreases |v| - idx, 1, 0
    {
      hide Decode;
      var result: map<Text, Json> := map[];
      while idx < |v| && v[idx] != 0xFF
        invariant old(idx) <= idx <= |v|
        invariant DecodeMembersToBreak(v, old(idx), map[]) == DecodeMembersToBreak(v, idx, result)
        decreases |v| - idx
      {
        var k :- FromCbor();
        var key :- AsText(k);
        var x :- FromCbor();
        result := result[key := x];
      }
      if idx >= |v| {
        return Err(OutOfRange);
      }
      idx := idx + 1;
      return Ok(Object(result));
    }
  }
}
