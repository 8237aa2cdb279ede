/** MessagePack: `to_msgpack` and `from_msgpack`. */
module MessagePack {
  import opened Bytes
  import opened Results
  import opened Json
  import opened Binary

  // ----- encoding

  function EncodeUnsigned(n: nat): Text {
    if n < 128 then BigEndian(n, 1)
    else if n <= 0xFF then [0xCC] + BigEndian(n, 1)
    else if n <= 0xFFFF then [0xCD] + BigEndian(n, 2)
    else if n <= 0xFFFF_FFFF then [0xCE] + BigEndian(n, 4)
    else if n <= 0xFFFF_FFFF_FFFF_FFFF then [0xCF] + BigEndian(n, 8)
    else []
  }

  function EncodeNegative(i: int): Text
    requires i < 0
  {
    if i >= -32 then BigEndian(i, 1)
    else if i >= -0x80 then [0xD0] + BigEndian(i, 1)
    else if i >= -0x8000 then [0xD1] + BigEndian(i, 2)
    else if i >= -0x8000_0000 then [0xD2] + BigEndian(i, 4)
    else if i >= -TWO_TO_THE_63 then [0xD3] + BigEndian(i, 8)
    else []
  }

  /** The header of a string of `n` bytes; too long a string gets none. */
  function StringHead(n: nat): Text {
    if n <= 31 then [0xA0 + n]
    else if n <= 255 then [0xD9] + BigEndian(n, 1)
    else if n <= 65535 then [0xDA] + BigEndian(n, 2)
    else if n <= 4294967295 then [0xDB] + BigEndian(n, 4)
    else []
  }

  /** The header of an array (`base` 0x90, `wide` 0xDC) or a map (0x80, 0xDE). */
  function ContainerHead(base: byte, wide: byte, n: nat): Text
    requires base <= 0x90 && wide <= 0xDE
  {
    if n <= 15 then [base + n]
    else if n <= 0xFFFF then [wide] + BigEndian(n, 2)
    else if n <= 0xFFFF_FFFF then [wide + 1] + BigEndian(n, 4)
    else []
  }

  function Encode(j: Json): Text
    decreases j
  {
    match j
    case Null => [0xC0]
    case Boolean(b) => [if b then 0xC3 else 0xC2]
    case Integer(i) => if i >= 0 then EncodeUnsigned(i) else EncodeNegative(i)
    case Unsigned(u) => EncodeUnsigned(u)
    case Float(bits) => [0xCB] + BigEndian(bits, 8)
    case String(s) => StringHead(|s|) + s
    case Array(es) => ContainerHead(0x90, 0xDC, |es|) + EncodeElems(j, 0)
    case Object(m) => ContainerHead(0x80, 0xDE, |m|) + EncodeMembers(j, SortedKeys(m.Keys), 0)
  }

  function EncodeElems(j: Json, i: nat): Text
    requires j.Array?
    decreases j, |j.elems| - i
  {
    if i < |j.elems| then Encode(j.elems[i]) + EncodeElems(j, i + 1) else []
  }

  function EncodeMembers(j: Json, ks: seq<Text>, i: nat): Text
    requires j.Object? && forall k | k in ks :: k in j.members
    decreases j, |ks| - i
  {
    if i < |ks| then
      StringHead(|ks[i]|) + ks[i] + (Encode(j.members[ks[i]]) + EncodeMembers(j, ks, i + 1))
    else []
  }

  method WriteUnsigned(v: Output, n: nat)
    modifies v
    ensures v.bytes == old(v.bytes) + EncodeUnsigned(n)
  {
    hide BigEndian;
    if n < 128 {
      v.AddToVector(1, n);
    } else if n <= 0xFF {
      v.PushBack(0xCC);
      v.AddToVector(1, n);
    } else if n <= 0xFFFF {
      v.PushBack(0xCD);
      v.AddToVector(2, n);
    } else if n <= 0xFFFF_FFFF {
      v.PushBack(0xCE);
      v.AddToVector(4, n);
    } else if n <= 0xFFFF_FFFF_FFFF_FFFF {
      v.PushBack(0xCF);
      v.AddToVector(8, n);
    }
  }

  method WriteNegative(v: Output, i: int)
    requires i < 0
    modifies v
    ensures v.bytes == old(v.bytes) + EncodeNegative(i)
  {
    hide BigEndian;
    if i >= -32 {
      v.AddToVector(1, i);
    } else if i >= -0x80 {
      v.PushBack(0xD0);
      v.AddToVector(1, i);
    } else if i >= -0x8000 {
      v.PushBack(0xD1);
      v.AddToVector(2, i);
    } else if i >= -0x8000_0000 {
      v.PushBack(0xD2);
      v.AddToVector(4, i);
    } else if i >= -TWO_TO_THE_63 {
      v.PushBack(0xD3);
      v.AddToVector(8, i);
    }
  }

  method WriteString(v: Output, s: Text)
    modifies v
    ensures v.bytes == old(v.bytes) + (StringHead(|s|) + s)
  {
    hide BigEndian;
    var n := |s|;
    if n <= 31 {
      v.PushBack(0xA0 + n);
    } else if n <= 255 {
      v.PushBack(0xD9);
      v.AddToVector(1, n);
    } else if n <= 65535 {
      v.PushBack(0xDA);
      v.AddToVector(2, n);
    } else if n <= 4294967295 {
      v.PushBack(0xDB);
      v.AddToVector(4, n);
    }
    assert v.bytes == old(v.bytes) + StringHead(n);
    v.Append(s);
  }

  method WriteContainerHead(v: Output, base: byte, wide: byte, n: nat)
    requires base <= 0x90 && wide <= 0xDE
    modifies v
    ensures v.bytes == old(v.bytes) + ContainerHead(base, wide, n)
  {
    hide BigEndian;
    if n <= 15 {
      v.PushBack(base + n);
    } else if n <= 0xFFFF {
      v.PushBack(wide);
      v.AddToVector(2, n);
    } else if n <= 0xFFFF_FFFF {
      v.PushBack(wide + 1);
      v.AddToVector(4, n);
    }
  }

  /** `to_msgpack_internal` */
  method ToMessagePack(j: Json, v: Output)
    modifies v
    ensures v.bytes == old(v.bytes) + Encode(j)
    decreases j, 1
  {
    hide EncodeUnsigned, EncodeNegative, StringHead, ContainerHead, BigEndian, EncodeElems, EncodeMembers, SortedKeys;
    match j
    case Null => v.PushBack(0xC0);
    case Boolean(b) => v.PushBack(if b then 0xC3 else 0xC2);
    case Integer(i) =>
      if i >= 0 {
        WriteUnsigned(v, i);
      } else {
        WriteNegative(v, i);
      }
    case Unsigned(u) => WriteUnsigned(v, u);
    case Float(bits) =>
      v.PushBack(0xCB);
      v.AddToVector(8, bits);
    case String(s) => WriteString(v, s);
    case Array(es) =>
      WriteContainerHead(v, 0x90, 0xDC, |es|);
      WriteElems(j, v);
    case Object(m) =>
      WriteContainerHead(v, 0x80, 0xDE, |m|);
      WriteMembers(j, v);
  }

  method WriteElems(j: Json, v: Output)
    requires j.Array?
    modifies v
    ensures v.bytes == old(v.bytes) + EncodeElems(j, 0)
    decreases j, 0
  {
    hide Encode;
    ghost var rest := EncodeElems(j, 0);
    var i := 0;
    while i < |j.elems|
      invariant 0 <= i <= |j.elems|
      invariant rest == EncodeElems(j, i)
      invariant v.bytes + rest == old(v.bytes) + EncodeElems(j, 0)
    {
      ghost var before := v.bytes;
      rest := EncodeElems(j, i + 1);
      ToMessagePack(j.elems[i], v);
      assert v.bytes + rest == before + (Encode(j.elems[i]) + rest);
      i := i + 1;
    }
  }

  method WriteMembers(j: Json, v: Output)
    requires j.Object?
    modifies v
    ensures v.bytes == old(v.bytes) + EncodeMembers(j, SortedKeys(j.members.Keys), 0)
    decreases j, 0
  {
    hide StringHead, Encode, SortedKeys;
    var ks := SortedKeys(j.members.Keys);
    ghost var rest := EncodeMembers(j, ks, 0);
    var i := 0;
    while i < |ks|
      invariant 0 <= i <= |ks|
      invariant rest == EncodeMembers(j, ks, i)
      invariant v.bytes + rest == old(v.bytes) + EncodeMembers(j, ks, 0)
    {
      ghost var before := v.bytes;
      rest := EncodeMembers(j, ks, i + 1);
      WriteString(v, ks[i]);
      ToMessagePack(j.members[ks[i]], v);
      assert v.bytes + rest == before + (StringHead(|ks[i]|) + ks[i] + (Encode(j.members[ks[i]]) + rest));
      i := i + 1;
    }
  }

  // ----- decoding

  /** A number of `width` bytes after the header at `idx`. */
  function ReadUnsigned(v: Text, idx: nat, width: nat): (r: Decoded<Json>)
    requires idx < |v| && width <= 8
    ensures r.Ok? ==> idx < r.value.1 <= |v|
  {
    var n :- GetFromVector(v, idx, width);
    RangeBound(width);
    Ok((Unsigned(n), idx + 1 + width))
  }

  function ReadSigned(v: Text, idx: nat, width: nat): (r: Decoded<Json>)
    requires idx < |v| && 0 < width <= 8
    ensures r.Ok? ==> idx < r.value.1 <= |v|
  {
    var i :- GetSigned(v, idx, width);
    RangeBound(width);
    Ok((Integer(i), idx + 1 + width))
  }

  lemma {:induction false} RangeBound(width: nat)
    requires width <= 8
    ensures Range(width) <= TWO_TO_THE_64
    decreases 8 - width
  {
    if width < 8 { RangeBound(width + 1); } else { Ranges(); }
  }

  function ReadString(v: Text, idx: nat, width: nat): (r: Decoded<Json>)
    requires idx < |v|
    ensures r.Ok? ==> idx < r.value.1 <= |v|
  {
    var n :- GetFromVector(v, idx, width);
    GetString(v, n, idx + 1 + width)
  }

  /** A byte read as a signed number; the header of a small negative number is the number. */
  function NegativeFixint(b: byte): int64 {
    var i: int := b;
    i - 256
  }

  /** `from_msgpack_internal` */
  function Decode(v: Text, idx: nat): (r: Decoded<Json>)
    ensures r.Ok? ==> idx < r.value.1 <= |v|
    decreases |v| - idx, 0, 0
  {
    if !LengthFits(|v|, 1, idx) then Err(OutOfRange)
    else
      var b := v[idx];
      if b <= 0x7F then Ok((Unsigned(b), idx + 1))
      else if b <= 0x8F then DecodeObject(v, idx + 1, b - 0x80)
      else if b <= 0x9F then DecodeArray(v, idx + 1, b - 0x90)
      else if b <= 0xBF then GetString(v, b - 0xA0, idx + 1)
      else if b >= 0xE0 then Ok((Integer(NegativeFixint(b)), idx + 1))
      else if b == 0xC0 then Ok((Null, idx + 1))
      else if b == 0xC2 then Ok((Boolean(false), idx + 1))
      else if b == 0xC3 then Ok((Boolean(true), idx + 1))
      else if b == 0xCA then GetFloat(v, idx, 4)
      else if b == 0xCB then GetFloat(v, idx, 8)
      else if b == 0xCC then ReadUnsigned(v, idx, 1)
      else if b == 0xCD then ReadUnsigned(v, idx, 2)
      else if b == 0xCE then ReadUnsigned(v, idx, 4)
      else if b == 0xCF then ReadUnsigned(v, idx, 8)
      else if b == 0xD0 then ReadSigned(v, idx, 1)
      else if b == 0xD1 then ReadSigned(v, idx, 2)
      else if b == 0xD2 then ReadSigned(v, idx, 4)
      else if b == 0xD3 then ReadSigned(v, idx, 8)
      else if b == 0xD9 then ReadString(v, idx, 1)
      else if b == 0xDA then ReadString(v, idx, 2)
      else if b == 0xDB then ReadString(v, idx, 4)
      else if b == 0xDC then
        var n :- GetFromVector(v, idx, 2);
        DecodeArray(v, idx + 3, n)
      else if b == 0xDD then
        var n :- GetFromVector(v, idx, 4);
        DecodeArray(v, idx + 5, n)
      else if b == 0xDE then
        var n :- GetFromVector(v, idx, 2);
        DecodeObject(v, idx + 3, n)
      else if b == 0xDF then
        var n :- GetFromVector(v, idx, 4);
        DecodeObject(v, idx + 5, n)
      else Err(InvalidArgument)
  }

  function DecodeArray(v: Text, idx: nat, n: nat): (r: Decoded<Json>)
    requires idx <= |v|
    ensures r.Ok? ==> idx <= r.value.1 <= |v|
    decreases |v| - idx, 2, 0
  {
    var (es, next) :- DecodeElems(v, idx, n, []);
    Ok((Array(es), next))
  }

  function DecodeObject(v: Text, idx: nat, n: nat): (r: Decoded<Json>)
    requires idx <= |v|
    ensures r.Ok? ==> idx <= r.value.1 <= |v|
    decreases |v| - idx, 2, 0
  {
    var (m, next) :- DecodeMembers(v, idx, n, map[]);
    Ok((Object(m), next))
  }

  function DecodeElems(v: Text, idx: nat, n: nat, acc: seq<Json>): (r: Decoded<seq<Json>>)
    requires idx <= |v|
    ensures r.Ok? ==> idx <= r.value.1 <= |v|
    decreases |v| - idx, 1, n
  {
    if n == 0 then Ok((acc, idx))
    else
      var (x, next) :- Decode(v, idx);
      DecodeElems(v, next, n - 1, acc + [x])
  }

  function DecodeMembers(v: Text, idx: nat, n: nat, acc: map<Text, Json>): (r: Decoded<map<Text, Json>>)
    requires idx <= |v|
    ensures r.Ok? ==> idx <= r.value.1 <= |v|
    decreases |v| - idx, 1, n
  {
    if n == 0 then Ok((acc, idx))
    else
      var (k, next) :- Decode(v, idx);
      var key :- AsText(k);
      var (x, end) :- Decode(v, next);
      DecodeMembers(v, end, n - 1, acc[key := x])
  }

  // ----- the decoder as it runs

  /** The byte vector and the index that the decoder advances. */
  class Input {
    const v: Text
    var idx: nat

    constructor (v: Text, start: nat)
      ensures this.v == v && idx == start
    {
      this.v := v;
      idx := start;
    }

    ghost predicate Matches(spec: Decoded<Json>, r: Result<Json>)
      reads this
    {
      match spec
      case Ok((x, next)) => r == Ok(x) && idx == next
      case Err(e) => r == Err(e)
    }

    /** Takes over the result of reading an item without parts. */
    method Take(read: Decoded<Json>) returns (r: Result<Json>)
      modifies this
      ensures Matches(read, r)
    {
      if read.Err? {
        return Err(read.error);
      }
      idx := read.value.1;
      return Ok(read.value.0);
    }

    method FromMessagePack() returns (r: Result<Json>)
      modifies this
      ensures Matches(Decode(v, old(idx)), r)
      decreases |v| - idx, 0, 0
    {
      hide GetString, GetFloat, ReadUnsigned, ReadSigned, ReadString, DecodeArray, DecodeObject, GetFromVector;
      if !LengthFits(|v|, 1, idx) {
        return Err(OutOfRange);
      }
      var current := idx;
      idx := idx + 1;
      var b := v[current];
      if b <= 0x7F {
        return Ok(Unsigned(b));
      } else if b <= 0x8F {
        r := Members(b - 0x80);
      } else if b <= 0x9F {
        r := Elems(b - 0x90);
      } else if b <= 0xBF {
        r := Take(GetString(v, b - 0xA0, current + 1));
      } else if b >= 0xE0 {
        return Ok(Integer(NegativeFixint(b)));
      } else if 0xDC <= b <= 0xDF {
        var width := if b % 2 == 0 then 2 else 4;
        var len :- GetFromVector(v, current, width);
        idx := idx + width;
        if b <= 0xDD {
          r := Elems(len);
        } else {
          r := Members(len);
        }
      } else {
        r := Scalar(current, b);
      }
    }

    /** The remaining headers, none of which has further items below it. */
    method Scalar(current: nat, b: byte) returns (r: Result<Json>)
      requires current < |v| && LengthFits(|v|, 1, current) && v[current] == b && 0xC0 <= b < 0xDC
      requires idx == current + 1
      modifies this
      ensures Matches(Decode(v, current), r)
    {
      hide GetString, GetFloat, ReadUnsigned, ReadSigned, ReadString, DecodeArray, DecodeObject, GetFromVector;
      match b
      case 0xC0 => return Ok(Null);
      case 0xC2 => return Ok(Boolean(false));
      case 0xC3 => return Ok(Boolean(true));
      case 0xCA => r := Take(GetFloat(v, current, 4));
      case 0xCB => r := Take(GetFloat(v, current, 8));
      case 0xCC => r := Take(ReadUnsigned(v, current, 1));
      case 0xCD => r := Take(ReadUnsigned(v, current, 2));
      case 0xCE => r := Take(ReadUnsigned(v, current, 4));
      case 0xCF => r := Take(ReadUnsigned(v, current, 8));
      case 0xD0 => r := Take(ReadSigned(v, current, 1));
      case 0xD1 => r := Take(ReadSigned(v, current, 2));
      case 0xD2 => r := Take(ReadSigned(v, current, 4));
      case 0xD3 => r := Take(ReadSigned(v, current, 8));
      case 0xD9 => r := Take(ReadString(v, current, 1));
      case 0xDA => r := Take(ReadString(v, current, 2));
      case 0xDB => r := Take(ReadString(v, current, 4));
      case _ => return Err(InvalidArgument);
    }

    method Elems(len: nat) returns (r: Result<Json>)
      requires idx <= |v|
      modifies this
      ensures Matches(DecodeArray(v, old(idx), len), r)
      decreases |v| - idx, 1, 0
    {
      hide Decode;
      var result: seq<Json> := [];
      var i := 0;
      while i < len
        invariant 0 <= i <= len && old(idx) <= idx <= |v|
        invariant DecodeElems(v, old(idx), len, []) == DecodeElems(v, idx, len - i, result)
      {
        var x :- FromMessagePack();
        result := result + [x];
        i := i + 1;
      }
      return Ok(Array(result));
    }

    method Members(len: nat) returns (r: Result<Json>)
      requires idx <= |v|
      modifies this
      ensures Matches(DecodeObject(v, old(idx), len), r)
      decreases |v| - idx, 1, 0
    {
      hide Decode;
      var result: map<Text, Json> := map[];
      var i := 0;
      while i < len
        invariant 0 <= i <= len && old(idx) <= idx <= |v|
        invariant DecodeMembers(v, old(idx), len, map[]) == DecodeMembers(v, idx, len - i, result)
      {
        var k :- FromMessagePack();
        var key :- AsText(k);
        var x :- FromMessagePack();
        result := result[key := x];
        i := i + 1;
      }
      return Ok(Object(result));
    }
  }
}
