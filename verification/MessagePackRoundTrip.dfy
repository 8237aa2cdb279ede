/**
 MessagePack round trips. The format has no header for strings, arrays and maps of 2^32
 or more items; `to_msgpack` writes such a value without a header, and it cannot be read
 back. For every other value, decoding gives the canonical form of the original, in which
 an infinity or NaN is null, and stops exactly at its end.
 */
module MessagePackRoundTrip {
  import opened Bytes
  import opened Results
  import opened Json
  import opened Binary
  import opened MessagePack

  const LIMIT := 0x1_0000_0000

  /** All strings, keys, arrays and objects have fewer than 2^32 items. */
  predicate Encodable(j: Json) {
    match j
    case String(s) => |s| < LIMIT
    case Array(es) => |es| < LIMIT && forall i :: 0 <= i < |es| ==> Encodable(es[i])
    case Object(m) => |m| < LIMIT && forall k :: k in m ==> |k| < LIMIT && Encodable(m[k])
    case _ => true
  }

  // ----- single items

  lemma FirstByte(v: Text, idx: nat, a: Text, b: Text)
    requires a != [] && At(v, idx, a + b)
    ensures idx < |v| && v[idx] == a[0] && At(v, idx, a) && At(v, idx + |a|, b)
  {
    AtSplit(v, idx, a, b);
    assert v[idx] == v[idx..idx + |a|][0];
  }

  /** A header byte followed by a number of `width` bytes. */
  lemma HeaderAndNumber(v: Text, idx: nat, header: byte, n: nat, width: nat)
    requires At(v, idx, [header] + BigEndian(n, width)) && n < Range(width)
    ensures idx < |v| && v[idx] == header && GetFromVector(v, idx, width) == Ok(n)
  {
    FirstByte(v, idx, [header], BigEndian(n, width));
    GetWritten(v, idx, n, width);
  }

  lemma HeaderAndNegative(v: Text, idx: nat, header: byte, n: int, width: nat)
    requires At(v, idx, [header] + BigEndian(n, width)) && width > 0 && n < 0 && 2 * n + Range(width) >= 0
    ensures idx < |v| && v[idx] == header && GetSigned(v, idx, width) == Ok(n)
  {
    FirstByte(v, idx, [header], BigEndian(n, width));
    GetWrittenNegative(v, idx, n, width);
  }

  lemma DecodeUnsignedHeader(v: Text, idx: nat, width: nat)
    requires |v| <= MAX_SIZE && idx < |v|
    requires (v[idx], width) in {(0xCC, 1), (0xCD, 2), (0xCE, 4), (0xCF, 8)}
    ensures Decode(v, idx) == ReadUnsigned(v, idx, width)
  {
    hide GetFromVector, DecodeArray, DecodeObject, GetFloat, GetString, ReadUnsigned, ReadSigned, ReadString;
  }

  lemma DecodeSignedHeader(v: Text, idx: nat, width: nat)
    requires |v| <= MAX_SIZE && idx < |v|
    requires (v[idx], width) in {(0xD0, 1), (0xD1, 2), (0xD2, 4), (0xD3, 8)}
    ensures Decode(v, idx) == ReadSigned(v, idx, width)
  {
    hide GetFromVector, DecodeArray, DecodeObject, GetFloat, GetString, ReadUnsigned, ReadSigned, ReadString;
  }

  lemma UnsignedRoundTrip(v: Text, idx: nat, n: uint64)
    requires |v| <= MAX_SIZE && At(v, idx, EncodeUnsigned(n))
    ensures Decode(v, idx) == Ok((Unsigned(n), idx + |EncodeUnsigned(n)|))
  {
    Ranges();
    if n < 128 {
      OneByte(n);
      FirstByte(v, idx, [n], []);
    } else {
      hide Decode, BigEndian, GetFromVector, Range;
      var header, width :=
        if n <= 0xFF then 0xCC else if n <= 0xFFFF then 0xCD else if n <= 0xFFFF_FFFF then 0xCE else 0xCF,
        if n <= 0xFF then 1 else if n <= 0xFFFF then 2 else if n <= 0xFFFF_FFFF then 4 else 8;
      HeaderAndNumber(v, idx, header, n, width);
      DecodeUnsignedHeader(v, idx, width);
    }
  }

  lemma NegativeRoundTrip(v: Text, idx: nat, i: int64)
    requires |v| <= MAX_SIZE && i < 0 && At(v, idx, EncodeNegative(i))
    ensures Decode(v, idx) == Ok((Integer(i), idx + |EncodeNegative(i)|))
  {
    Ranges();
    if i >= -32 {
      OneByte(i);
      FirstByte(v, idx, [i % 256], []);
    } else {
      hide Decode, BigEndian, GetSigned, Range;
      var header, width :=
        if i >= -0x80 then 0xD0 else if i >= -0x8000 then 0xD1 else if i >= -0x8000_0000 then 0xD2 else 0xD3,
        if i >= -0x80 then 1 else if i >= -0x8000 then 2 else if i >= -0x8000_0000 then 4 else 8;
      HeaderAndNegative(v, idx, header, i, width);
      DecodeSignedHeader(v, idx, width);
    }
  }

  lemma DecodeStringHeader(v: Text, idx: nat, width: nat)
    requires |v| <= MAX_SIZE && idx < |v|
    requires (v[idx], width) in {(0xD9, 1), (0xDA, 2), (0xDB, 4)}
    ensures Decode(v, idx) == ReadString(v, idx, width)
  {
    hide GetFromVector, DecodeArray, DecodeObject, GetFloat, GetString, ReadUnsigned, ReadSigned, ReadString;
  }

  lemma StringRoundTrip(v: Text, idx: nat, s: Text)
    requires |v| <= MAX_SIZE && |s| < LIMIT && At(v, idx, StringHead(|s|) + s)
    ensures Decode(v, idx) == Ok((String(s), idx + |StringHead(|s|) + s|))
  {
    Ranges();
    var n := |s|;
    var h := StringHead(n);
    FirstByte(v, idx, h, s);
    GetWrittenString(v, idx + |h|, s);
    if n > 31 {
      hide Decode, BigEndian, GetFromVector, Range;
      var header, width := if n <= 255 then 0xD9 else if n <= 65535 then 0xDA else 0xDB,
        if n <= 255 then 1 else if n <= 65535 then 2 else 4;
      HeaderAndNumber(v, idx, header, n, width);
      DecodeStringHeader(v, idx, width);
    }
  }

  function HeadOf(isArray: bool, n: nat): Text {
    if isArray then ContainerHead(0x90, 0xDC, n) else ContainerHead(0x80, 0xDE, n)
  }

  function DecodeContainer(v: Text, idx: nat, isArray: bool, n: nat): Decoded<Json>
    requires idx <= |v|
  {
    if isArray then DecodeArray(v, idx, n) else DecodeObject(v, idx, n)
  }

  lemma DecodeWideHeader(v: Text, idx: nat, isArray: bool, width: nat, n: nat)
    requires |v| <= MAX_SIZE && idx < |v| && GetFromVector(v, idx, width) == Ok(n)
    requires (v[idx], isArray, width) in {(0xDC, true, 2), (0xDD, true, 4), (0xDE, false, 2), (0xDF, false, 4)}
    ensures Decode(v, idx) == DecodeContainer(v, idx + 1 + width, isArray, n)
  {
    hide GetFromVector, DecodeArray, DecodeObject, GetFloat, GetString, ReadUnsigned, ReadSigned, ReadString;
  }

  /** The header of an array or map leads to reading that many items after it. */
  lemma ContainerHeadRoundTrip(v: Text, idx: nat, isArray: bool, n: nat)
    requires |v| <= MAX_SIZE && n < LIMIT && At(v, idx, HeadOf(isArray, n))
    ensures Decode(v, idx) == DecodeContainer(v, idx + |HeadOf(isArray, n)|, isArray, n)
  {
    Ranges();
    if n <= 15 {
      FirstByte(v, idx, HeadOf(isArray, n), []);
    } else {
      hide Decode, BigEndian, GetFromVector, Range, DecodeContainer;
      var width := if n <= 0xFFFF then 2 else 4;
      var header := if n <= 0xFFFF then (if isArray then 0xDC else 0xDE) else if isArray then 0xDD else 0xDF;
      HeaderAndNumber(v, idx, header, n, width);
      DecodeWideHeader(v, idx, isArray, width, n);
    }
  }

  lemma ScalarRoundTrip(v: Text, idx: nat, j: Json)
    requires |v| <= MAX_SIZE && At(v, idx, Encode(j)) && (j.Null? || j.Boolean? || j.Float?)
    ensures Decode(v, idx) == Ok((Canonical(j), idx + |Encode(j)|))
  {
    hide DecodeArray, DecodeObject, GetString, GetFromVector;
    if j.Float? {
      Ranges();
      FirstByte(v, idx, [0xCB], BigEndian(j.bits, 8));
      GetWritten(v, idx, j.bits, 8);
    } else {
      FirstByte(v, idx, Encode(j), []);
    }
  }

  // ----- all values

  lemma {:induction false} DecodeEncoded(v: Text, idx: nat, j: Json)
    requires |v| <= MAX_SIZE && Encodable(j) && At(v, idx, Encode(j))
    ensures Decode(v, idx) == Ok((Canonical(j), idx + |Encode(j)|))
    decreases j, 2, 0
  {
    hide Decode;
    match j
    case Integer(i) => if i >= 0 { UnsignedRoundTrip(v, idx, i); } else { NegativeRoundTrip(v, idx, i); }
    case Unsigned(u) => UnsignedRoundTrip(v, idx, u);
    case String(s) => StringRoundTrip(v, idx, s);
    case Array(_) => DecodeEncodedArray(v, idx, j);
    case Object(_) => DecodeEncodedObject(v, idx, j);
    case _ => ScalarRoundTrip(v, idx, j);
  }

  lemma {:induction false} DecodeEncodedArray(v: Text, idx: nat, j: Json)
    requires |v| <= MAX_SIZE && j.Array? && Encodable(j) && At(v, idx, Encode(j))
    ensures Decode(v, idx) == Ok((Canonical(j), idx + |Encode(j)|))
    decreases j, 1, 0
  {
    hide Decode, ContainerHead, DecodeElems, EncodeElems;
    var h := ContainerHead(0x90, 0xDC, |j.elems|);
    AtSplit(v, idx, h, EncodeElems(j, 0));
    ContainerHeadRoundTrip(v, idx, true, |j.elems|);
    DecodeEncodedElems(v, idx + |h|, j, 0);
    assert CanonicalElems(j, 0) == [];
  }

  lemma EncodeObject(j: Json)
    requires j.Object? && Encodable(j)
    ensures var ks := SortedKeys(j.members.Keys);
            |ks| < LIMIT && Encode(j) == HeadOf(false, |ks|) + EncodeMembers(j, ks, 0)
  {
    hide SortedKeys, ContainerHead, EncodeMembers;
    assert |SortedKeys(j.members.Keys)| == |j.members.Keys| == |j.members|;
  }

  lemma DecodeObjectItems(v: Text, idx: nat, next: nat, n: nat, m: map<Text, Json>, end: nat)
    requires next <= |v| && Decode(v, idx) == DecodeContainer(v, next, false, n)
    requires DecodeMembers(v, next, n, map[]) == Ok((m, end))
    ensures Decode(v, idx) == Ok((Object(m), end))
  {
    hide Decode, DecodeMembers;
  }

  lemma {:induction false} DecodeEncodedObject(v: Text, idx: nat, j: Json)
    requires |v| <= MAX_SIZE && j.Object? && Encodable(j) && At(v, idx, Encode(j))
    ensures Decode(v, idx) == Ok((Canonical(j), idx + |Encode(j)|))
    decreases j, 1, 0
  {
    hide *;
    var ks := SortedKeys(j.members.Keys);
    var h, body := HeadOf(false, |ks|), EncodeMembers(j, ks, 0);
    EncodeObject(j);
    AtSplit(v, idx, h, body);
    ContainerHeadRoundTrip(v, idx, false, |ks|);
    CanonicalMembersEnds(j, ks);
    AtFits(v, idx + |h|, body);
    DecodeEncodedMembers(v, idx + |h|, j, ks, 0);
    DecodeObjectItems(v, idx, idx + |h|, |ks|, CanonicalMembers(j, ks, |ks|), idx + |Encode(j)|);
  }

  lemma {:induction false} DecodeEncodedElems(v: Text, idx: nat, j: Json, i: nat)
    requires |v| <= MAX_SIZE && j.Array? && Encodable(j) && i <= |j.elems| && At(v, idx, EncodeElems(j, i))
    ensures DecodeElems(v, idx, |j.elems| - i, CanonicalElems(j, i))
         == Ok((Canonical(j).elems, idx + |EncodeElems(j, i)|))
    decreases j, 0, |j.elems| - i
  {
    hide Encode, Decode;
    if i < |j.elems| {
      var e := Encode(j.elems[i]);
      AtSplit(v, idx, e, EncodeElems(j, i + 1));
      DecodeEncoded(v, idx, j.elems[i]);
      DecodeEncodedElems(v, idx + |e|, j, i + 1);
      assert CanonicalElems(j, i) + [Canonical(j.elems[i])] == CanonicalElems(j, i + 1);
    } else {
      assert CanonicalElems(j, i) == Canonical(j).elems;
    }
  }

  lemma MemberEncodable(j: Json, ks: seq<Text>, i: nat)
    requires j.Object? && Encodable(j) && i < |ks| && ks == SortedKeys(j.members.Keys)
    ensures ks[i] in j.members && |ks[i]| < LIMIT && Encodable(j.members[ks[i]])
  {
    assert ks[i] in ks;
  }

  lemma {:induction false} DecodeEncodedMembers(v: Text, idx: nat, j: Json, ks: seq<Text>, i: nat)
    requires |v| <= MAX_SIZE && j.Object? && Encodable(j) && i <= |ks| && ks == SortedKeys(j.members.Keys)
    requires At(v, idx, EncodeMembers(j, ks, i))
    ensures DecodeMembers(v, idx, |ks| - i, CanonicalMembers(j, ks, i))
         == Ok((Canonical(j).members, idx + |EncodeMembers(j, ks, i)|))
    decreases j, 0, |ks| - i
  {
    hide Encode, Decode, SortedKeys, StringHead, Encodable, CanonicalMembers, Canonical;
    if i < |ks| {
      var key, x := ks[i], j.members[ks[i]];
      MemberEncodable(j, ks, i);
      var k, e := StringHead(|key|) + key, Encode(x);
      AtSplit(v, idx, k, e + EncodeMembers(j, ks, i + 1));
      AtSplit(v, idx + |k|, e, EncodeMembers(j, ks, i + 1));
      StringRoundTrip(v, idx, key);
      DecodeEncoded(v, idx + |k|, x);
      DecodeEncodedMembers(v, idx + |k| + |e|, j, ks, i + 1);
      CanonicalMembersStep(j, ks, i);
    } else {
      CanonicalMembersEnds(j, ks);
    }
  }

  // ----- nothing else can be read back

  /** Whatever is decoded is within the limits of the format. */
  lemma {:induction false} DecodedEncodable(v: Text, idx: nat)
    ensures Decode(v, idx).Ok? ==> Encodable(Decode(v, idx).value.0)
    decreases |v| - idx, 2
  {
    hide DecodeElems, DecodeMembers, GetFromVector;
    if LengthFits(|v|, 1, idx) {
      forall next: nat, n: nat | idx < next <= |v| && n < LIMIT
        ensures DecodeArray(v, next, n).Ok? ==> Encodable(DecodeArray(v, next, n).value.0)
        ensures DecodeObject(v, next, n).Ok? ==> Encodable(DecodeObject(v, next, n).value.0)
      {
        DecodedElemsEncodable(v, next, n, []);
        DecodedMembersEncodable(v, next, n, map[]);
      }
      Ranges();
      hide DecodeArray, DecodeObject, ReadUnsigned, ReadSigned, ReadString, GetFloat, GetString, Range, Encodable;
      ScalarsEncodable(v, idx);
    }
  }

  lemma ScalarsEncodable(v: Text, idx: nat)
    requires idx < |v|
    ensures forall w | w in {4, 8} :: var r := GetFloat(v, idx, w); r.Ok? ==> Encodable(r.value.0)
    ensures forall w | w in {1, 2, 4, 8} :: var r := ReadUnsigned(v, idx, w); r.Ok? ==> Encodable(r.value.0)
    ensures forall w | w in {1, 2, 4, 8} :: var r := ReadSigned(v, idx, w); r.Ok? ==> Encodable(r.value.0)
    ensures forall w | w in {1, 2, 4} :: var r := ReadString(v, idx, w); r.Ok? ==> Encodable(r.value.0)
    ensures forall n: nat, i: nat | n < 32 :: GetString(v, n, i).Ok? ==> Encodable(GetString(v, n, i).value.0)
    ensures Encodable(Null) && Encodable(Boolean(true)) && Encodable(Boolean(false))
    ensures forall i :: Encodable(Integer(i))
    ensures forall u :: Encodable(Unsigned(u))
  {
    Ranges();
  }

  lemma {:induction false} DecodedElemsEncodable(v: Text, idx: nat, n: nat, acc: seq<Json>)
    requires idx <= |v| && forall i :: 0 <= i < |acc| ==> Encodable(acc[i])
    ensures var r := DecodeElems(v, idx, n, acc);
            r.Ok? ==> |r.value.0| == |acc| + n && forall i :: 0 <= i < |r.value.0| ==> Encodable(r.value.0[i])
    decreases |v| - idx, 3, n
  {
    hide Decode, Encodable;
    if n > 0 {
      DecodedEncodable(v, idx);
      var x := Decode(v, idx);
      if x.Ok? { DecodedElemsEncodable(v, x.value.1, n - 1, acc + [x.value.0]); }
    }
  }

  lemma {:induction false} DecodedMembersEncodable(v: Text, idx: nat, n: nat, acc: map<Text, Json>)
    requires idx <= |v| && forall k :: k in acc ==> |k| < LIMIT && Encodable(acc[k])
    ensures var r := DecodeMembers(v, idx, n, acc);
            r.Ok? ==> |r.value.0| <= |acc| + n && forall k :: k in r.value.0 ==> |k| < LIMIT && Encodable(r.value.0[k])
    decreases |v| - idx, 3, n
  {
    hide Decode;
    if n > 0 {
      DecodedEncodable(v, idx);
      var k := Decode(v, idx);
      if k.Ok? && k.value.0.String? {
        DecodedEncodable(v, k.value.1);
        var x := Decode(v, k.value.1);
        if x.Ok? {
          var next := acc[k.value.0.s := x.value.0];
          assert next.Keys == acc.Keys + {k.value.0.s};
          DecodedMembersEncodable(v, x.value.1, n - 1, next);
        }
      }
    }
  }

  lemma {:induction false} CanonicalEncodable(j: Json)
    ensures Encodable(Canonical(j)) <==> Encodable(j)
  {
    match j
    case Array(es) =>
      forall i | 0 <= i < |es| ensures Encodable(Canonical(j).elems[i]) <==> Encodable(es[i]) { CanonicalEncodable(es[i]); }
    case Object(m) =>
      forall k | k in m ensures Encodable(Canonical(m[k])) <==> Encodable(m[k]) { CanonicalEncodable(m[k]); }
      assert Canonical(j).members.Keys == m.Keys;
      assert |Canonical(j).members| == |Canonical(j).members.Keys| == |m.Keys| == |m|;
    case _ =>
  }

  /** Equal values are encodable together. */
  lemma {:induction false} EqualsEncodable(a: Json, b: Json)
    requires Equals(a, b)
    ensures Encodable(a) <==> Encodable(b)
  {
    match (a, b)
    case (Array(x), Array(y)) =>
      forall i | 0 <= i < |x| ensures Encodable(x[i]) <==> Encodable(y[i]) { EqualsEncodable(x[i], y[i]); }
    case (Object(x), Object(y)) =>
      assert |x| == |x.Keys| == |y.Keys| == |y|;
      forall k | k in x ensures Encodable(x[k]) <==> Encodable(y[k]) { EqualsEncodable(x[k], y[k]); }
    case _ =>
  }

  /** A result of decoding that ends at `end` with a value equal to `j`. */
  predicate GivesBack(r: Decoded<Json>, j: Json, end: nat) {
    r.Ok? && r.value.1 == end && Equals(r.value.0, j)
  }

  /** Decoding between any bytes before and after gives the canonical form exactly for the
      encodable values, and a value equal to the original exactly if that is finite as well. */
  lemma MessagePackRoundTrip(prefix: Text, j: Json, suffix: Text)
    requires |prefix + Encode(j) + suffix| <= MAX_SIZE
    ensures Decode(prefix + Encode(j) + suffix, |prefix|) == Ok((Canonical(j), |prefix + Encode(j)|)) <==> Encodable(j)
    ensures GivesBack(Decode(prefix + Encode(j) + suffix, |prefix|), j, |prefix + Encode(j)|) <==> Encodable(j) && Finite(j)
  {
    hide Encode, Decode, Encodable, Equals, Canonical, Finite;
    var v := prefix + Encode(j) + suffix;
    assert v[|prefix|..|prefix| + |Encode(j)|] == Encode(j);
    if Encodable(j) { DecodeEncoded(v, |prefix|, j); }
    DecodedEncodable(v, |prefix|);
    CanonicalEncodable(j);
    CanonicalEquals(j);
    var r := Decode(v, |prefix|);
    if r.Ok? && Equals(r.value.0, j) { EqualsEncodable(r.value.0, j); }
  }

  /** An infinity is encoded in nine bytes and comes back as null. */
  lemma MessagePackInfinity()
    ensures Decode(Encode(Float(INFINITY)), 0) == Ok((Null, 9)) && !Equals(Null, Float(INFINITY))
  {
    hide Encode, Decode;
    var j := Float(INFINITY);
    FloatEncoding(INFINITY);
    assert [] + Encode(j) + [] == Encode(j) && [] + Encode(j) == Encode(j);
    MessagePackRoundTrip([], j, []);
  }

  lemma FloatEncoding(bits: uint64)
    ensures |Encode(Float(bits))| == 9
  {
    hide BigEndian;
  }
}
