/**
 Decoding an encoded value gives its canonical form and stops exactly at its end, wherever
 it stands in a byte vector. The format does not tell a non-negative signed number from an
 unsigned one, and an encoded infinity or NaN is decoded to null.
 */
module CborRoundTrip {
  import opened Bytes
  import opened Results
  import opened Json
  import opened Binary
  import opened Cbor

  lemma HeadRoundTrip(v: Text, idx: nat, base: byte, n: nat)
    requires base in {0x00, 0x20, 0x60, 0x80, 0xA0} && n < TWO_TO_THE_64 && At(v, idx, Head(base, n))
    ensures idx < |v| && base <= v[idx] <= base + 0x1B
    ensures ReadHead(v, idx, v[idx] - base) == Ok((n, idx + |Head(base, n)|))
  {
    hide BigEndian, Range, GetFromVector;
    Ranges();
    var h := Head(base, n);
    assert v[idx] == v[idx..idx + |h|][0] == h[0];
    if n > 0x17 {
      var width := if n <= 0xFF then 1 else if n <= 0xFFFF then 2 else if n <= 0xFFFF_FFFF then 4 else 8;
      assert h == [h[0]] + BigEndian(n, width);
      AtSplit(v, idx, [h[0]], BigEndian(n, width));
      GetWritten(v, idx, n, width);
    }
  }

  // ----- every item takes at least one byte

  lemma {:induction false} EncodeNonempty(j: Json)
    ensures Encode(j) != []
    decreases j
  {
    hide BigEndian;
    if j.Array? {
      ElemsLength(j, 0);
    } else if j.Object? {
      MembersLength(j, SortedKeys(j.members.Keys), 0);
    }
  }

  lemma {:induction false} ElemsLength(j: Json, i: nat)
    requires j.Array? && i <= |j.elems|
    ensures |EncodeElems(j, i)| >= |j.elems| - i
    decreases j, |j.elems| - i
  {
    hide Encode;
    if i < |j.elems| {
      EncodeNonempty(j.elems[i]);
      ElemsLength(j, i + 1);
    }
  }

  lemma {:induction false} MembersLength(j: Json, ks: seq<Text>, i: nat)
    requires j.Object? && i <= |ks| && forall k | k in ks :: k in j.members
    ensures |EncodeMembers(j, ks, i)| >= |ks| - i
    decreases j, |ks| - i
  {
    hide Encode, Head;
    if i < |ks| {
      EncodeNonempty(j.members[ks[i]]);
      MembersLength(j, ks, i + 1);
    }
  }

  // ----- the round trip

  /** An encoded value at `idx` decodes to its canonical form, up to exactly its end. */
  lemma {:induction false} DecodeEncoded(v: Text, idx: nat, j: Json)
    requires |v| <= MAX_SIZE && At(v, idx, Encode(j))
    ensures Decode(v, idx) == Ok((Canonical(j), idx + |Encode(j)|))
    decreases j, 2, 0
  {
    hide *;
    if j.Array? {
      DecodeEncodedArray(v, idx, j);
    } else if j.Object? {
      DecodeEncodedObject(v, idx, j);
    } else if j.String? {
      DecodeEncodedString(v, idx, j);
    } else {
      DecodeEncodedScalar(v, idx, j);
    }
  }

  lemma DecodeEncodedString(v: Text, idx: nat, j: Json)
    requires |v| <= MAX_SIZE && j.String? && At(v, idx, Encode(j))
    ensures Decode(v, idx) == Ok((Canonical(j), idx + |Encode(j)|))
  {
    hide Head, Decode;
    KeyRoundTrip(v, idx, j.s);
  }

  lemma DecodeEncodedScalar(v: Text, idx: nat, j: Json)
    requires |v| <= MAX_SIZE && At(v, idx, Encode(j))
    requires !j.Array? && !j.Object? && !j.String?
    ensures Decode(v, idx) == Ok((Canonical(j), idx + |Encode(j)|))
  {
    hide Head, ReadHead, BigEndian, DecodeElems, DecodeMembers, GetString, GetFloat;
    match j
    case Null => assert v[idx] == v[idx..idx + 1][0];
    case Boolean(_) => assert v[idx] == v[idx..idx + 1][0];
    case Integer(i) => HeadRoundTrip(v, idx, if i >= 0 then 0x00 else 0x20, if i >= 0 then i else -1 - i);
    case Unsigned(u) => HeadRoundTrip(v, idx, 0x00, u);
    case Float(bits) => FloatRoundTrip(v, idx, bits);
  }

  lemma {:induction false} DecodeEncodedArray(v: Text, idx: nat, j: Json)
    requires |v| <= MAX_SIZE && j.Array? && At(v, idx, Encode(j))
    ensures Decode(v, idx) == Ok((Canonical(j), idx + |Encode(j)|))
    decreases j, 1, 0
  {
    hide Head, ReadHead, DecodeElems, EncodeElems;
    var h := Head(0x80, |j.elems|);
    AtSplit(v, idx, h, EncodeElems(j, 0));
    ElemsLength(j, 0);
    HeadRoundTrip(v, idx, 0x80, |j.elems|);
    DecodeEncodedElems(v, idx + |h|, j, 0);
    assert CanonicalElems(j, 0) == [];
  }

  lemma EncodeObject(j: Json)
    requires j.Object?
    ensures var ks := SortedKeys(j.members.Keys); Encode(j) == Head(0xA0, |ks|) + EncodeMembers(j, ks, 0)
  {
    hide SortedKeys, Head, EncodeMembers;
    assert |SortedKeys(j.members.Keys)| == |j.members.Keys| == |j.members|;
  }

  lemma {:induction false} DecodeEncodedObject(v: Text, idx: nat, j: Json)
    requires |v| <= MAX_SIZE && j.Object? && At(v, idx, Encode(j))
    ensures Decode(v, idx) == Ok((Canonical(j), idx + |Encode(j)|))
    decreases j, 1, 0
  {
    hide *;
    var ks := SortedKeys(j.members.Keys);
    var h, body := Head(0xA0, |ks|), EncodeMembers(j, ks, 0);
    EncodeObject(j);
    AtSplit(v, idx, h, body);
    MembersLength(j, ks, 0);
    AtLength(v, idx + |h|, body, |ks|);
    HeadRoundTrip(v, idx, 0xA0, |ks|);
    CanonicalMembersEnds(j, ks);
    DecodeEncodedMembers(v, idx + |h|, j, ks, 0);
    DecodeObjectHeader(v, idx, |ks|, idx + |h|, CanonicalMembers(j, ks, |ks|), idx + |Encode(j)|);
  }

  lemma DecodeObjectHeader(v: Text, idx: nat, n: nat, next: nat, m: map<Text, Json>, end: nat)
    requires idx < |v| && next <= |v| && 0xA0 <= v[idx] <= 0xBB
    requires ReadHead(v, idx, v[idx] - 0xA0) == Ok((n, next)) && DecodeMembers(v, next, n, map[]) == Ok((m, end))
    ensures Decode(v, idx) == Ok((Object(m), end))
  {
  }

  lemma FloatRoundTrip(v: Text, idx: nat, bits: uint64)
    requires At(v, idx, [0xFB] + BigEndian(bits, 8))
    ensures idx < |v| && v[idx] == 0xFB
    ensures GetFloat(v, idx, 8) == Ok((NewFloat(bits), idx + 9))
  {
    Ranges();
    AtSplit(v, idx, [0xFB], BigEndian(bits, 8));
    assert v[idx] == v[idx..idx + 1][0];
    GetWritten(v, idx, bits, 8);
  }

  lemma {:induction false} DecodeEncodedElems(v: Text, idx: nat, j: Json, i: nat)
    requires |v| <= MAX_SIZE && j.Array? && i <= |j.elems| && At(v, idx, EncodeElems(j, i))
    ensures DecodeElems(v, idx, |j.elems| - i, CanonicalElems(j, i))
         == Ok((Canonical(j).elems, idx + |EncodeElems(j, i)|))
    decreases j, 0, |j.elems| - i
  {
    hide Encode, Decode;
    if i < |j.elems| {
      var e := Encode(j.elems[i]);
      AtSplit(v, idx, e, EncodeElems(j, i + 1));
      DecodeEncoded(v, idx, j.elems[i]);
      DecodeEncodedElems(v, idx + |e|, j, i + 1);
      assert CanonicalElems(j, i) + [Canonical(j.elems[i])] == CanonicalElems(j, i + 1);
    } else {
      assert CanonicalElems(j, i) == Canonical(j).elems;
    }
  }

  lemma {:induction false} DecodeEncodedMembers(v: Text, idx: nat, j: Json, ks: seq<Text>, i: nat)
    requires |v| <= MAX_SIZE && j.Object? && i <= |ks| && ks == SortedKeys(j.members.Keys)
    requires At(v, idx, EncodeMembers(j, ks, i))
    ensures DecodeMembers(v, idx, |ks| - i, CanonicalMembers(j, ks, i))
         == Ok((Canonical(j).members, idx + |EncodeMembers(j, ks, i)|))
    decreases j, 0, |ks| - i
  {
    hide Encode, Decode, SortedKeys, Head, CanonicalMembers, Canonical;
    if i < |ks| {
      var key, x := ks[i], j.members[ks[i]];
      var k, e := Head(0x60, |key|) + key, Encode(x);
      AtSplit(v, idx, k, e + EncodeMembers(j, ks, i + 1));
      AtSplit(v, idx + |k|, e, EncodeMembers(j, ks, i + 1));
      KeyRoundTrip(v, idx, key);
      DecodeEncoded(v, idx + |k|, x);
      DecodeEncodedMembers(v, idx + |k| + |e|, j, ks, i + 1);
      CanonicalMembersStep(j, ks, i);
    } else {
      CanonicalMembersEnds(j, ks);
    }
  }

  lemma KeyRoundTrip(v: Text, idx: nat, key: Text)
    requires |v| <= MAX_SIZE && At(v, idx, Head(0x60, |key|) + key)
    ensures Decode(v, idx) == Ok((String(key), idx + |Head(0x60, |key|) + key|))
  {
    hide Head, ReadHead, GetString;
    AtSplit(v, idx, Head(0x60, |key|), key);
    HeadRoundTrip(v, idx, 0x60, |key|);
    GetWrittenString(v, idx + |Head(0x60, |key|)|, key);
  }

  /** The round trip between any bytes before and after the encoded value: it ends at the
      end of the encoding, with a value equal to the original exactly if that is finite. */
  lemma CborRoundTrip(prefix: Text, j: Json, suffix: Text)
    requires |prefix + Encode(j) + suffix| <= MAX_SIZE
    ensures Decode(prefix + Encode(j) + suffix, |prefix|) == Ok((Canonical(j), |prefix + Encode(j)|))
    ensures Equals(Canonical(j), j) <==> Finite(j)
  {
    hide Encode, Decode;
    var v := prefix + Encode(j) + suffix;
    assert v[|prefix|..|prefix| + |Encode(j)|] == Encode(j);
    DecodeEncoded(v, |prefix|, j);
    CanonicalEquals(j);
  }

  /** An infinity is encoded in nine bytes and comes back as null. */
  lemma CborInfinity()
    ensures Decode(Encode(Float(INFINITY)), 0) == Ok((Null, 9)) && !Equals(Null, Float(INFINITY))
  {
    hide Encode, Decode;
    var j := Float(INFINITY);
    FloatEncoding(INFINITY);
    assert [] + Encode(j) + [] == Encode(j) && [] + Encode(j) == Encode(j);
    CborRoundTrip([], j, []);
  }

  lemma FloatEncoding(bits: uint64)
    ensures |Encode(Float(bits))| == 9
  {
    hide BigEndian;
  }
}
