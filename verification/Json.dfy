/**
 JSON values (`basic_json`) and their equality (`operator==`).

 Objects are maps; wherever the library iterates over one it follows the key order of
 `std::map`, which is `SortedKeys`. A floating-point number is its 64-bit IEEE 754
 pattern. Discarded values, which only parser callbacks produce, do not occur.
 */
module Json {
  import opened Bytes

  const TWO_TO_THE_52: int := 0x10_0000_0000_0000
  const TWO_TO_THE_63: int := 0x8000_0000_0000_0000
  const TWO_TO_THE_64: int := 0x1_0000_0000_0000_0000

  type int64 = x: int | -TWO_TO_THE_63 <= x < TWO_TO_THE_63
  type uint64 = x: int | 0 <= x < TWO_TO_THE_64

  datatype Json =
    | Null
    | Boolean(b: bool)
    | Integer(i: int64)     // number_integer
    | Unsigned(u: uint64)   // number_unsigned
    | Float(bits: uint64)   // number_float
    | String(s: Text)
    | Array(elems: seq<Json>)
    | Object(members: map<Text, Json>)

  datatype Kind = KNull | KBoolean | KInteger | KUnsigned | KFloat | KString | KArray | KObject

  /** `type()` */
  function TypeOf(j: Json): Kind {
    match j
    case Null => KNull
    case Boolean(_) => KBoolean
    case Integer(_) => KInteger
    case Unsigned(_) => KUnsigned
    case Float(_) => KFloat
    case String(_) => KString
    case Array(_) => KArray
    case Object(_) => KObject
  }

  predicate IsPrimitive(j: Json) {
    !j.Array? && !j.Object?
  }

  // ----- numbers

  /** `static_cast<number_integer_t>` of an unsigned number: two's complement. */
  function ToSigned(u: uint64): int64 {
    if u < TWO_TO_THE_63 then u else u - TWO_TO_THE_64
  }

  function Pow2(n: nat): (p: nat)
    ensures p > 0
  {
    if n == 0 then 1 else 2 * Pow2(n - 1)
  }

  function BitLength(n: nat): nat {
    if n == 0 then 0 else 1 + BitLength(n / 2)
  }

  function Exponent(bits: uint64): nat { bits / TWO_TO_THE_52 % 0x800 }

  function Fraction(bits: uint64): nat { bits % TWO_TO_THE_52 }

  predicate IsNaN(bits: uint64) { Exponent(bits) == 0x7FF && Fraction(bits) != 0 }

  predicate IsInfinite(bits: uint64) { Exponent(bits) == 0x7FF && Fraction(bits) == 0 }

  /** The pattern of positive infinity. */
  const INFINITY: uint64 := 0x7FF0_0000_0000_0000

  predicate IsFinite(bits: uint64) { Exponent(bits) != 0x7FF }

  /** The value of a finite double, as a multiple of 2^-1074. */
  function Scaled(bits: uint64): int {
    var e := Exponent(bits);
    var magnitude := if e == 0 then Fraction(bits) else (TWO_TO_THE_52 + Fraction(bits)) * Pow2(e - 1);
    if bits < TWO_TO_THE_63 then magnitude else -magnitude
  }

  /** An integer rounded to 53 significant bits, ties to even: the conversion to double. */
  function RoundMagnitude(n: nat): nat {
    var length := BitLength(n);
    if length <= 53 then n
    else
      var unit := Pow2(length - 53);
      var q, r := n / unit, n % unit;
      if 2 * r > unit || (2 * r == unit && q % 2 == 1) then (q + 1) * unit else q * unit
  }

  function ToDouble(i: int): int {
    var magnitude: int := RoundMagnitude(if i < 0 then -i else i);
    if i < 0 then -magnitude else magnitude
  }

  predicate FloatEquals(a: uint64, b: uint64) {
    if IsNaN(a) || IsNaN(b) then false
    else if IsInfinite(a) || IsInfinite(b) then a == b
    else Scaled(a) == Scaled(b)
  }

  predicate IntegerEqualsFloat(i: int, f: uint64) {
    Exponent(f) != 0x7FF && ToDouble(i) * Pow2(1074) == Scaled(f)
  }

  // ----- equality

  /** `operator==`. Integers of different signedness are compared after a cast to the
      signed type, so 2^64 - 1 equals -1; a NaN equals nothing, not even itself. */
  predicate Equals(a: Json, b: Json) {
    match (a, b)
    case (Array(x), Array(y)) =>
      |x| == |y| && forall i :: 0 <= i < |x| ==> Equals(x[i], y[i])
    case (Object(x), Object(y)) =>
      x.Keys == y.Keys && forall k :: k in x ==> Equals(x[k], y[k])
    case (Null, Null) => true
    case (String(x), String(y)) => x == y
    case (Boolean(x), Boolean(y)) => x == y
    case (Integer(x), Integer(y)) => x == y
    case (Unsigned(x), Unsigned(y)) => x == y
    case (Float(x), Float(y)) => FloatEquals(x, y)
    case (Integer(x), Float(y)) => IntegerEqualsFloat(x, y)
    case (Float(x), Integer(y)) => IntegerEqualsFloat(y, x)
    case (Unsigned(x), Float(y)) => IntegerEqualsFloat(x, y)
    case (Float(x), Unsigned(y)) => IntegerEqualsFloat(y, x)
    case (Unsigned(x), Integer(y)) => ToSigned(x) == y
    case (Integer(x), Unsigned(y)) => x == ToSigned(y)
    case _ => false
  }

  /** No NaN anywhere in the value. */
  predicate NaNFree(j: Json) {
    match j
    case Float(bits) => !IsNaN(bits)
    case Array(es) => forall i :: 0 <= i < |es| ==> NaNFree(es[i])
    case Object(m) => forall k :: k in m ==> NaNFree(m[k])
    case _ => true
  }

  /** A value that compares equal to anything holds no NaN. */
  lemma {:induction false} EqualsNaNFree(a: Json, b: Json)
    requires Equals(a, b)
    ensures NaNFree(b)
  {
    match b
    case Array(es) =>
      forall i | 0 <= i < |es| ensures NaNFree(es[i]) { EqualsNaNFree(a.elems[i], es[i]); }
    case Object(m) =>
      forall k | k in m ensures NaNFree(m[k]) { EqualsNaNFree(a.members[k], m[k]); }
    case _ =>
  }

  /** Equality is reflexive exactly on the values without a NaN. */
  lemma {:induction false} EqualsReflexive(j: Json)
    ensures Equals(j, j) <==> NaNFree(j)
  {
    match j
    case Array(es) =>
      forall i | 0 <= i < |es| ensures Equals(es[i], es[i]) <==> NaNFree(es[i]) { EqualsReflexive(es[i]); }
    case Object(m) =>
      forall k | k in m ensures Equals(m[k], m[k]) <==> NaNFree(m[k]) { EqualsReflexive(m[k]); }
    case _ =>
  }

  /** A value made from a floating-point number: infinity and NaN are replaced by null.
      (Non-finite numbers are only stored through a reference to the number itself.) */
  function NewFloat(bits: uint64): Json {
    if IsFinite(bits) then Float(bits) else Null
  }

  /** Every floating-point number in the value is finite. */
  predicate Finite(j: Json) {
    match j
    case Float(bits) => IsFinite(bits)
    case Array(es) => forall i :: 0 <= i < |es| ==> Finite(es[i])
    case Object(m) => forall k :: k in m ==> Finite(m[k])
    case _ => true
  }

  /** The value that the text and binary formats give back: they do not tell a non-negative
      signed number from an unsigned one, and neither does `Equals`; and a decoded
      floating-point number is made anew, which makes a non-finite one null. */
  function Canonical(j: Json): Json {
    match j
    case Integer(i) => if i >= 0 then Unsigned(i) else j
    case Float(bits) => NewFloat(bits)
    case Array(es) => Array(seq(|es|, i requires 0 <= i < |es| => Canonical(es[i])))
    case Object(m) => Object(map k | k in m :: Canonical(m[k]))
    case _ => j
  }

  lemma {:induction false} CanonicalEquals(j: Json)
    ensures Equals(Canonical(j), j) <==> Finite(j)
  {
    match j
    case Float(_) => EqualsReflexive(j);
    case Array(es) =>
      forall i | 0 <= i < |es| ensures Equals(Canonical(es[i]), es[i]) <==> Finite(es[i]) { CanonicalEquals(es[i]); }
    case Object(m) =>
      forall k | k in m ensures Equals(Canonical(m[k]), m[k]) <==> Finite(m[k]) { CanonicalEquals(m[k]); }
    case _ =>
  }

  /** The canonical form of the first `i` elements. */
  ghost function CanonicalElems(j: Json, i: nat): seq<Json>
    requires j.Array? && i <= |j.elems|
  {
    Canonical(j).elems[..i]
  }

  /** The canonical form of the members with the first `i` of the keys. */
  ghost function CanonicalMembers(j: Json, ks: seq<Text>, i: nat): map<Text, Json>
    requires j.Object? && i <= |ks| && forall k | k in ks :: k in j.members
  {
    map k | k in ks[..i] :: Canonical(j.members[k])
  }

  lemma CanonicalMembersStep(j: Json, ks: seq<Text>, i: nat)
    requires j.Object? && i < |ks| && forall k | k in ks :: k in j.members
    ensures CanonicalMembers(j, ks, i)[ks[i] := Canonical(j.members[ks[i]])] == CanonicalMembers(j, ks, i + 1)
  {
    assert ks[..i + 1] == ks[..i] + [ks[i]];
  }

  lemma CanonicalMembersEnds(j: Json, ks: seq<Text>)
    requires j.Object? && forall k :: k in ks <==> k in j.members
    ensures CanonicalMembers(j, ks, 0) == map[]
    ensures Canonical(j) == Object(CanonicalMembers(j, ks, |ks|))
  {
    assert ks[..|ks|] == ks;
  }
}
