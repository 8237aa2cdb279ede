/**
 What `operator==` decides, said without it: two values are equal if they are the same but
 for their numbers, and the numbers at the same places are equal as numbers.
 */
module Equality {
  import opened Bytes
  import opened Doubles
  import opened Json

  predicate IsNumber(j: Json) {
    j.Integer? || j.Unsigned? || j.Float?
  }

  function IntegerValue(j: Json): int
    requires j.Integer? || j.Unsigned?
  {
    if j.Integer? then j.i else j.u
  }

  /** Two numbers are the same: integers modulo 2^64, doubles with the same pattern or both
      zero, and an integer with the double nearest to it. A NaN is never the same. */
  ghost predicate SameNumber(a: Json, b: Json)
    requires IsNumber(a) && IsNumber(b)
  {
    if a.Float? && b.Float? then
      !IsNaN(a.bits) && !IsNaN(b.bits) && (a.bits == b.bits || (IsZero(a.bits) && IsZero(b.bits)))
    else if a.Float? then IsFinite(a.bits) && Nearest(IntegerValue(b) * Unit(), a.bits)
    else if b.Float? then IsFinite(b.bits) && Nearest(IntegerValue(a) * Unit(), b.bits)
    else (IntegerValue(a) - IntegerValue(b)) % TWO_TO_THE_64 == 0
  }

  lemma NumberEquals(a: Json, b: Json)
    requires IsNumber(a) && IsNumber(b)
    ensures Equals(a, b) <==> SameNumber(a, b)
  {
    hide IntegerEqualsFloat, FloatEquals, IsFinite, IsNaN, Nearest;
    if a.Float? && b.Float? {
      FloatEqualsIff(a.bits, b.bits);
    } else if a.Float? {
      IntegerEqualsFloatIff(IntegerValue(b), a.bits);
    } else if b.Float? {
      IntegerEqualsFloatIff(IntegerValue(a), b.bits);
    }
  }

  /** A place inside a value. */
  datatype Move = Index(i: nat) | Key(key: Text)

  predicate Has(j: Json, move: Move) {
    match move
    case Index(i) => j.Array? && i < |j.elems|
    case Key(key) => j.Object? && key in j.members
  }

  function Inside(j: Json, move: Move): Json
    requires Has(j, move)
  {
    match move
    case Index(i) => j.elems[i]
    case Key(key) => j.members[key]
  }

  predicate HasPlace(j: Json, place: seq<Move>) {
    place == [] || (Has(j, place[0]) && HasPlace(Inside(j, place[0]), place[1..]))
  }

  function AtPlace(j: Json, place: seq<Move>): Json
    requires HasPlace(j, place)
  {
    if place == [] then j else AtPlace(Inside(j, place[0]), place[1..])
  }

  /** The value with a zero in the place of every number. */
  function Skeleton(j: Json): Json {
    match j
    case Integer(_) => Unsigned(0)
    case Unsigned(_) => Unsigned(0)
    case Float(_) => Unsigned(0)
    case Array(es) => Array(seq(|es|, i requires 0 <= i < |es| => Skeleton(es[i])))
    case Object(m) => Object(map k | k in m :: Skeleton(m[k]))
    case _ => j
  }

  /** The numbers at a place are the same. */
  ghost predicate AgreesAt(a: Json, b: Json, place: seq<Move>) {
    HasPlace(a, place) && HasPlace(b, place) && IsNumber(AtPlace(a, place)) && IsNumber(AtPlace(b, place)) ==>
      SameNumber(AtPlace(a, place), AtPlace(b, place))
  }

  ghost predicate NumbersAgree(a: Json, b: Json) {
    forall place :: AgreesAt(a, b, place)
  }

  lemma AgreeInside(a: Json, b: Json, move: Move)
    requires Has(a, move) && Has(b, move) && NumbersAgree(a, b)
    ensures NumbersAgree(Inside(a, move), Inside(b, move))
  {
    hide SameNumber, IsNumber;
    forall place ensures AgreesAt(Inside(a, move), Inside(b, move), place) {
      assert ([move] + place)[1..] == place;
      assert AgreesAt(a, b, [move] + place);
    }
  }

  lemma AgreeOutside(a: Json, b: Json)
    requires IsNumber(a) && IsNumber(b) ==> SameNumber(a, b)
    requires forall move :: Has(a, move) && Has(b, move) ==> NumbersAgree(Inside(a, move), Inside(b, move))
    ensures NumbersAgree(a, b)
  {
    hide SameNumber, IsNumber;
    forall place ensures AgreesAt(a, b, place) {
      if place != [] && Has(a, place[0]) && Has(b, place[0]) {
        assert AgreesAt(Inside(a, place[0]), Inside(b, place[0]), place[1..]);
      }
    }
  }

  /** What is to be shown of a pair of values. */
  ghost predicate Decided(a: Json, b: Json) {
    Equals(a, b) <==> Skeleton(a) == Skeleton(b) && NumbersAgree(a, b)
  }

  lemma NumbersAlone(a: Json, b: Json)
    requires IsNumber(a) && IsNumber(b)
    ensures Decided(a, b)
  {
    NumberEquals(a, b);
    hide SameNumber, Equals;
    if SameNumber(a, b) { AgreeOutside(a, b); }
    assert AgreesAt(a, b, []) ==> SameNumber(a, b);
  }

  lemma ArraysIff(a: Json, b: Json)
    requires a.Array? && b.Array?
    requires forall i :: 0 <= i < |a.elems| && i < |b.elems| ==> Decided(a.elems[i], b.elems[i])
    ensures Decided(a, b)
  {
    var x, y := a.elems, b.elems;
    assert Skeleton(a) == Skeleton(b) <==> |x| == |y| && forall i :: 0 <= i < |x| ==> Skeleton(x[i]) == Skeleton(y[i]) by {
      if Skeleton(a) == Skeleton(b) {
        forall i | 0 <= i < |x| ensures Skeleton(x[i]) == Skeleton(y[i]) {
          assert Skeleton(a).elems[i] == Skeleton(b).elems[i];
        }
      }
    }
    hide Skeleton, NumbersAgree, AgreesAt;
    if NumbersAgree(a, b) {
      forall i | 0 <= i < |x| && i < |y| ensures NumbersAgree(x[i], y[i]) { AgreeInside(a, b, Index(i)); }
    }
    if |x| == |y| && forall i :: 0 <= i < |x| ==> NumbersAgree(x[i], y[i]) {
      AgreeOutside(a, b);
    }
  }

  lemma ObjectsIff(a: Json, b: Json)
    requires a.Object? && b.Object?
    requires forall k :: k in a.members && k in b.members ==> Decided(a.members[k], b.members[k])
    ensures Decided(a, b)
  {
    var x, y := a.members, b.members;
    SkeletonMembers(a, b);
    hide Skeleton, NumbersAgree, AgreesAt;
    if NumbersAgree(a, b) {
      forall k | k in x && k in y ensures NumbersAgree(x[k], y[k]) { AgreeInside(a, b, Key(k)); }
    }
    if x.Keys == y.Keys && forall k :: k in x ==> NumbersAgree(x[k], y[k]) {
      AgreeOutside(a, b);
    }
  }

  lemma SkeletonMembers(a: Json, b: Json)
    requires a.Object? && b.Object?
    ensures Skeleton(a) == Skeleton(b) <==>
      a.members.Keys == b.members.Keys && forall k :: k in a.members ==> Skeleton(a.members[k]) == Skeleton(b.members[k])
  {
    var x, y := a.members, b.members;
    if Skeleton(a) == Skeleton(b) {
      assert x.Keys == Skeleton(a).members.Keys && y.Keys == Skeleton(b).members.Keys;
      forall k | k in x ensures Skeleton(x[k]) == Skeleton(y[k]) {
        assert Skeleton(a).members[k] == Skeleton(b).members[k];
      }
    }
  }

  lemma OthersAgree(a: Json, b: Json)
    requires !(IsNumber(a) && IsNumber(b)) && !(a.Array? && b.Array?) && !(a.Object? && b.Object?)
    ensures Decided(a, b)
  {
    hide SameNumber, NumbersAgree, AgreesAt;
    AgreeOutside(a, b);
  }

  /** `operator==`: the same value but for the numbers, and the same numbers everywhere. */
  lemma {:induction false} EqualsIff(a: Json, b: Json)
    ensures Equals(a, b) <==> Skeleton(a) == Skeleton(b) && NumbersAgree(a, b)
  {
    hide SameNumber, NumbersAgree, Equals, Skeleton;
    if IsNumber(a) && IsNumber(b) {
      NumbersAlone(a, b);
    } else if a.Array? && b.Array? {
      forall i | 0 <= i < |a.elems| && i < |b.elems| ensures Decided(a.elems[i], b.elems[i]) {
        EqualsIff(a.elems[i], b.elems[i]);
      }
      ArraysIff(a, b);
    } else if a.Object? && b.Object? {
      forall k | k in a.members && k in b.members ensures Decided(a.members[k], b.members[k]) {
        EqualsIff(a.members[k], b.members[k]);
      }
      ObjectsIff(a, b);
    } else {
      OthersAgree(a, b);
    }
  }

  predicate NumberFree(j: Json) {
    match j
    case Array(es) => forall i :: 0 <= i < |es| ==> NumberFree(es[i])
    case Object(m) => forall k :: k in m ==> NumberFree(m[k])
    case _ => !IsNumber(j)
  }

  /** Without numbers, equal values are the same value. */
  lemma {:induction false} EqualsSame(a: Json, b: Json)
    requires NumberFree(a) || NumberFree(b)
    ensures Equals(a, b) <==> a == b
  {
    match (a, b)
    case (Array(x), Array(y)) =>
      forall i | 0 <= i < |x| && i < |y| ensures Equals(x[i], y[i]) <==> x[i] == y[i] { EqualsSame(x[i], y[i]); }
    case (Object(x), Object(y)) =>
      forall k | k in x && k in y ensures Equals(x[k], y[k]) <==> x[k] == y[k] { EqualsSame(x[k], y[k]); }
    case _ =>
  }
}
