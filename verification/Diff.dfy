/** `diff`: a list of patch operations that turns one JSON value into another. */
module Diff {
  import opened Bytes
  import opened Json
  import opened Patch
  import P = Pointer

  function AddOp(path: Text, v: Json): Json {
    Object(map[OP := String(ADD), PATH := String(path), VALUE := v])
  }

  function RemoveOp(path: Text): Json {
    Object(map[OP := String(REMOVE), PATH := String(path)])
  }

  function ReplaceOp(path: Text, v: Json): Json {
    Object(map[OP := String(REPLACE), PATH := String(path), VALUE := v])
  }

  function IndexPath(path: Text, i: nat): Text {
    path + [P.SLASH] + Decimal(i)
  }

  function KeyPath(path: Text, key: Text): Text {
    path + [P.SLASH] + P.Escape(key)
  }

  function Min(a: nat, b: nat): nat {
    if a < b then a else b
  }

  /** Integers, unsigned integers and floating-point numbers are different types. */
  lemma SameType(a: Json, b: Json)
    ensures TypeOf(a) == TypeOf(b) <==>
      && (a.Null? <==> b.Null?) && (a.Boolean? <==> b.Boolean?) && (a.String? <==> b.String?)
      && (a.Integer? <==> b.Integer?) && (a.Unsigned? <==> b.Unsigned?) && (a.Float? <==> b.Float?)
      && (a.Array? <==> b.Array?) && (a.Object? <==> b.Object?)
  {
  }

  // ----- what diff computes

  function DiffAt(s: Json, t: Json, path: Text): seq<Json>
    decreases s
  {
    if Equals(s, t) then []
    else if TypeOf(s) != TypeOf(t) then [ReplaceOp(path, t)]
    else
      match s
      case Array(es) =>
        DiffElems(s, t, path, 0) + RemovesDown(path, Min(|es|, |t.elems|), |es|)
        + AddElems(path, t.elems, Min(|es|, |t.elems|))
      case Object(m) =>
        DiffMembers(s, t, path, SortedKeys(m.Keys), 0)
        + AddMembers(path, m, t.members, SortedKeys(t.members.Keys), 0)
      case _ => [ReplaceOp(path, t)]
  }

  /** First pass over arrays: the common positions from `i` on. */
  function DiffElems(s: Json, t: Json, path: Text, i: nat): seq<Json>
    requires s.Array? && t.Array?
    decreases s, |s.elems| - i
  {
    if i < |s.elems| && i < |t.elems| then
      DiffAt(s.elems[i], t.elems[i], IndexPath(path, i)) + DiffElems(s, t, path, i + 1)
    else []
  }

  /** Removals of the positions `lo` up to `hi`, last position first. */
  function RemovesDown(path: Text, lo: nat, hi: nat): seq<Json>
    requires lo <= hi
  {
    if lo == hi then [] else [RemoveOp(IndexPath(path, hi - 1))] + RemovesDown(path, lo, hi - 1)
  }

  function AddElems(path: Text, es: seq<Json>, i: nat): seq<Json>
    decreases |es| - i
  {
    if i < |es| then [AddOp(IndexPath(path, i), es[i])] + AddElems(path, es, i + 1) else []
  }

  /** First pass over objects: the keys of the source, in order. */
  function DiffMembers(s: Json, t: Json, path: Text, ks: seq<Text>, i: nat): seq<Json>
    requires s.Object? && t.Object? && forall k | k in ks :: k in s.members
    decreases s, |ks| - i
  {
    if i < |ks| then
      (if ks[i] in t.members then DiffAt(s.members[ks[i]], t.members[ks[i]], KeyPath(path, ks[i]))
       else [RemoveOp(KeyPath(path, ks[i]))])
      + DiffMembers(s, t, path, ks, i + 1)
    else []
  }

  /** Second pass over objects: the keys that only the target has. */
  function AddMembers(path: Text, s: map<Text, Json>, t: map<Text, Json>, ks: seq<Text>, i: nat): seq<Json>
    requires forall k | k in ks :: k in t
    decreases |ks| - i
  {
    if i < |ks| then
      (if ks[i] in s then [] else [AddOp(KeyPath(path, ks[i]), t[ks[i]])]) + AddMembers(path, s, t, ks, i + 1)
    else []
  }

  // ----- the method

  lemma Assoc(a: seq<Json>, b: seq<Json>, c: seq<Json>)
    ensures a + (b + c) == (a + b) + c
  {
  }

  /** The common elements of two arrays. */
  method CommonElems(s: Json, t: Json, path: Text) returns (result: seq<Json>)
    requires s.Array? && t.Array?
    ensures result == DiffElems(s, t, path, 0)
    decreases s, 0
  {
    result := [];
    var i := 0;
    ghost var rest := DiffElems(s, t, path, 0);
    while i < |s.elems| && i < |t.elems|
      invariant 0 <= i <= Min(|s.elems|, |t.elems|)
      invariant rest == DiffElems(s, t, path, i)
      invariant result + rest == DiffElems(s, t, path, 0)
    {
      var part := DiffValues(s.elems[i], t.elems[i], IndexPath(path, i));
      rest := DiffElems(s, t, path, i + 1);
      Assoc(result, part, rest);
      result := result + part;
      i := i + 1;
    }
  }

  /** The removals go in front of those of smaller positions, so that applying them in
      order takes the last position first. */
  method RemoveRest(result0: seq<Json>, path: Text, from: nat, to: nat) returns (result: seq<Json>)
    requires from <= to
    ensures result == result0 + RemovesDown(path, from, to)
  {
    result := result0;
    var endIndex := |result|;
    var i := from;
    while i < to
      invariant from <= i <= to
      invariant result == result0 + RemovesDown(path, from, i)
    {
      var op := RemoveOp(IndexPath(path, i));
      assert result[..endIndex] == result0 && result[endIndex..] == RemovesDown(path, from, i);
      Assoc(result0, [op], RemovesDown(path, from, i));
      result := result[..endIndex] + [op] + result[endIndex..];
      i := i + 1;
    }
  }

  method AddRest(result0: seq<Json>, path: Text, es: seq<Json>, from: nat) returns (result: seq<Json>)
    ensures result == result0 + AddElems(path, es, from)
  {
    result := result0;
    var i := from;
    ghost var rest := AddElems(path, es, from);
    while i < |es|
      invariant from <= i
      invariant rest == AddElems(path, es, i)
      invariant result + rest == result0 + AddElems(path, es, from)
    {
      var op := AddOp(IndexPath(path, i), es[i]);
      rest := AddElems(path, es, i + 1);
      Assoc(result, [op], rest);
      result := result + [op];
      i := i + 1;
    }
  }

  /** The keys of the source object. */
  method SourceMembers(s: Json, t: Json, path: Text) returns (result: seq<Json>)
    requires s.Object? && t.Object?
    ensures result == DiffMembers(s, t, path, SortedKeys(s.members.Keys), 0)
    decreases s, 0
  {
    result := [];
    var ks := SortedKeys(s.members.Keys);
    var i := 0;
    ghost var rest := DiffMembers(s, t, path, ks, 0);
    while i < |ks|
      invariant 0 <= i <= |ks|
      invariant rest == DiffMembers(s, t, path, ks, i)
      invariant result + rest == DiffMembers(s, t, path, ks, 0)
    {
      var key := P.EscapeToken(ks[i]);
      var part;
      if ks[i] in t.members {
        part := DiffValues(s.members[ks[i]], t.members[ks[i]], path + [P.SLASH] + key);
      } else {
        part := [RemoveOp(path + [P.SLASH] + key)];
      }
      rest := DiffMembers(s, t, path, ks, i + 1);
      Assoc(result, part, rest);
      result := result + part;
      i := i + 1;
    }
  }

  method NewMembers(result0: seq<Json>, path: Text, s: map<Text, Json>, t: map<Text, Json>)
    returns (result: seq<Json>)
    ensures result == result0 + AddMembers(path, s, t, SortedKeys(t.Keys), 0)
  {
    result := result0;
    var ks := SortedKeys(t.Keys);
    var i := 0;
    ghost var rest := AddMembers(path, s, t, ks, 0);
    while i < |ks|
      invariant 0 <= i <= |ks|
      invariant rest == AddMembers(path, s, t, ks, i)
      invariant result + rest == result0 + AddMembers(path, s, t, ks, 0)
    {
      rest := AddMembers(path, s, t, ks, i + 1);
      if ks[i] !in s {
        var key := P.EscapeToken(ks[i]);
        var op := AddOp(path + [P.SLASH] + key, t[ks[i]]);
        Assoc(result, [op], rest);
        result := result + [op];
      } else {
        assert [] + rest == rest;
      }
      i := i + 1;
    }
  }

  method DiffValues(s: Json, t: Json, path: Text) returns (result: seq<Json>)
    ensures result == DiffAt(s, t, path)
    decreases s, 1
  {
    if Equals(s, t) {
      return [];
    }
    if TypeOf(s) != TypeOf(t) {
      return [ReplaceOp(path, t)];
    }
    match s
    case Array(es) =>
      result := CommonElems(s, t, path);
      var i := Min(|es|, |t.elems|);
      result := RemoveRest(result, path, i, |es|);
      result := AddRest(result, path, t.elems, i);
    case Object(m) =>
      result := SourceMembers(s, t, path);
      result := NewMembers(result, path, m, t.members);
    case _ =>
      return [ReplaceOp(path, t)];
  }

  /** `diff` from the root, as a JSON array of operations. */
  method DiffDocuments(s: Json, t: Json) returns (patch: Json)
    ensures patch == Array(DiffAt(s, t, []))
  {
    var ops := DiffValues(s, t, []);
    patch := Array(ops);
  }
}
