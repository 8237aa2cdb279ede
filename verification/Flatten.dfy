/** `flatten` and `unflatten`: a JSON value as an object from JSON Pointers to primitives. */
module Flatten {
  import opened Bytes
  import opened Results
  import opened Json
  import opened Patch
  import P = Pointer

  // ----- flatten

  function FlattenInto(reference: Text, j: Json, acc: map<Text, Json>): map<Text, Json>
    decreases j
  {
    match j
    case Array(es) => if es == [] then acc[reference := Null] else FlattenElems(reference, j, 0, acc)
    case Object(m) =>
      if m == map[] then acc[reference := Null] else FlattenMembers(reference, j, SortedKeys(m.Keys), 0, acc)
    case _ => acc[reference := j]
  }

  function FlattenElems(reference: Text, j: Json, i: nat, acc: map<Text, Json>): map<Text, Json>
    requires j.Array?
    decreases j, |j.elems| - i
  {
    if i < |j.elems| then
      FlattenElems(reference, j, i + 1, FlattenInto(reference + [P.SLASH] + Decimal(i), j.elems[i], acc))
    else acc
  }

  function FlattenMembers(reference: Text, j: Json, ks: seq<Text>, i: nat, acc: map<Text, Json>): map<Text, Json>
    requires j.Object? && forall k | k in ks :: k in j.members
    decreases j, |ks| - i
  {
    if i < |ks| then
      FlattenMembers(reference, j, ks, i + 1,
        FlattenInto(reference + [P.SLASH] + P.Escape(ks[i]), j.members[ks[i]], acc))
    else acc
  }

  method FlattenValue(reference: Text, j: Json, acc: map<Text, Json>) returns (result: map<Text, Json>)
    ensures result == FlattenInto(reference, j, acc)
    decreases j
  {
    match j
    case Array(es) =>
      if es == [] {
        return acc[reference := Null];
      }
      result := acc;
      var i := 0;
      while i < |es|
        invariant 0 <= i <= |es|
        invariant FlattenElems(reference, j, i, result) == FlattenElems(reference, j, 0, acc)
      {
        result := FlattenValue(reference + [P.SLASH] + Decimal(i), es[i], result);
        i := i + 1;
      }
    case Object(m) =>
      if m == map[] {
        return acc[reference := Null];
      }
      result := acc;
      var ks := SortedKeys(m.Keys);
      var i := 0;
      while i < |ks|
        invariant 0 <= i <= |ks|
        invariant FlattenMembers(reference, j, ks, i, result) == FlattenMembers(reference, j, ks, 0, acc)
      {
        var key := P.EscapeToken(ks[i]);
        result := FlattenValue(reference + [P.SLASH] + key, m[ks[i]], result);
        i := i + 1;
      }
    case _ =>
      return acc[reference := j];
  }

  function FlattenResult(j: Json): Json {
    Object(FlattenInto([], j, map[]))
  }

  // ----- unflatten

  const ZERO_TOKEN: Text := [0x30]

  /** `get_and_create(j) = v`: walks the tokens, creating what is missing, and assigns.
      A null becomes an array if the token is "0" and an object otherwise. */
  function Store(j: Json, ptr: Path, v: Json): Result<Json>
    decreases |ptr|
  {
    if ptr == [] then Ok(v)
    else
      match j
      case Null =>
        var child :- Store(Null, ptr[1..], v);
        Ok(if ptr[0] == ZERO_TOKEN then Array([child]) else Object(map[ptr[0] := child]))
      case Object(m) =>
        var child :- Store(if ptr[0] in m then m[ptr[0]] else Null, ptr[1..], v);
        Ok(Object(m[ptr[0] := child]))
      case Array(es) =>
        var i :- Stoi(ptr[0]);
        if i < 0 then Err(BadIndex(i, |es|))
        else
          var grown := es + Nulls(i + 1 - |es|);
          var child :- Store(grown[i], ptr[1..], v);
          Ok(Array(grown[i := child]))
      case _ => Err(DomainError)
  }

  /** One round of the loop of `unflatten`. */
  function StoreEntry(acc: Json, key: Text, v: Json): Result<Json> {
    if !IsPrimitive(v) then Err(DomainError)
    else
      var ptr :- P.Split(key);
      Store(acc, ptr, v)
  }

  function StoreAll(acc: Json, m: map<Text, Json>, ks: seq<Text>, i: nat): Result<Json>
    requires forall k | k in ks :: k in m
    decreases |ks| - i
  {
    if i < |ks| then
      var next :- StoreEntry(acc, ks[i], m[ks[i]]);
      StoreAll(next, m, ks, i + 1)
    else Ok(acc)
  }

  function UnflattenResult(j: Json): Result<Json> {
    if !j.Object? then Err(DomainError)
    else StoreAll(Null, j.members, SortedKeys(j.members.Keys), 0)
  }

  method UnflattenValue(j: Json) returns (r: Result<Json>)
    ensures r == UnflattenResult(j)
  {
    if !j.Object? {
      return Err(DomainError);
    }
    var result := Null;
    var ks := SortedKeys(j.members.Keys);
    var i := 0;
    while i < |ks|
      invariant 0 <= i <= |ks|
      invariant UnflattenResult(j) == StoreAll(result, j.members, ks, i)
    {
      var v := j.members[ks[i]];
      if !IsPrimitive(v) {
        return Err(DomainError);
      }
      var ptr := P.SplitPointer(ks[i]);
      if ptr.Err? {
        return Err(ptr.error);
      }
      var next := Store(result, ptr.value, v);
      if next.Err? {
        return next;
      }
      result := next.value;
      i := i + 1;
    }
    return Ok(result);
  }
}
