/**
 The operations move, copy and test of JSON Patch, in terms of the others (sections 4.4
 to 4.6 of RFC 6902).
 */
module PatchOperations {
  import opened Bytes
  import opened Results
  import opened Json
  import opened Patch
  import opened Diff
  import opened PatchLocality
  import P = Pointer

  function FromOp(op: Text, from: Text, path: Text): Json {
    Object(map[OP := String(op), FROM := String(from), PATH := String(path)])
  }

  function TestOp(path: Text, v: Json): Json {
    Object(map[OP := String(TEST), PATH := String(path), VALUE := v])
  }

  /** The value is put in place of the one at a pointer that resolves. */
  lemma CopyOverwrites(doc: Json, from: Path, ptr: Path)
    requires Resolve(doc, from).Ok? && Resolve(doc, ptr).Ok?
    ensures Apply(doc, FromOp(COPY, P.Print(from), P.Print(ptr))) ==
      Apply(doc, ReplaceOp(P.Print(ptr), Resolve(doc, from).value))
  {
    P.SplitPrint(from);
    P.SplitPrint(ptr);
    var v := Resolve(doc, from).value;
    UncheckedResolved(doc, ptr, _ => Ok(v));
  }

  /** Moving is removing and then adding what was removed. */
  lemma MoveIsRemoveAdd(doc: Json, from: Path, ptr: Path)
    requires Resolve(doc, from).Ok?
    ensures Apply(doc, FromOp(MOVE, P.Print(from), P.Print(ptr))) ==
      ApplyAll(doc, [RemoveOp(P.Print(from)), AddOp(P.Print(ptr), Resolve(doc, from).value)])
  {
    P.SplitPrint(from);
    P.SplitPrint(ptr);
    var v := Resolve(doc, from).value;
    var rest := Remove(doc, from);
    if rest.Ok? {
      ApplyAllOne(rest.value, AddOp(P.Print(ptr), v));
    }
  }

  // ----- copying compared with adding

  lemma {:induction false} UncheckedBelow(doc: Json, p: Path, q: Path, edit: Json -> Result<Json>)
    requires Resolve(doc, p).Ok?
    ensures Unchecked(doc, p + q, edit) == PutResult(doc, p, Unchecked(Resolve(doc, p).value, q, edit))
    decreases |p|
  {
    if p == [] {
      assert p + q == q;
    } else {
      assert (p + q)[1..] == p[1..] + q;
      UncheckedBelow(Child(doc, p[0]).value, p[1..], q, edit);
      if doc.Array? { assert doc.elems + [] == doc.elems; }
    }
  }

  lemma PutInjective(doc: Json, p: Path, a: Result<Json>, b: Result<Json>)
    requires Resolve(doc, p).Ok?
    ensures PutResult(doc, p, a) == PutResult(doc, p, b) <==> a == b
  {
    hide Resolve, Put;
    if a.Ok? { ResolvePut(doc, p, a.value, a.value); }
    if b.Ok? { ResolvePut(doc, p, b.value, b.value); }
  }

  /** Assigning and inserting at a token of an array agree: it stands for the end of the
      array, or it is no index for either. */
  predicate AtEnd(size: nat, token: Text) {
    token == DASH || (ArrayIndex(token) == Stoi(token) && (Stoi(token).Err? || Stoi(token).value == size))
  }

  /** Assigning to an index of an array that is first filled up with nulls. */
  function AssignAt(es: seq<Json>, i: int, v: Json): Result<Json> {
    if i < 0 then Err(BadIndex(i, |es|)) else Ok(Array((es + Nulls(i + 1 - |es|))[i := v]))
  }

  lemma AssignIs(es: seq<Json>, token: Text, v: Json)
    ensures Unchecked(Array(es), [token], _ => Ok(v)) ==
      if token == DASH then AssignAt(es, |es|, v)
      else if ArrayIndex(token).Ok? then AssignAt(es, ArrayIndex(token).value, v)
      else Err(ArrayIndex(token).error)
  {
    hide ArrayIndex;
    assert [token][1..] == [];
  }

  /** In range it overwrites, at the end it appends, and beyond it the array grows by more. */
  lemma AssignVersusInsert(es: seq<Json>, i: int, v: Json)
    ensures AssignAt(es, |es|, v) == Ok(Array(es + [v]))
    ensures 0 <= i <= |es| ==> (AssignAt(es, i, v) == Ok(Array(es[..i] + [v] + es[i..])) <==> i == |es|)
    ensures !(0 <= i <= |es|) ==> AssignAt(es, i, v) != Err(OutOfRange)
  {
    assert (es + Nulls(1))[|es| := v] == es + [v];
    if i == |es| {
      assert es[..i] + [v] + es[i..] == es + [v];
    } else if 0 <= i < |es| {
      assert |es[..i] + [v] + es[i..]| == |es| + 1;
      assert |(es + Nulls(i + 1 - |es|))[i := v]| == |es|;
    }
  }

  lemma StoiErrors(token: Text)
    ensures Stoi(token) != Err(DomainError)
  {
  }

  lemma AssignOrInsert(es: seq<Json>, token: Text, v: Json)
    ensures Unchecked(Array(es), [token], _ => Ok(v)) == AddChild(Array(es), token, v) <==> AtEnd(|es|, token)
  {
    hide Stoi, AssignAt, Unchecked;
    AssignIs(es, token, v);
    AssignVersusInsert(es, |es|, v);
    if ArrayIndex(token).Ok? {
      AssignVersusInsert(es, ArrayIndex(token).value, v);
    } else {
      StoiErrors(token);
    }
  }

  lemma AssignOrAdd(parent: Json, token: Text, v: Json)
    requires parent.Object? || parent.Array?
    ensures Unchecked(parent, [token], _ => Ok(v)) == AddChild(parent, token, v) <==>
      parent.Object? || AtEnd(|parent.elems|, token)
  {
    hide Stoi, AtEnd;
    if parent.Array? {
      AssignOrInsert(parent.elems, token, v);
    } else {
      assert [token][1..] == [];
    }
  }

  /** RFC 6902 wants a copy to be an addition of the copied value. In an object it is; in
      an array the element at the index is overwritten, and an index beyond the end is not
      rejected. */
  lemma CopyIsAdd(doc: Json, from: Path, p: Path, token: Text)
    requires Resolve(doc, from).Ok? && Resolve(doc, p).Ok?
    requires Resolve(doc, p).value.Object? || Resolve(doc, p).value.Array?
    ensures var parent := Resolve(doc, p).value;
      Apply(doc, FromOp(COPY, P.Print(from), P.Print(p + [token]))) ==
      Apply(doc, AddOp(P.Print(p + [token]), Resolve(doc, from).value)) <==>
      parent.Object? || AtEnd(|parent.elems|, token)
  {
    var v, parent := Resolve(doc, from).value, Resolve(doc, p).value;
    ApplyAdd(doc, p, token, v);
    P.SplitPrint(from);
    P.SplitPrint(p + [token]);
    UncheckedBelow(doc, p, [token], _ => Ok(v));
    AssignOrAdd(parent, token, v);
    PutInjective(doc, p, Unchecked(parent, [token], _ => Ok(v)), AddChild(parent, token, v));
  }

  lemma OneToken(doc: Json, token: Text, v: Json)
    ensures Resolve(doc, [token]) == Child(doc, token)
    ensures Child(doc, token).Ok? ==> Put(doc, [token], v) == SetChild(doc, token, v)
  {
    assert [token][1..] == [];
  }

  lemma AddToRoot(doc: Json, token: Text, v: Json)
    ensures Apply(doc, AddOp(P.Print([token]), v)) == AddChild(doc, token, v)
  {
    hide Apply, AddChild;
    assert [] + [token] == [token];
    ApplyAdd(doc, [], token, v);
  }

  /** Copying index 0 of [true, false] to index 1 loses the element there. */
  lemma CopyCounterexample()
    ensures var doc, target := Array([Boolean(true), Boolean(false)]), P.Print([Decimal(1)]);
      Apply(doc, FromOp(COPY, P.Print([Decimal(0)]), target)) == Ok(Array([Boolean(true), Boolean(true)])) &&
      Apply(doc, AddOp(target, Boolean(true))) == Ok(Array([Boolean(true), Boolean(true), Boolean(false)]))
  {
    hide Apply, P.Print, Stoi, Resolve, Put;
    var es := [Boolean(true), Boolean(false)];
    StoiDecimal(0);
    StoiDecimal(1);
    assert Decimal(0) == [0x30] && Decimal(1) == [0x31];
    OneToken(Array(es), Decimal(0), Null);
    OneToken(Array(es), Decimal(1), Boolean(true));
    CopyOverwrites(Array(es), [Decimal(0)], [Decimal(1)]);
    ApplyReplace(Array(es), [Decimal(1)], Boolean(true));
    AddToRoot(Array(es), Decimal(1), Boolean(true));
    assert es[1 := Boolean(true)] == [Boolean(true), Boolean(true)];
    assert es[..1] + [Boolean(true)] + es[1..] == [Boolean(true), Boolean(true), Boolean(false)];
  }

  /** A test passes if and only if the value is there and equal, and changes nothing. */
  lemma TestIff(doc: Json, ptr: Path, v: Json)
    ensures var r := Apply(doc, TestOp(P.Print(ptr), v));
      (r == Ok(doc) <==> Resolve(doc, ptr).Ok? && Equals(Resolve(doc, ptr).value, v)) && (r == Ok(doc) || r.Err?)
  {
    P.SplitPrint(ptr);
  }
}
