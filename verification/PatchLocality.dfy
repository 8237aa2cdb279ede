/**
 An operation on a document changes only what its pointer refers to: the laws of reading
 and replacing the value at a pointer, and of runs of operations below one.
 */
module PatchLocality {
  import opened Bytes
  import opened Results
  import opened Json
  import opened Patch
  import opened Diff
  import P = Pointer

  // ----- results of one step handed to the next

  function ChildOf(r: Result<Json>, token: Text): Result<Json> {
    if r.Ok? then Child(r.value, token) else r
  }

  function PutResult(d: Json, p: Path, r: Result<Json>): Result<Json>
    requires Resolve(d, p).Ok?
  {
    if r.Ok? then Ok(Put(d, p, r.value)) else r
  }

  function ContinueWith(r: Result<Json>, ops: seq<Json>): Result<Json> {
    if r.Ok? then ApplyAll(r.value, ops) else r
  }

  // ----- pointers extended by one token

  lemma {:induction false} ResolveSnoc(j: Json, p: Path, token: Text)
    ensures Resolve(j, p + [token]) == ChildOf(Resolve(j, p), token)
    decreases |p|
  {
    if p == [] {
      assert p + [token] == [token];
      assert [token][1..] == [];
    } else {
      assert (p + [token])[1..] == p[1..] + [token];
      var child := Child(j, p[0]);
      if child.Ok? { ResolveSnoc(child.value, p[1..], token); }
    }
  }

  lemma {:induction false} PutSnoc(j: Json, p: Path, token: Text, v: Json)
    requires Resolve(j, p).Ok? && Child(Resolve(j, p).value, token).Ok?
    ensures Resolve(j, p + [token]).Ok?
    ensures Put(j, p + [token], v) == Put(j, p, SetChild(Resolve(j, p).value, token, v))
    decreases |p|
  {
    ResolveSnoc(j, p, token);
    if p == [] {
      assert p + [token] == [token];
      assert [token][1..] == [];
    } else {
      assert (p + [token])[1..] == p[1..] + [token];
      PutSnoc(Child(j, p[0]).value, p[1..], token, v);
    }
  }

  lemma {:induction false} ResolvePut(j: Json, p: Path, v: Json, w: Json)
    requires Resolve(j, p).Ok?
    ensures Resolve(Put(j, p, v), p) == Ok(v)
    ensures Put(Put(j, p, v), p, w) == Put(j, p, w)
    decreases |p|
  {
    if p != [] {
      ResolvePut(Child(j, p[0]).value, p[1..], v, w);
    }
  }

  lemma {:induction false} PutSame(j: Json, p: Path)
    requires Resolve(j, p).Ok?
    ensures Put(j, p, Resolve(j, p).value) == j
    decreases |p|
  {
    if p != [] {
      PutSame(Child(j, p[0]).value, p[1..]);
      if j.Object? { assert j.members[p[0] := j.members[p[0]]] == j.members; }
    }
  }

  // ----- single operations, applied where their parent resolves

  /** Where a pointer resolves, the unchecked walk reaches the same value and creates nothing. */
  lemma {:induction false} UncheckedResolved(j: Json, p: Path, edit: Json -> Result<Json>)
    requires Resolve(j, p).Ok?
    ensures Unchecked(j, p, edit) == PutResult(j, p, edit(Resolve(j, p).value))
    ensures Created(j, p) == j
    decreases |p|
  {
    if p != [] {
      if j.Object? { assert j.members[p[0] := j.members[p[0]]] == j.members; }
      UncheckedResolved(Child(j, p[0]).value, p[1..], edit);
      if j.Array? { assert j.elems + [] == j.elems; }
    }
  }

  lemma AddAtResolved(j: Json, p: Path, last: Text, v: Json)
    requires Resolve(j, p).Ok?
    ensures AddAt(j, p, last, v) == PutResult(j, p, AddChild(Resolve(j, p).value, last, v))
  {
    UncheckedResolved(j, p, parent => AddChild(parent, last, v));
  }

  lemma ApplyAdd(d: Json, p: Path, token: Text, v: Json)
    requires Resolve(d, p).Ok?
    ensures Apply(d, AddOp(P.Print(p + [token]), v)) ==
            PutResult(d, p, AddChild(Resolve(d, p).value, token, v))
  {
    P.SplitPrint(p + [token]);
    assert (p + [token])[..|p|] == p;
    AddAtResolved(d, p, token, v);
    if p != [] { assert Child(d, p[0]).Ok?; }
  }

  lemma ApplyRemove(d: Json, p: Path, token: Text)
    requires Resolve(d, p).Ok?
    ensures Apply(d, RemoveOp(P.Print(p + [token]))) ==
            PutResult(d, p, RemoveChild(Resolve(d, p).value, token))
  {
    P.SplitPrint(p + [token]);
    assert (p + [token])[..|p|] == p;
  }

  lemma ApplyReplace(d: Json, p: Path, v: Json)
    ensures Apply(d, ReplaceOp(P.Print(p), v)) == Replace(d, p, v)
  {
    P.SplitPrint(p);
  }

  lemma {:induction false} ApplyAllConcat(d: Json, a: seq<Json>, b: seq<Json>)
    ensures ApplyAll(d, a + b) == ContinueWith(ApplyAll(d, a), b)
    decreases |a|
  {
    if a == [] {
      assert a + b == b;
    } else {
      assert (a + b)[1..] == a[1..] + b;
      var next := Apply(d, a[0]);
      if next.Ok? { ApplyAllConcat(next.value, a[1..], b); }
    }
  }

  lemma ApplyAllOne(d: Json, op: Json)
    ensures ApplyAll(d, [op]) == Apply(d, op)
  {
    assert [op][1..] == [];
    var next := Apply(d, op);
    if next.Ok? { assert ApplyAll(next.value, []) == Ok(next.value); }
  }

  // ----- runs of operations below one pointer

  /** The operations fail, or succeed having put `r` at `p` and changed nothing else. */
  ghost predicate Reaches(d: Json, p: Path, ops: seq<Json>, succeed: bool, r: Json)
    requires Resolve(d, p).Ok?
  {
    if succeed then ApplyAll(d, ops) == Ok(Put(d, p, r)) else ApplyAll(d, ops).Err?
  }

  lemma Sequence(d: Json, p: Path, a: seq<Json>, okA: bool, x: Json, b: seq<Json>, okB: bool, y: Json)
    requires Resolve(d, p).Ok? && Reaches(d, p, a, okA, x)
    requires okA ==> Resolve(Put(d, p, x), p).Ok? && Reaches(Put(d, p, x), p, b, okB, y)
    ensures Reaches(d, p, a + b, okA && okB, y)
  {
    ApplyAllConcat(d, a, b);
    ResolvePut(d, p, x, y);
  }

  lemma Nothing(d: Json, p: Path)
    requires Resolve(d, p).Ok?
    ensures Reaches(d, p, [], true, Resolve(d, p).value)
  {
    PutSame(d, p);
  }

  /** Reaching a value below a child is reaching the parent with that child replaced. */
  lemma InChild(d: Json, p: Path, token: Text, ops: seq<Json>, succeed: bool, v: Json)
    requires Resolve(d, p).Ok? && Child(Resolve(d, p).value, token).Ok?
    requires Resolve(d, p + [token]).Ok? && Reaches(d, p + [token], ops, succeed, v)
    ensures Reaches(d, p, ops, succeed, SetChild(Resolve(d, p).value, token, v))
  {
    PutSnoc(d, p, token, v);
  }

  lemma IndexToken(p: Path, i: nat)
    ensures IndexPath(P.Print(p), i) == P.Print(p + [Decimal(i)])
    ensures Decimal(i) != DASH
    ensures ArrayIndex(Decimal(i)) == Stoi(Decimal(i)) == if i <= INT_MAX then Ok(i) else Err(OutOfRange)
  {
    P.PrintSnoc(p, Decimal(i));
    P.EscapeDigits(Decimal(i));
    StoiDecimal(i);
  }

  lemma KeyToken(p: Path, key: Text)
    ensures KeyPath(P.Print(p), key) == P.Print(p + [key])
  {
    P.PrintSnoc(p, key);
  }
}
