/**
 The edits of `diff` below an array position beyond 2^31 - 1: `std::stoi` throws on its
 token, so they all fail.
 */
module DiffOutOfRange {
  import opened Bytes
  import opened Results
  import opened Json
  import opened Patch
  import opened Diff
  import opened PatchLocality
  import P = Pointer

  // ----- positions out of range

  /** The pointer reaches an array position that no `int` holds. */
  predicate Blocked(d: Json, q: Path)
    decreases |q|
  {
    q != [] &&
    if Child(d, q[0]).Ok? then Blocked(Child(d, q[0]).value, q[1..])
    else d.Array? && q[0] != DASH && ArrayIndex(q[0]).Err?
  }

  lemma {:induction false} BlockedFails(d: Json, q: Path, edit: Json -> Result<Json>)
    requires Blocked(d, q)
    ensures Resolve(d, q).Err? && Unchecked(d, q, edit).Err?
    decreases |q|
  {
    if Child(d, q[0]).Ok? {
      BlockedFails(Child(d, q[0]).value, q[1..], edit);
      if d.Array? { assert d.elems + [] == d.elems; }
    }
  }

  lemma {:induction false} BlockedSnoc(d: Json, q: Path, token: Text)
    requires Blocked(d, q)
    ensures Blocked(d, q + [token])
    decreases |q|
  {
    assert (q + [token])[1..] == q[1..] + [token];
    if Child(d, q[0]).Ok? { BlockedSnoc(Child(d, q[0]).value, q[1..], token); }
  }

  lemma {:induction false} BlockedHere(d: Json, p: Path, i: nat)
    requires Resolve(d, p).Ok? && Resolve(d, p).value.Array? && i > INT_MAX
    ensures Blocked(d, p + [Decimal(i)])
    decreases |p|
  {
    IndexToken(p, i);
    if p == [] {
      assert p + [Decimal(i)] == [Decimal(i)];
    } else {
      assert (p + [Decimal(i)])[1..] == p[1..] + [Decimal(i)];
      BlockedHere(Child(d, p[0]).value, p[1..], i);
    }
  }

  lemma BlockedReplace(d: Json, q: Path, v: Json)
    requires Blocked(d, q)
    ensures Apply(d, ReplaceOp(P.Print(q), v)).Err?
  {
    BlockedFails(d, q, j => Ok(j));
    P.SplitPrint(q);
  }

  lemma BlockedRemove(d: Json, q: Path, token: Text)
    requires Blocked(d, q)
    ensures Apply(d, RemoveOp(P.Print(q + [token]))).Err?
  {
    BlockedFails(d, q, j => Ok(j));
    P.SplitPrint(q + [token]);
    assert (q + [token])[..|q|] == q;
  }

  lemma BlockedAdd(d: Json, q: Path, token: Text, v: Json)
    requires Blocked(d, q)
    ensures Apply(d, AddOp(P.Print(q + [token]), v)).Err?
  {
    BlockedFails(d, q, parent => AddChild(parent, token, v));
    P.SplitPrint(q + [token]);
    assert (q + [token])[..|q|] == q;
  }

  lemma FirstFails(d: Json, op: Json, ops: seq<Json>)
    requires Apply(d, op).Err?
    ensures ApplyAll(d, [op] + ops).Err?
  {
  }

  /** The operations do nothing if the two values are the same, and fail if they differ. */
  ghost predicate Stuck(d: Json, ops: seq<Json>, same: bool) {
    if same then ops == [] else ApplyAll(d, ops).Err?
  }

  lemma StuckConcat(d: Json, a: seq<Json>, sameA: bool, b: seq<Json>, sameB: bool)
    requires Stuck(d, a, sameA) && Stuck(d, b, sameB)
    ensures Stuck(d, a + b, sameA && sameB)
  {
    ApplyAllConcat(d, a, b);
  }

  /** A nonempty difference below such a position fails. */
  lemma {:induction false} DiffBlocked(d: Json, q: Path, s: Json, t: Json)
    requires Blocked(d, q)
    ensures Stuck(d, DiffAt(s, t, P.Print(q)), Equals(s, t))
    decreases s, 2
  {
    if !Equals(s, t) {
      if TypeOf(s) == TypeOf(t) && s.Array? {
        ArraysBlocked(d, q, s, t);
      } else if TypeOf(s) == TypeOf(t) && s.Object? {
        ObjectsBlocked(d, q, s, t);
      } else {
        BlockedReplace(d, q, t);
        FirstFails(d, ReplaceOp(P.Print(q), t), []);
        assert [ReplaceOp(P.Print(q), t)] + [] == [ReplaceOp(P.Print(q), t)];
      }
    }
  }

  lemma {:induction false} ArraysBlocked(d: Json, q: Path, s: Json, t: Json)
    requires Blocked(d, q) && s.Array? && t.Array?
    ensures var path, m := P.Print(q), Min(|s.elems|, |t.elems|);
            Stuck(d, DiffElems(s, t, path, 0) + RemovesDown(path, m, |s.elems|) + AddElems(path, t.elems, m),
              |s.elems| == |t.elems| && SameFrom(s, t, 0))
    decreases s, 1
  {
    hide ApplyAll, Apply, Blocked, P.Print, DiffElems, RemovesDown, AddElems, Equals;
    var path, m := P.Print(q), Min(|s.elems|, |t.elems|);
    var a, b, c := DiffElems(s, t, path, 0), RemovesDown(path, m, |s.elems|), AddElems(path, t.elems, m);
    ElemsBlocked(d, q, s, t, 0);
    RemovesBlocked(d, q, m, |s.elems|);
    AddElemsBlocked(d, q, t.elems, m);
    StuckConcat(d, a, SameFrom(s, t, 0), b, m == |s.elems|);
    StuckConcat(d, a + b, SameFrom(s, t, 0) && m == |s.elems|, c, m >= |t.elems|);
  }

  lemma {:induction false} ObjectsBlocked(d: Json, q: Path, s: Json, t: Json)
    requires Blocked(d, q) && s.Object? && t.Object?
    ensures Stuck(d,
              DiffMembers(s, t, P.Print(q), SortedKeys(s.members.Keys), 0)
              + AddMembers(P.Print(q), s.members, t.members, SortedKeys(t.members.Keys), 0),
              Equals(s, t))
    decreases s, 1
  {
    hide ApplyAll, Apply, Blocked, P.Print, DiffMembers, AddMembers;
    var ks, kt := SortedKeys(s.members.Keys), SortedKeys(t.members.Keys);
    MembersBlocked(d, q, s, t, ks, 0);
    NewMembersBlocked(d, q, s.members, t.members, kt, 0);
    StuckConcat(d, DiffMembers(s, t, P.Print(q), ks, 0), SameMembers(s, t, ks, 0),
      AddMembers(P.Print(q), s.members, t.members, kt, 0), NoneNew(s.members, kt, 0));
    SameObjects(s, t);
  }

  lemma SameObjects(s: Json, t: Json)
    requires s.Object? && t.Object?
    ensures Equals(s, t) <==> SameMembers(s, t, SortedKeys(s.members.Keys), 0) && NoneNew(s.members, SortedKeys(t.members.Keys), 0)
  {
    hide SortedKeys;
    var ks, kt := SortedKeys(s.members.Keys), SortedKeys(t.members.Keys);
    if Equals(s, t) {
      forall i | 0 <= i < |ks| ensures ks[i] in t.members && Equals(s.members[ks[i]], t.members[ks[i]]) {
        assert ks[i] in ks;
      }
      forall i | 0 <= i < |kt| ensures kt[i] in s.members { assert kt[i] in kt; }
    }
    if SameMembers(s, t, ks, 0) && NoneNew(s.members, kt, 0) {
      forall k | k in s.members ensures k in t.members && Equals(s.members[k], t.members[k]) { assert k in ks; }
      forall k | k in t.members ensures k in s.members { assert k in kt; }
      assert s.members.Keys == t.members.Keys;
    }
  }

  predicate SameFrom(s: Json, t: Json, n: nat)
    requires s.Array? && t.Array?
  {
    forall k :: n <= k < |s.elems| && k < |t.elems| ==> Equals(s.elems[k], t.elems[k])
  }

  predicate SameMembers(s: Json, t: Json, ks: seq<Text>, n: nat)
    requires s.Object? && t.Object? && forall k | k in ks :: k in s.members
  {
    forall i :: n <= i < |ks| ==> ks[i] in t.members && Equals(s.members[ks[i]], t.members[ks[i]])
  }

  predicate NoneNew(s: map<Text, Json>, ks: seq<Text>, n: nat) {
    forall i :: n <= i < |ks| ==> ks[i] in s
  }

  lemma NothingStuck(d: Json)
    ensures Stuck(d, [], true)
  {
  }

  lemma {:induction false} ElemsBlocked(d: Json, q: Path, s: Json, t: Json, n: nat)
    requires Blocked(d, q) && s.Array? && t.Array?
    ensures Stuck(d, DiffElems(s, t, P.Print(q), n), SameFrom(s, t, n))
    decreases s, 0, |s.elems| - n
  {
    hide Equals, DiffAt, ApplyAll, Apply, Blocked, P.Print, Decimal, IndexPath, Stuck;
    if n >= |s.elems| || n >= |t.elems| {
      NothingStuck(d);
    } else {
      var path, token := P.Print(q), Decimal(n);
      IndexToken(q, n);
      BlockedSnoc(d, q, token);
      DiffBlocked(d, q + [token], s.elems[n], t.elems[n]);
      ElemsBlocked(d, q, s, t, n + 1);
      StuckConcat(d, DiffAt(s.elems[n], t.elems[n], IndexPath(path, n)), Equals(s.elems[n], t.elems[n]),
        DiffElems(s, t, path, n + 1), SameFrom(s, t, n + 1));
    }
  }

  lemma {:induction false} RemovesBlocked(d: Json, q: Path, lo: nat, hi: nat)
    requires Blocked(d, q) && lo <= hi
    ensures Stuck(d, RemovesDown(P.Print(q), lo, hi), lo == hi)
  {
    hide ApplyAll, Apply, Blocked, P.Print;
    if lo < hi {
      IndexToken(q, hi - 1);
      BlockedRemove(d, q, Decimal(hi - 1));
      FirstFails(d, RemoveOp(IndexPath(P.Print(q), hi - 1)), RemovesDown(P.Print(q), lo, hi - 1));
    }
  }

  lemma {:induction false} AddElemsBlocked(d: Json, q: Path, es: seq<Json>, n: nat)
    requires Blocked(d, q)
    ensures Stuck(d, AddElems(P.Print(q), es, n), n >= |es|)
  {
    hide ApplyAll, Apply, Blocked, P.Print;
    if n < |es| {
      IndexToken(q, n);
      BlockedAdd(d, q, Decimal(n), es[n]);
      FirstFails(d, AddOp(IndexPath(P.Print(q), n), es[n]), AddElems(P.Print(q), es, n + 1));
    }
  }

  lemma {:induction false} MembersBlocked(d: Json, q: Path, s: Json, t: Json, ks: seq<Text>, n: nat)
    requires Blocked(d, q) && s.Object? && t.Object? && forall k | k in ks :: k in s.members
    ensures Stuck(d, DiffMembers(s, t, P.Print(q), ks, n), SameMembers(s, t, ks, n))
    decreases s, 0, |ks| - n
  {
    hide Equals, DiffAt, ApplyAll, Blocked, P.Print;
    if n < |ks| {
      var path, key := P.Print(q), ks[n];
      KeyToken(q, key);
      MembersBlocked(d, q, s, t, ks, n + 1);
      var rest := DiffMembers(s, t, path, ks, n + 1);
      if key in t.members {
        BlockedSnoc(d, q, key);
        DiffBlocked(d, q + [key], s.members[key], t.members[key]);
        StuckConcat(d, DiffAt(s.members[key], t.members[key], KeyPath(path, key)),
          Equals(s.members[key], t.members[key]), rest, SameMembers(s, t, ks, n + 1));
      } else {
        BlockedRemove(d, q, key);
        FirstFails(d, RemoveOp(KeyPath(path, key)), rest);
      }
    }
  }

  lemma {:induction false} NewMembersBlocked(d: Json, q: Path, s: map<Text, Json>, t: map<Text, Json>, ks: seq<Text>, n: nat)
    requires Blocked(d, q) && forall k | k in ks :: k in t
    ensures Stuck(d, AddMembers(P.Print(q), s, t, ks, n), NoneNew(s, ks, n))
    decreases |ks| - n
  {
    hide ApplyAll, Apply, Blocked, P.Print;
    if n < |ks| {
      var path, key := P.Print(q), ks[n];
      NewMembersBlocked(d, q, s, t, ks, n + 1);
      if key !in s {
        KeyToken(q, key);
        BlockedAdd(d, q, key, t[key]);
        FirstFails(d, AddOp(KeyPath(path, key), t[key]), AddMembers(path, s, t, ks, n + 1));
      } else {
        assert [] + AddMembers(path, s, t, ks, n + 1) == AddMembers(path, s, t, ks, n + 1);
      }
    }
  }
}
