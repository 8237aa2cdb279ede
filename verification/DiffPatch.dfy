/**
 Applying `diff(source, target)` to the source gives the target.

 Every operation that `diff` emits for a subtree addresses that subtree, so applying
 the operations changes nothing else of the document: if pointer `p` resolves to `s`
 in a document, the operations for `s` and `t` under `p` end in the document with a
 value equal to `t` put at `p`.

 The one limit is `std::stoi`: array positions beyond 2^31 - 1 cannot be addressed.
 `Patchable` says when no such position is needed.
 */
module DiffPatch {
  import opened Bytes
  import opened Results
  import opened Json
  import opened Patch
  import opened Diff
  import opened DiffOutOfRange
  import opened PatchLocality
  import E = Equality
  import P = Pointer

  /** No array position beyond the range of `int` differs, at any depth at which `diff`
      compares the two values. */
  predicate Patchable(s: Json, t: Json)
    decreases s
  {
    Equals(s, t) || TypeOf(s) != TypeOf(t) ||
    match s
    case Array(es) =>
      && (|es| != |t.elems| ==> |es| <= INT_MAX + 1 && |t.elems| <= INT_MAX + 1)
      && forall i :: 0 <= i < |es| && i < |t.elems| ==> ElementPatchable(s, t, i)
    case Object(m) =>
      forall k :: k in m && k in t.members ==> Patchable(m[k], t.members[k])
    case _ => true
  }

  predicate ElementPatchable(s: Json, t: Json, i: nat)
    requires s.Array? && t.Array? && i < |s.elems| && i < |t.elems|
    decreases s, 0
  {
    Equals(s.elems[i], t.elems[i]) || (i <= INT_MAX && Patchable(s.elems[i], t.elems[i]))
  }

  /** `r` is as equal to `t` as a copy of `t` can be. */
  predicate Matches(r: Json, t: Json) {
    NaNFree(t) ==> Equals(r, t)
  }

  // ----- the main induction

  /** Applying the difference of `s` and `t` where `s` is found: it succeeds exactly if
      the two are patchable, and then only the value at `p` changes, to one matching `t`. */
  lemma {:induction false} DiffReaches(d: Json, p: Path, s: Json, t: Json) returns (r: Json)
    requires Resolve(d, p) == Ok(s)
    ensures Reaches(d, p, DiffAt(s, t, P.Print(p)), Patchable(s, t), r)
    ensures Patchable(s, t) ==> Matches(r, t)
    decreases s, 2
  {
    hide ApplyAll, Apply, P.Print, DiffElems, RemovesDown, AddElems, DiffMembers, AddMembers;
    if Equals(s, t) {
      r := s;
      Nothing(d, p);
    } else if TypeOf(s) == TypeOf(t) && s.Array? {
      r := ArraysReach(d, p, s, t);
    } else if TypeOf(s) == TypeOf(t) && s.Object? {
      r := ObjectsReach(d, p, s, t);
    } else {
      r := t;
      ReplaceReaches(d, p, t);
      EqualsReflexive(t);
    }
  }

  lemma ReplaceReaches(d: Json, p: Path, t: Json)
    requires Resolve(d, p).Ok?
    ensures Reaches(d, p, [ReplaceOp(P.Print(p), t)], true, t)
  {
    ApplyReplace(d, p, t);
    ApplyAllOne(d, ReplaceOp(P.Print(p), t));
  }

  /** The first `n` elements of `r` match those of `t`, the others are those of `s`. */
  ghost predicate ElemsMatch(r: seq<Json>, s: seq<Json>, t: seq<Json>, n: nat)
  {
    && |r| == |s|
    && n <= |s| && n <= |t|
    && (forall i :: 0 <= i < n ==> Matches(r[i], t[i]))
    && (forall i :: n <= i < |s| ==> r[i] == s[i])
  }

  ghost predicate ElemsPatchable(s: Json, t: Json, n: nat)
    requires s.Array? && t.Array?
  {
    forall i :: n <= i < |s.elems| && i < |t.elems| ==> ElementPatchable(s, t, i)
  }

  lemma {:induction false} ElemsReach(d: Json, p: Path, s: Json, t: Json, n: nat, cur: seq<Json>) returns (r: seq<Json>)
    requires s.Array? && t.Array? && Resolve(d, p) == Ok(Array(cur))
    requires ElemsMatch(cur, s.elems, t.elems, n)
    ensures Reaches(d, p, DiffElems(s, t, P.Print(p), n), ElemsPatchable(s, t, n), Array(r))
    ensures ElemsPatchable(s, t, n) ==> ElemsMatch(r, s.elems, t.elems, Min(|s.elems|, |t.elems|))
    decreases s, 0, |s.elems| - n
  {
    hide ApplyAll, Apply, P.Print, DiffAt, Equals, Patchable;
    if n >= |s.elems| || n >= |t.elems| {
      Nothing(d, p);
      return cur;
    }
    var x, ok := ElementReaches(d, p, s, t, n, cur);
    var next := cur[n := x];
    var path := P.Print(p);
    var part, rest := DiffAt(s.elems[n], t.elems[n], IndexPath(path, n)), DiffElems(s, t, path, n + 1);
    r := next;
    if ok {
      ResolvePut(d, p, Array(next), Null);
      r := ElemsReach(Put(d, p, Array(next)), p, s, t, n + 1, next);
    }
    Sequence(d, p, part, ok, Array(next), rest, ElemsPatchable(s, t, n + 1), Array(r));
  }

  lemma {:induction false} ElementReaches(d: Json, p: Path, s: Json, t: Json, n: nat, cur: seq<Json>)
    returns (x: Json, ok: bool)
    requires s.Array? && t.Array? && Resolve(d, p) == Ok(Array(cur))
    requires n < |s.elems| && n < |t.elems| && |cur| == |s.elems| && cur[n] == s.elems[n]
    ensures ok == ElementPatchable(s, t, n)
    ensures Reaches(d, p, DiffAt(s.elems[n], t.elems[n], IndexPath(P.Print(p), n)), ok, Array(cur[n := x]))
    ensures ok ==> Matches(x, t.elems[n])
    decreases s, 0, 0
  {
    hide ApplyAll, Apply, P.Print, DiffElems, RemovesDown, AddElems, DiffMembers, AddMembers;
    var a, b, token := s.elems[n], t.elems[n], Decimal(n);
    ok := ElementPatchable(s, t, n);
    IndexToken(p, n);
    if n <= INT_MAX {
      ResolveSnoc(d, p, token);
      x := DiffReaches(d, p + [token], a, b);
      InChild(d, p, token, DiffAt(a, b, IndexPath(P.Print(p), n)), ok, x);
    } else {
      x := a;
      assert cur[n := x] == cur;
      BlockedHere(d, p, n);
      DiffBlocked(d, p + [token], a, b);
      Nothing(d, p);
    }
  }

  lemma RemoveLast(d: Json, p: Path, cur: seq<Json>)
    requires Resolve(d, p) == Ok(Array(cur)) && cur != []
    ensures Reaches(d, p, [RemoveOp(IndexPath(P.Print(p), |cur| - 1))], |cur| <= INT_MAX + 1, Array(cur[..|cur| - 1]))
  {
    hide Apply, ApplyAll, P.Print, Decimal, Resolve;
    var n := |cur| - 1;
    IndexToken(p, n);
    ApplyRemove(d, p, Decimal(n));
    ApplyAllOne(d, RemoveOp(IndexPath(P.Print(p), n)));
    assert cur[..n] + cur[n + 1..] == cur[..n];
  }

  lemma {:induction false} RemovesReach(d: Json, p: Path, cur: seq<Json>, lo: nat)
    requires Resolve(d, p) == Ok(Array(cur)) && lo <= |cur|
    ensures Reaches(d, p, RemovesDown(P.Print(p), lo, |cur|), lo == |cur| || |cur| <= INT_MAX + 1, Array(cur[..lo]))
    decreases |cur|
  {
    hide ApplyAll, Apply, P.Print;
    if lo == |cur| {
      Nothing(d, p);
      assert cur[..lo] == cur;
    } else {
      var n := |cur| - 1;
      var path, next := P.Print(p), cur[..n];
      RemoveLast(d, p, cur);
      ResolvePut(d, p, Array(next), Null);
      RemovesReach(Put(d, p, Array(next)), p, next, lo);
      assert next[..lo] == cur[..lo];
      Sequence(d, p, [RemoveOp(IndexPath(path, n))], |cur| <= INT_MAX + 1, Array(next),
        RemovesDown(path, lo, n), lo == n || n <= INT_MAX + 1, Array(cur[..lo]));
    }
  }

  lemma AddLast(d: Json, p: Path, cur: seq<Json>, v: Json)
    requires Resolve(d, p) == Ok(Array(cur))
    ensures Reaches(d, p, [AddOp(IndexPath(P.Print(p), |cur|), v)], |cur| <= INT_MAX, Array(cur + [v]))
  {
    hide Apply, ApplyAll, P.Print, Decimal, Resolve;
    var n := |cur|;
    IndexToken(p, n);
    ApplyAdd(d, p, Decimal(n), v);
    ApplyAllOne(d, AddOp(IndexPath(P.Print(p), n), v));
    assert cur[..n] + [v] + cur[n..] == cur + [v];
  }

  lemma {:induction false} AddElemsReach(d: Json, p: Path, cur: seq<Json>, es: seq<Json>)
    requires Resolve(d, p) == Ok(Array(cur)) && |cur| <= |es|
    ensures Reaches(d, p, AddElems(P.Print(p), es, |cur|), |cur| == |es| || |es| <= INT_MAX + 1, Array(cur + es[|cur|..]))
    decreases |es| - |cur|
  {
    hide ApplyAll, Apply, P.Print, Resolve, Put, Reaches, AddElems, Decimal;
    var n := |cur|;
    if n == |es| {
      Nothing(d, p);
      NoAdds(P.Print(p), es);
      assert cur + es[n..] == cur;
    } else {
      var next := cur + [es[n]];
      AddLast(d, p, cur, es[n]);
      ResolvePut(d, p, Array(next), Null);
      AddElemsReach(Put(d, p, Array(next)), p, next, es);
      assert next + es[n + 1..] == cur + es[n..];
      AddThenElems(d, p, es, n, n <= INT_MAX, n + 1 == |es| || |es| <= INT_MAX + 1, Array(next), Array(cur + es[n..]));
    }
  }

  lemma NoAdds(path: Text, es: seq<Json>)
    ensures AddElems(path, es, |es|) == []
  {
  }

  lemma AddsFirst(path: Text, es: seq<Json>, n: nat)
    requires n < |es|
    ensures AddElems(path, es, n) == [AddOp(IndexPath(path, n), es[n])] + AddElems(path, es, n + 1)
  {
    hide Decimal;
  }

  /** One addition and those after it. */
  lemma AddThenElems(d: Json, p: Path, es: seq<Json>, n: nat, okFirst: bool, okRest: bool, next: Json, r: Json)
    requires Resolve(d, p).Ok? && Resolve(Put(d, p, next), p).Ok? && n < |es|
    requires Reaches(d, p, [AddOp(IndexPath(P.Print(p), n), es[n])], okFirst, next)
    requires Reaches(Put(d, p, next), p, AddElems(P.Print(p), es, n + 1), okRest, r)
    ensures Reaches(d, p, AddElems(P.Print(p), es, n), okFirst && okRest, r)
  {
    hide *;
    var path := P.Print(p);
    AddsFirst(path, es, n);
    Sequence(d, p, [AddOp(IndexPath(path, n), es[n])], okFirst, next, AddElems(path, es, n + 1), okRest, r);
  }

  lemma {:induction false} ArraysReach(d: Json, p: Path, s: Json, t: Json) returns (r: Json)
    requires s.Array? && t.Array? && Resolve(d, p) == Ok(s) && !Equals(s, t)
    ensures Reaches(d, p, DiffAt(s, t, P.Print(p)), Patchable(s, t), r)
    ensures Patchable(s, t) ==> Matches(r, t)
    decreases s, 1
  {
    hide ApplyAll, Apply, P.Print, DiffElems, RemovesDown, AddElems;
    var path, m := P.Print(p), Min(|s.elems|, |t.elems|);
    var a, b, c := DiffElems(s, t, path, 0), RemovesDown(path, m, |s.elems|), AddElems(path, t.elems, m);
    var x := ElemsReach(d, p, s, t, 0, s.elems);
    var ok := ElemsPatchable(s, t, 0);
    var okB, okC := m == |s.elems| || |s.elems| <= INT_MAX + 1, m == |t.elems| || |t.elems| <= INT_MAX + 1;
    if ok {
      var dx := Put(d, p, Array(x));
      ResolvePut(d, p, Array(x), Null);
      RemovesReach(dx, p, x, m);
      ResolvePut(dx, p, Array(x[..m]), Null);
      AddElemsReach(Put(dx, p, Array(x[..m])), p, x[..m], t.elems);
      Sequence(dx, p, b, okB, Array(x[..m]), c, okC, Array(x[..m] + t.elems[m..]));
      ArrayMatches(x, s, t);
    }
    r := Array(if ok then x[..m] + t.elems[m..] else x);
    Sequence(d, p, a, ok, Array(x), b + c, okB && okC, r);
    assert a + (b + c) == a + b + c;
  }

  lemma ArrayMatches(x: seq<Json>, s: Json, t: Json)
    requires s.Array? && t.Array?
    requires ElemsMatch(x, s.elems, t.elems, Min(|s.elems|, |t.elems|))
    ensures var m := Min(|s.elems|, |t.elems|); Matches(Array(x[..m] + t.elems[m..]), t)
  {
    var m := Min(|s.elems|, |t.elems|);
    var y := x[..m] + t.elems[m..];
    if NaNFree(t) {
      forall i | 0 <= i < |y| ensures Equals(y[i], t.elems[i]) {
        EqualsReflexive(t.elems[i]);
        if i < m { assert Matches(x[i], t.elems[i]); }
      }
    }
  }

  /** `r` is `s` with the first `n` of the keys `ks` brought into line with `t`. */
  ghost predicate MembersMatch(r: map<Text, Json>, s: map<Text, Json>, t: map<Text, Json>, ks: seq<Text>, n: nat)
    requires n <= |ks| && forall k | k in ks :: k in s
  {
    && (forall i :: 0 <= i < n ==> if ks[i] in t then ks[i] in r && Matches(r[ks[i]], t[ks[i]]) else ks[i] !in r)
    && (forall i :: n <= i < |ks| ==> ks[i] in r && r[ks[i]] == s[ks[i]])
    && r.Keys <= s.Keys
  }

  ghost predicate MembersPatchable(s: map<Text, Json>, t: map<Text, Json>, ks: seq<Text>, n: nat)
    requires forall k | k in ks :: k in s
  {
    forall i :: n <= i < |ks| && ks[i] in t ==> Patchable(s[ks[i]], t[ks[i]])
  }

  lemma RemoveKey(d: Json, p: Path, cur: map<Text, Json>, key: Text)
    requires Resolve(d, p) == Ok(Object(cur)) && key in cur
    ensures Reaches(d, p, [RemoveOp(KeyPath(P.Print(p), key))], true, Object(cur - {key}))
  {
    KeyToken(p, key);
    ApplyRemove(d, p, key);
    ApplyAllOne(d, RemoveOp(KeyPath(P.Print(p), key)));
  }

  lemma AddKey(d: Json, p: Path, cur: map<Text, Json>, key: Text, v: Json)
    requires Resolve(d, p) == Ok(Object(cur))
    ensures Reaches(d, p, [AddOp(KeyPath(P.Print(p), key), v)], true, Object(cur[key := v]))
  {
    KeyToken(p, key);
    ApplyAdd(d, p, key, v);
    ApplyAllOne(d, AddOp(KeyPath(P.Print(p), key), v));
  }

  lemma {:induction false} MemberReaches(d: Json, p: Path, s: Json, t: Json, key: Text, cur: map<Text, Json>) returns (x: Json)
    requires s.Object? && t.Object? && Resolve(d, p) == Ok(Object(cur))
    requires key in s.members && key in t.members && key in cur && cur[key] == s.members[key]
    ensures var a, b := s.members[key], t.members[key];
            && Reaches(d, p, DiffAt(a, b, KeyPath(P.Print(p), key)), Patchable(a, b), Object(cur[key := x]))
            && (Patchable(a, b) ==> Matches(x, b))
    decreases s, 0, 0
  {
    hide ApplyAll, Apply, P.Print, DiffElems, RemovesDown, AddElems, DiffMembers, AddMembers;
    var a, b := s.members[key], t.members[key];
    KeyToken(p, key);
    ResolveSnoc(d, p, key);
    x := DiffReaches(d, p + [key], a, b);
    InChild(d, p, key, DiffAt(a, b, KeyPath(P.Print(p), key)), Patchable(a, b), x);
  }

  lemma {:induction false} MembersReach(d: Json, p: Path, s: Json, t: Json, ks: seq<Text>, n: nat, cur: map<Text, Json>)
    returns (r: map<Text, Json>)
    requires s.Object? && t.Object? && Resolve(d, p) == Ok(Object(cur))
    requires n <= |ks| && (forall k | k in ks :: k in s.members)
    requires forall i, j :: 0 <= i < |ks| && 0 <= j < |ks| && i != j ==> ks[i] != ks[j]
    requires MembersMatch(cur, s.members, t.members, ks, n)
    ensures Reaches(d, p, DiffMembers(s, t, P.Print(p), ks, n), MembersPatchable(s.members, t.members, ks, n), Object(r))
    ensures MembersPatchable(s.members, t.members, ks, n) ==> MembersMatch(r, s.members, t.members, ks, |ks|)
    decreases s, 0, |ks| - n
  {
    hide ApplyAll, Apply, P.Print, DiffAt, Equals, Patchable, Matches, Resolve, Put, DiffMembers, MembersMatch,
      MembersPatchable, Reaches;
    if n == |ks| {
      Nothing(d, p);
      NoMembers(s, t, P.Print(p), ks);
      return cur;
    }
    var key := ks[n];
    assert key in ks;
    var path := P.Print(p);
    var part, ok := [RemoveOp(KeyPath(path, key))], true;
    var next := cur - {key};
    MembersStep(s, t, path, ks, n);
    CurrentMember(s.members, t.members, ks, n, cur);
    if key in t.members {
      var x := MemberReaches(d, p, s, t, key, cur);
      next := cur[key := x];
      part := DiffAt(s.members[key], t.members[key], KeyPath(path, key));
      ok := Patchable(s.members[key], t.members[key]);
      if ok { MatchKept(s.members, t.members, ks, n, cur, x); }
    } else {
      RemoveKey(d, p, cur, key);
      MatchRemoved(s.members, t.members, ks, n, cur);
    }
    r := next;
    if ok {
      ResolvePut(d, p, Object(next), Null);
      r := MembersReach(Put(d, p, Object(next)), p, s, t, ks, n + 1, next);
    }
    Sequence(d, p, part, ok, Object(next), DiffMembers(s, t, path, ks, n + 1),
      MembersPatchable(s.members, t.members, ks, n + 1), Object(r));
  }

  lemma NoMembers(s: Json, t: Json, path: Text, ks: seq<Text>)
    requires s.Object? && t.Object? && forall k | k in ks :: k in s.members
    ensures DiffMembers(s, t, path, ks, |ks|) == [] && MembersPatchable(s.members, t.members, ks, |ks|)
  {
  }

  lemma MembersStep(s: Json, t: Json, path: Text, ks: seq<Text>, n: nat)
    requires s.Object? && t.Object? && n < |ks| && forall k | k in ks :: k in s.members
    ensures ks[n] in s.members
    ensures DiffMembers(s, t, path, ks, n) ==
      (if ks[n] in t.members then DiffAt(s.members[ks[n]], t.members[ks[n]], KeyPath(path, ks[n]))
       else [RemoveOp(KeyPath(path, ks[n]))]) + DiffMembers(s, t, path, ks, n + 1)
    ensures MembersPatchable(s.members, t.members, ks, n) <==>
      (ks[n] in t.members ==> Patchable(s.members[ks[n]], t.members[ks[n]])) && MembersPatchable(s.members, t.members, ks, n + 1)
  {
    hide DiffAt, Patchable;
    assert ks[n] in ks;
  }

  lemma CurrentMember(s: map<Text, Json>, t: map<Text, Json>, ks: seq<Text>, n: nat, cur: map<Text, Json>)
    requires n < |ks| && (forall k | k in ks :: k in s) && MembersMatch(cur, s, t, ks, n)
    ensures ks[n] in cur && ks[n] in s && cur[ks[n]] == s[ks[n]]
  {
    hide Matches;
    assert ks[n] in ks;
  }

  lemma MatchKept(s: map<Text, Json>, t: map<Text, Json>, ks: seq<Text>, n: nat, cur: map<Text, Json>, x: Json)
    requires n < |ks| && (forall k | k in ks :: k in s) && MembersMatch(cur, s, t, ks, n)
    requires forall i, j :: 0 <= i < |ks| && 0 <= j < |ks| && i != j ==> ks[i] != ks[j]
    requires ks[n] in t && Matches(x, t[ks[n]])
    ensures MembersMatch(cur[ks[n] := x], s, t, ks, n + 1)
  {
    hide Matches;
    assert ks[n] in ks;
  }

  lemma MatchRemoved(s: map<Text, Json>, t: map<Text, Json>, ks: seq<Text>, n: nat, cur: map<Text, Json>)
    requires n < |ks| && (forall k | k in ks :: k in s) && MembersMatch(cur, s, t, ks, n)
    requires forall i, j :: 0 <= i < |ks| && 0 <= j < |ks| && i != j ==> ks[i] != ks[j]
    requires ks[n] !in t
    ensures MembersMatch(cur - {ks[n]}, s, t, ks, n + 1)
  {
    hide Matches;
    assert ks[n] in ks;
  }

  /** `cur` extended with the members of `t` whose keys are among the first `n` and not in `s`. */
  ghost predicate Extends(r: map<Text, Json>, cur: map<Text, Json>, s: map<Text, Json>, t: map<Text, Json>, ks: seq<Text>, n: nat)
    requires n <= |ks| && forall k | k in ks :: k in t
  {
    && (forall k :: k in cur ==> k in r)
    && (forall k :: k in r ==> if k in cur then r[k] == cur[k] else k !in s && k in t && r[k] == t[k])
    && (forall i :: 0 <= i < n && ks[i] !in s ==> ks[i] in r)
  }

  lemma {:induction false} NewMembersReach(d: Json, p: Path, s: map<Text, Json>, t: map<Text, Json>, ks: seq<Text>, n: nat,
      base: map<Text, Json>, cur: map<Text, Json>)
    returns (r: map<Text, Json>)
    requires Resolve(d, p) == Ok(Object(cur))
    requires n <= |ks| && (forall k | k in ks :: k in t) && base.Keys <= s.Keys
    requires Extends(cur, base, s, t, ks, n)
    ensures Reaches(d, p, AddMembers(P.Print(p), s, t, ks, n), true, Object(r))
    ensures Extends(r, base, s, t, ks, |ks|)
    decreases |ks| - n
  {
    hide ApplyAll, Apply, P.Print;
    if n == |ks| {
      Nothing(d, p);
      return cur;
    }
    var key := ks[n];
    assert key in ks;
    var path := P.Print(p);
    var rest := AddMembers(path, s, t, ks, n + 1);
    if key in s {
      assert [] + rest == rest;
      r := NewMembersReach(d, p, s, t, ks, n + 1, base, cur);
    } else {
      var next := cur[key := t[key]];
      AddKey(d, p, cur, key, t[key]);
      ResolvePut(d, p, Object(next), Null);
      r := NewMembersReach(Put(d, p, Object(next)), p, s, t, ks, n + 1, base, next);
      Sequence(d, p, [AddOp(KeyPath(path, key), t[key])], true, Object(next), rest, true, Object(r));
    }
  }

  lemma {:induction false} ObjectsReach(d: Json, p: Path, s: Json, t: Json) returns (r: Json)
    requires s.Object? && t.Object? && Resolve(d, p) == Ok(s) && !Equals(s, t)
    ensures Reaches(d, p, DiffAt(s, t, P.Print(p)), Patchable(s, t), r)
    ensures Patchable(s, t) ==> Matches(r, t)
    decreases s, 1
  {
    hide ApplyAll, Apply, P.Print, DiffMembers, AddMembers, SortedKeys;
    var path, ks, kt := P.Print(p), SortedKeys(s.members.Keys), SortedKeys(t.members.Keys);
    SortedDistinct(ks);
    var x := MembersReach(d, p, s, t, ks, 0, s.members);
    var ok := MembersPatchable(s.members, t.members, ks, 0);
    var y := x;
    if ok {
      var dx := Put(d, p, Object(x));
      ResolvePut(d, p, Object(x), Null);
      y := NewMembersReach(dx, p, s.members, t.members, kt, 0, x, x);
      ObjectMatches(x, y, s, t, ks, kt);
    }
    r := Object(y);
    Sequence(d, p, DiffMembers(s, t, path, ks, 0), ok, Object(x), AddMembers(path, s.members, t.members, kt, 0), true, r);
    assert ok <==> Patchable(s, t) by {
      forall k | ok && k in s.members && k in t.members ensures Patchable(s.members[k], t.members[k]) { assert k in ks; }
      forall i | Patchable(s, t) && 0 <= i < |ks| && ks[i] in t.members ensures Patchable(s.members[ks[i]], t.members[ks[i]]) {
        assert ks[i] in ks;
      }
    }
  }

  lemma ObjectMatches(x: map<Text, Json>, y: map<Text, Json>, s: Json, t: Json, ks: seq<Text>, kt: seq<Text>)
    requires s.Object? && t.Object?
    requires (forall k :: k in ks <==> k in s.members) && (forall k :: k in kt <==> k in t.members)
    requires MembersMatch(x, s.members, t.members, ks, |ks|)
    requires Extends(y, x, s.members, t.members, kt, |kt|)
    ensures Matches(Object(y), t)
  {
    forall k | k in y ensures k in t.members && (NaNFree(t) ==> Equals(y[k], t.members[k])) {
      if k in x {
        assert k in ks;
      } else {
        EqualsReflexive(t.members[k]);
      }
    }
    forall k | k in t.members ensures k in y {
      assert k in kt;
      if k in s.members { assert k in ks; }
    }
    assert y.Keys == t.members.Keys;
  }

  // ----- the theorem

  /** The documented invariant of `diff`, `source.patch(diff(source, target)) == target`,
      with its exact conditions: patching succeeds if and only if the two values are
      patchable, and the result then equals the target if and only if the target holds no NaN. */
  lemma DiffPatchTheorem(source: Json, target: Json)
    ensures var result := PatchResult(source, Array(DiffAt(source, target, [])));
            && (result.Ok? <==> Patchable(source, target))
            && (result.Ok? ==> (Equals(result.value, target) <==> NaNFree(target)))
  {
    hide ApplyAll, Patchable;
    var r := DiffReaches(source, [], source, target);
    if Patchable(source, target) && Equals(r, target) {
      EqualsNaNFree(r, target);
    }
  }

  /** Array lengths up to 2^31, at every depth. */
  predicate SmallArrays(j: Json) {
    match j
    case Array(es) => |es| <= INT_MAX + 1 && forall i :: 0 <= i < |es| ==> SmallArrays(es[i])
    case Object(m) => forall k :: k in m ==> SmallArrays(m[k])
    case _ => true
  }

  lemma {:induction false} SmallPatchable(s: Json, t: Json)
    requires SmallArrays(s) && SmallArrays(t)
    ensures Patchable(s, t)
  {
    if !Equals(s, t) && TypeOf(s) == TypeOf(t) {
      if s.Array? {
        forall i | 0 <= i < |s.elems| && i < |t.elems| ensures ElementPatchable(s, t, i) {
          SmallPatchable(s.elems[i], t.elems[i]);
        }
      } else if s.Object? {
        forall k | k in s.members && k in t.members ensures Patchable(s.members[k], t.members[k]) {
          SmallPatchable(s.members[k], t.members[k]);
        }
      }
    }
  }

  /** The invariant as documented, for values without NaN whose arrays have at most 2^31 elements. */
  lemma DiffPatchInvariant(source: Json, target: Json)
    requires SmallArrays(source) && SmallArrays(target) && NaNFree(target)
    ensures var result := PatchResult(source, Array(DiffAt(source, target, [])));
            result.Ok? && Equals(result.value, target)
  {
    SmallPatchable(source, target);
    DiffPatchTheorem(source, target);
  }

  /** For a target without numbers the patch gives the very target, and only a target that
      is the source gives an empty patch. */
  lemma DiffPatchExact(source: Json, target: Json)
    requires E.NumberFree(target)
    ensures PatchResult(source, Array(DiffAt(source, target, []))) == Ok(target) <==> Patchable(source, target)
    ensures DiffAt(source, target, []) == [] && Patchable(source, target) ==> source == target
  {
    hide Patchable, Equals, DiffAt, ApplyAll;
    DiffPatchTheorem(source, target);
    NumberFreeNaN(target);
    var result := PatchResult(source, Array(DiffAt(source, target, [])));
    if result.Ok? { E.EqualsSame(result.value, target); }
    if DiffAt(source, target, []) == [] { ApplyNothing(source); }
  }

  lemma ApplyNothing(d: Json)
    ensures ApplyAll(d, []) == Ok(d)
  {
  }

  lemma {:induction false} NumberFreeNaN(j: Json)
    requires E.NumberFree(j)
    ensures NaNFree(j)
  {
    match j
    case Array(es) =>
      forall i | 0 <= i < |es| ensures NaNFree(es[i]) { NumberFreeNaN(es[i]); }
    case Object(m) =>
      forall k | k in m ensures NaNFree(m[k]) { NumberFreeNaN(m[k]); }
    case _ =>
  }

  /** Without the size limit the invariant is false: dropping the last of 2^31 + 1 elements
      cannot be expressed in a patch. */
  lemma DiffPatchCounterexample()
    ensures var n := INT_MAX + 1;
            var source, target := Array(Nulls(n + 1)), Array(Nulls(n));
            PatchResult(source, Array(DiffAt(source, target, []))).Err?
  {
    var n := INT_MAX + 1;
    DiffPatchTheorem(Array(Nulls(n + 1)), Array(Nulls(n)));
  }
}
