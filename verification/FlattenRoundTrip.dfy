/**
 `unflatten(flatten(j))` equals `j` exactly for the values in `Flattenable`.

 `unflatten` visits the flattened entries in the order of their pointer texts, which
 interleaves the entries of different children ("/10" comes before "/2"). What it
 builds at a child depends only on the entries below that child, in their order, so
 the question reduces to the first entry at every node, which decides whether an
 array or an object is created there.
 */
module FlattenRoundTrip {
  import opened Bytes
  import opened Results
  import opened Json
  import opened Patch
  import opened Flatten
  import P = Pointer

  /** A primitive, or an empty array or object: flattened to a single entry. */
  predicate IsFlat(j: Json) {
    IsPrimitive(j) || (j.Array? && j.elems == []) || (j.Object? && j.members == map[])
  }

  /** The part of the first entry's pointer, after the parent's, that decides the order
      among siblings. */
  function Head(m: map<Text, Json>, k: Text): Text
    requires k in m
  {
    P.Escape(k) + (if IsFlat(m[k]) then [] else [P.SLASH])
  }

  /** The entries below key "0" come before those below every other key. */
  predicate ZeroFirst(m: map<Text, Json>) {
    ZERO_TOKEN in m && forall k | k in m :: !Less(Head(m, k), Head(m, ZERO_TOKEN))
  }

  /** No empty array or object, no object whose entries below key "0" come first, and no
      array beyond the range of `std::stoi`. */
  predicate Flattenable(j: Json) {
    match j
    case Array(es) => es != [] && |es| <= INT_MAX + 1 && forall i :: 0 <= i < |es| ==> Flattenable(es[i])
    case Object(m) => m != map[] && !ZeroFirst(m) && forall k :: k in m ==> Flattenable(m[k])
    case _ => true
  }

  // ----- the entries of a value

  datatype Leaf = Leaf(path: Path, value: Json)

  /** The child of `j` that flattening reaches with `token`. */
  predicate HasChild(j: Json, token: Text) {
    match j
    case Array(es) => exists i :: 0 <= i < |es| && Decimal(i) == token
    case Object(m) => token in m
    case _ => false
  }

  ghost function ChildAt(j: Json, token: Text): Json
    requires HasChild(j, token)
    ensures ChildAt(j, token) < j
  {
    match j
    case Array(es) => (var i :| 0 <= i < |es| && Decimal(i) == token; es[i])
    case Object(m) => m[token]
  }

  lemma ChildAtIndex(j: Json, i: nat)
    requires j.Array? && i < |j.elems|
    ensures HasChild(j, Decimal(i)) && ChildAt(j, Decimal(i)) == j.elems[i]
  {
    var n :| 0 <= n < |j.elems| && Decimal(n) == Decimal(i) && ChildAt(j, Decimal(i)) == j.elems[n];
    DecimalInjective(n, i);
  }

  ghost predicate IsLeaf(j: Json, p: Path, v: Json)
    decreases |p|
  {
    if IsFlat(j) then p == [] && v == (if IsPrimitive(j) then j else Null)
    else p != [] && HasChild(j, p[0]) && IsLeaf(ChildAt(j, p[0]), p[1..], v)
  }

  lemma {:induction false} SomeLeaf(j: Json) returns (p: Path, v: Json)
    ensures IsLeaf(j, p, v)
  {
    if IsFlat(j) {
      p, v := [], if IsPrimitive(j) then j else Null;
    } else if j.Array? {
      var q, w := SomeLeaf(j.elems[0]);
      ChildAtIndex(j, 0);
      p, v := [Decimal(0)] + q, w;
      assert p[1..] == q;
    } else {
      var k :| k in j.members;
      var q, w := SomeLeaf(j.members[k]);
      p, v := [k] + q, w;
      assert p[1..] == q;
    }
  }

  // ----- flatten collects exactly the entries

  ghost predicate PrintsLeaf(prefix: Path, j: Json, text: Text, v: Json) {
    exists p: Path :: text == P.Print(prefix + p) && IsLeaf(j, p, v)
  }

  lemma SiblingLeaves(prefix: Path, a: Text, b: Text, x: Json, y: Json, text: Text, v: Json, w: Json)
    requires PrintsLeaf(prefix + [a], x, text, v) && PrintsLeaf(prefix + [b], y, text, w)
    ensures a == b
  {
    var p: Path :| text == P.Print(prefix + [a] + p) && IsLeaf(x, p, v);
    var q: Path :| text == P.Print(prefix + [b] + q) && IsLeaf(y, q, w);
    P.PrintInjective(prefix + [a] + p, prefix + [b] + q);
    assert (prefix + [a] + p)[|prefix|] == a;
    assert (prefix + [b] + q)[|prefix|] == b;
  }

  /** The tokens of the children of `j`, in the order in which `flatten` visits them. */
  function Tokens(j: Json): (r: seq<Text>)
    requires !IsFlat(j)
    ensures forall t :: t in r <==> HasChild(j, t)
  {
    match j
    case Array(es) =>
      var r := seq(|es|, i requires 0 <= i < |es| => Decimal(i));
      assert forall i :: 0 <= i < |es| ==> r[i] == Decimal(i);
      r
    case Object(m) => SortedKeys(m.Keys)
  }

  lemma TokensDistinct(j: Json)
    requires !IsFlat(j)
    ensures forall a, b :: 0 <= a < |Tokens(j)| && 0 <= b < |Tokens(j)| && a != b ==> Tokens(j)[a] != Tokens(j)[b]
  {
    if j.Array? {
      forall a, b | 0 <= a < |j.elems| && 0 <= b < |j.elems| && a != b ensures Decimal(a) != Decimal(b) {
        if Decimal(a) == Decimal(b) { DecimalInjective(a, b); }
      }
    } else {
      SortedDistinct(Tokens(j));
    }
  }

  /** The loops of `flatten` over elements and over members, in one form. */
  ghost function FlattenVia(prefix: Path, j: Json, tokens: seq<Text>, i: nat, acc: map<Text, Json>): map<Text, Json>
    requires forall t | t in tokens :: HasChild(j, t)
    decreases |tokens| - i
  {
    if i < |tokens| then
      FlattenVia(prefix, j, tokens, i + 1, FlattenInto(P.Print(prefix + [tokens[i]]), ChildAt(j, tokens[i]), acc))
    else acc
  }

  lemma {:induction false} FlattenElemsVia(prefix: Path, j: Json, i: nat, acc: map<Text, Json>)
    requires j.Array? && !IsFlat(j)
    ensures FlattenElems(P.Print(prefix), j, i, acc) == FlattenVia(prefix, j, Tokens(j), i, acc)
    decreases |j.elems| - i
  {
    hide FlattenInto, P.Print, P.Escape, Decimal;
    if i < |j.elems| {
      P.PrintSnoc(prefix, Decimal(i));
      P.EscapeDigits(Decimal(i));
      ChildAtIndex(j, i);
      FlattenElemsVia(prefix, j, i + 1, FlattenInto(P.Print(prefix + [Decimal(i)]), j.elems[i], acc));
    }
  }

  lemma {:induction false} FlattenMembersVia(prefix: Path, j: Json, i: nat, acc: map<Text, Json>)
    requires j.Object? && !IsFlat(j)
    ensures FlattenMembers(P.Print(prefix), j, Tokens(j), i, acc) == FlattenVia(prefix, j, Tokens(j), i, acc)
    decreases |Tokens(j)| - i
  {
    var ks := Tokens(j);
    if i < |ks| {
      P.PrintSnoc(prefix, ks[i]);
      FlattenMembersVia(prefix, j, i + 1, FlattenInto(P.Print(prefix + [ks[i]]), j.members[ks[i]], acc));
    }
  }

  /** The entries reached through the tokens from position `i` on. */
  ghost predicate PrintsVia(prefix: Path, j: Json, tokens: seq<Text>, i: nat, text: Text, v: Json)
    requires forall t | t in tokens :: HasChild(j, t)
  {
    exists n :: i <= n < |tokens| && PrintsLeaf(prefix + [tokens[n]], ChildAt(j, tokens[n]), text, v)
  }

  /** `result` is `acc` with the entries of `j` added. */
  ghost predicate Adds(prefix: Path, j: Json, acc: map<Text, Json>, result: map<Text, Json>) {
    && (forall text, v :: PrintsLeaf(prefix, j, text, v) ==> text in result && result[text] == v)
    && (forall text :: text in result ==> (text in acc && result[text] == acc[text]) || PrintsLeaf(prefix, j, text, result[text]))
    && acc.Keys <= result.Keys
  }

  ghost predicate AddsVia(prefix: Path, j: Json, tokens: seq<Text>, i: nat, acc: map<Text, Json>, result: map<Text, Json>)
    requires forall t | t in tokens :: HasChild(j, t)
  {
    && (forall text, v :: PrintsVia(prefix, j, tokens, i, text, v) ==> text in result && result[text] == v)
    && (forall text :: text in result ==>
        (text in acc && result[text] == acc[text]) || PrintsVia(prefix, j, tokens, i, text, result[text]))
    && acc.Keys <= result.Keys
  }

  lemma {:induction false} FlattenAdds(prefix: Path, j: Json, acc: map<Text, Json>)
    ensures Adds(prefix, j, acc, FlattenInto(P.Print(prefix), j, acc))
    decreases j, 1, 0
  {
    if IsFlat(j) {
      var value := if IsPrimitive(j) then j else Null;
      assert prefix + [] == prefix;
      forall text, v | PrintsLeaf(prefix, j, text, v) ensures text == P.Print(prefix) && v == value {}
      assert IsLeaf(j, [], value);
    } else {
      var tokens := Tokens(j);
      if j.Array? { FlattenElemsVia(prefix, j, 0, acc); } else { FlattenMembersVia(prefix, j, 0, acc); }
      TokensDistinct(j);
      FlattenViaAdds(prefix, j, tokens, 0, acc);
      forall text, v ensures PrintsVia(prefix, j, tokens, 0, text, v) <==> PrintsLeaf(prefix, j, text, v) {
        ViaIsLeaf(prefix, j, text, v);
      }
    }
  }

  lemma ViaIsLeaf(prefix: Path, j: Json, text: Text, v: Json)
    requires !IsFlat(j)
    ensures PrintsVia(prefix, j, Tokens(j), 0, text, v) <==> PrintsLeaf(prefix, j, text, v)
  {
    hide *;
    if PrintsVia(prefix, j, Tokens(j), 0, text, v) { ViaImpliesLeaf(prefix, j, text, v); }
    if PrintsLeaf(prefix, j, text, v) { LeafImpliesVia(prefix, j, text, v); }
  }

  lemma ViaImpliesLeaf(prefix: Path, j: Json, text: Text, v: Json)
    requires !IsFlat(j) && PrintsVia(prefix, j, Tokens(j), 0, text, v)
    ensures PrintsLeaf(prefix, j, text, v)
  {
    hide P.Print, Tokens, IsLeaf, ChildAt;
    var tokens := Tokens(j);
    var n :| 0 <= n < |tokens| && PrintsLeaf(prefix + [tokens[n]], ChildAt(j, tokens[n]), text, v);
    var token := tokens[n];
    assert token in tokens;
    var p: Path :| text == P.Print(prefix + [token] + p) && IsLeaf(ChildAt(j, token), p, v);
    LeafInChild(j, token, p, v);
    assert prefix + [token] + p == prefix + ([token] + p);
  }

  lemma LeafImpliesVia(prefix: Path, j: Json, text: Text, v: Json)
    requires !IsFlat(j) && PrintsLeaf(prefix, j, text, v)
    ensures PrintsVia(prefix, j, Tokens(j), 0, text, v)
  {
    hide P.Print, Tokens, ChildAt;
    var tokens := Tokens(j);
    var p: Path :| text == P.Print(prefix + p) && IsLeaf(j, p, v);
    assert p[0] in tokens;
    var n :| 0 <= n < |tokens| && tokens[n] == p[0];
    hide IsLeaf;
    assert prefix + p == prefix + [tokens[n]] + p[1..];
    assert PrintsLeaf(prefix + [tokens[n]], ChildAt(j, tokens[n]), text, v);
  }

  lemma LeafInChild(j: Json, token: Text, p: Path, v: Json)
    requires !IsFlat(j)
    ensures IsLeaf(j, [token] + p, v) <==> HasChild(j, token) && IsLeaf(ChildAt(j, token), p, v)
  {
    assert ([token] + p)[0] == token && ([token] + p)[1..] == p;
  }

  lemma {:induction false} FlattenViaAdds(prefix: Path, j: Json, tokens: seq<Text>, i: nat, acc: map<Text, Json>)
    requires forall t | t in tokens :: HasChild(j, t)
    requires forall a, b :: 0 <= a < |tokens| && 0 <= b < |tokens| && a != b ==> tokens[a] != tokens[b]
    ensures AddsVia(prefix, j, tokens, i, acc, FlattenVia(prefix, j, tokens, i, acc))
    decreases j, 0, |tokens| - i
  {
    if i < |tokens| {
      var child, below := ChildAt(j, tokens[i]), prefix + [tokens[i]];
      var next := FlattenInto(P.Print(below), child, acc);
      FlattenAdds(below, child, acc);
      FlattenViaAdds(prefix, j, tokens, i + 1, next);
      var result := FlattenVia(prefix, j, tokens, i + 1, next);
      forall text, v | PrintsVia(prefix, j, tokens, i, text, v) ensures text in result && result[text] == v {
        if PrintsLeaf(below, child, text, v) {
          assert text in next && next[text] == v;
          NotVia(prefix, j, tokens, i, text, v, result[text]);
        } else {
          assert PrintsVia(prefix, j, tokens, i + 1, text, v);
        }
      }
      forall text | text in result
        ensures (text in acc && result[text] == acc[text]) || PrintsVia(prefix, j, tokens, i, text, result[text])
      {
        if !PrintsVia(prefix, j, tokens, i + 1, text, result[text]) {
          assert text in next && result[text] == next[text];
        }
      }
    }
  }

  lemma NotVia(prefix: Path, j: Json, tokens: seq<Text>, i: nat, text: Text, v: Json, w: Json)
    requires forall t | t in tokens :: HasChild(j, t)
    requires forall a, b :: 0 <= a < |tokens| && 0 <= b < |tokens| && a != b ==> tokens[a] != tokens[b]
    requires i < |tokens| && PrintsLeaf(prefix + [tokens[i]], ChildAt(j, tokens[i]), text, v)
    ensures !PrintsVia(prefix, j, tokens, i + 1, text, w)
  {
    forall n | i + 1 <= n < |tokens| ensures !PrintsLeaf(prefix + [tokens[n]], ChildAt(j, tokens[n]), text, w) {
      if PrintsLeaf(prefix + [tokens[n]], ChildAt(j, tokens[n]), text, w) {
        SiblingLeaves(prefix, tokens[i], tokens[n], ChildAt(j, tokens[i]), ChildAt(j, tokens[n]), text, v, w);
      }
    }
  }

  // ----- the sorted list of entries

  ghost predicate Ordered(l: seq<Leaf>) {
    forall a, b :: 0 <= a < b < |l| ==> Less(P.Print(l[a].path), P.Print(l[b].path))
  }

  /** The entries of `j` in the order of their pointer texts. */
  ghost predicate LeafList(j: Json, l: seq<Leaf>) {
    && Ordered(l)
    && (forall i :: 0 <= i < |l| ==> IsLeaf(j, l[i].path, l[i].value))
    && (forall p, v :: IsLeaf(j, p, v) ==> Leaf(p, v) in l)
  }

  /** Storing the entries of a list one after the other. */
  function Build(node: Json, l: seq<Leaf>): Result<Json>
    decreases |l|
  {
    if l == [] then Ok(node)
    else
      var next :- Store(node, l[0].path, l[0].value);
      Build(next, l[1..])
  }

  ghost function LeavesOf(m: map<Text, Json>, ks: seq<Text>): seq<Leaf>
    requires forall k | k in ks :: k in m && P.Split(k).Ok?
  {
    seq(|ks|, i requires 0 <= i < |ks| => assert ks[i] in ks; Leaf(P.Split(ks[i]).value, m[ks[i]]))
  }

  lemma {:induction false} StoreAllBuild(acc: Json, m: map<Text, Json>, ks: seq<Text>, i: nat)
    requires i <= |ks| && forall k | k in ks :: k in m && P.Split(k).Ok? && IsPrimitive(m[k])
    ensures StoreAll(acc, m, ks, i) == Build(acc, LeavesOf(m, ks)[i..])
    decreases |ks| - i
  {
    if i < |ks| {
      var l := LeavesOf(m, ks);
      assert ks[i] in ks;
      assert l[i..][1..] == l[i + 1..];
      var next := Store(acc, l[i].path, l[i].value);
      if next.Ok? { StoreAllBuild(next.value, m, ks, i + 1); }
    }
  }

  lemma {:induction false} LeafPrimitive(j: Json, p: Path, v: Json)
    requires IsLeaf(j, p, v)
    ensures IsPrimitive(v)
    decreases |p|
  {
    if !IsFlat(j) { LeafPrimitive(ChildAt(j, p[0]), p[1..], v); }
  }

  /** A key of a flattened object is the printed path of an entry. */
  lemma EntryKey(j: Json, k: Text)
    requires k in FlattenInto([], j, map[])
    ensures var v := FlattenInto([], j, map[])[k];
            P.Split(k).Ok? && P.Print(P.Split(k).value) == k && IsLeaf(j, P.Split(k).value, v) && IsPrimitive(v)
  {
    hide FlattenInto, P.Split;
    var m := FlattenInto([], j, map[]);
    assert P.Print([]) == [];
    FlattenAdds([], j, map[]);
    assert PrintsLeaf([], j, k, m[k]);
    var p: Path :| k == P.Print([] + p) && IsLeaf(j, p, m[k]);
    assert [] + p == p;
    P.SplitPrint(p);
    LeafPrimitive(j, p, m[k]);
  }

  lemma LeafEntry(j: Json, p: Path, v: Json)
    requires IsLeaf(j, p, v)
    ensures var m := FlattenInto([], j, map[]); P.Print(p) in m && m[P.Print(p)] == v
  {
    FlattenAdds([], j, map[]);
    assert [] + p == p;
    assert PrintsLeaf([], j, P.Print(p), v);
  }

  /** Unflattening a flattened value stores its entries in the order of their texts. */
  lemma FlattenedLeaves(j: Json) returns (l: seq<Leaf>)
    ensures LeafList(j, l)
    ensures UnflattenResult(FlattenResult(j)) == Build(Null, l)
  {
    hide P.Print, P.Split, FlattenInto, IsLeaf, Less, SortedKeys;
    var m := FlattenInto([], j, map[]);
    var ks := SortedKeys(m.Keys);
    forall k | k in ks ensures k in m && P.Split(k).Ok? && IsPrimitive(m[k]) {
      EntryKey(j, k);
    }
    l := LeavesOf(m, ks);
    StoreAllBuild(Null, m, ks, 0);
    assert l[0..] == l;
    forall i | 0 <= i < |l| ensures IsLeaf(j, l[i].path, l[i].value) && P.Print(l[i].path) == ks[i] {
      assert ks[i] in ks;
      EntryKey(j, ks[i]);
    }
    forall p, v | IsLeaf(j, p, v) ensures Leaf(p, v) in l {
      LeafEntry(j, p, v);
      LeafListed(m, ks, p);
    }
  }

  lemma LeafListed(m: map<Text, Json>, ks: seq<Text>, p: Path)
    requires (forall k | k in ks :: k in m && P.Split(k).Ok? && IsPrimitive(m[k])) && P.Print(p) in ks
    ensures Leaf(p, m[P.Print(p)]) in LeavesOf(m, ks)
  {
    hide P.Print, P.Split;
    var i :| 0 <= i < |ks| && ks[i] == P.Print(p);
    P.SplitPrint(p);
    assert LeavesOf(m, ks)[i] == Leaf(p, m[P.Print(p)]);
  }

  // ----- the entries below one child

  /** The entries of the list below the child at `token`, with that token removed. */
  function Below(l: seq<Leaf>, token: Text): seq<Leaf> {
    if l == [] then []
    else if l[0].path != [] && l[0].path[0] == token then
      [Leaf(l[0].path[1..], l[0].value)] + Below(l[1..], token)
    else Below(l[1..], token)
  }

  lemma {:induction false} BelowMember(l: seq<Leaf>, token: Text, p: Path, v: Json)
    ensures Leaf(p, v) in Below(l, token) <==> Leaf([token] + p, v) in l
  {
    if l != [] {
      BelowMember(l[1..], token, p, v);
      var e := l[0];
      assert ([token] + p)[1..] == p;
      if e.path != [] && e.path[0] == token {
        assert [token] + e.path[1..] == e.path;
        var b := Below(l[1..], token);
        assert Below(l, token) == [Leaf(e.path[1..], e.value)] + b;
        assert e == Leaf([token] + p, v) <==> Leaf(e.path[1..], e.value) == Leaf(p, v);
      }
      assert l == [e] + l[1..];
    }
  }

  lemma PrintBelow(token: Text, p: Path, q: Path)
    ensures Less(P.Print([token] + p), P.Print([token] + q)) == Less(P.Print(p), P.Print(q))
  {
    P.PrintCons(token, p);
    P.PrintCons(token, q);
    LessPrefix([P.SLASH] + P.Escape(token), P.Print(p), P.Print(q));
  }

  lemma {:induction false} BelowOrdered(l: seq<Leaf>, token: Text)
    requires Ordered(l)
    ensures Ordered(Below(l, token))
  {
    hide P.Print, Less;
    if l != [] {
      var b := Below(l[1..], token);
      BelowOrdered(l[1..], token);
      if l[0].path != [] && l[0].path[0] == token {
        var first := l[0].path[1..];
        forall i | 0 <= i < |b| ensures Less(P.Print(first), P.Print(b[i].path)) {
          assert b[i] in b;
          BelowMember(l[1..], token, b[i].path, b[i].value);
          var n :| 0 <= n < |l[1..]| && l[1..][n] == Leaf([token] + b[i].path, b[i].value);
          assert l[n + 1] == l[1..][n];
          assert [token] + first == l[0].path;
          PrintBelow(token, first, b[i].path);
        }
      }
    }
  }

  lemma BelowLeafList(j: Json, l: seq<Leaf>, token: Text)
    requires LeafList(j, l) && !IsFlat(j) && HasChild(j, token)
    ensures LeafList(ChildAt(j, token), Below(l, token)) && Below(l, token) != []
  {
    hide P.Print, Below, ChildAt, IsLeaf;
    var b, child := Below(l, token), ChildAt(j, token);
    BelowOrdered(l, token);
    forall i | 0 <= i < |b| ensures IsLeaf(child, b[i].path, b[i].value) {
      assert b[i] in b;
      BelowMember(l, token, b[i].path, b[i].value);
      LeafInChild(j, token, b[i].path, b[i].value);
    }
    forall p, v | IsLeaf(child, p, v) ensures Leaf(p, v) in b {
      LeafInChild(j, token, p, v);
      BelowMember(l, token, p, v);
    }
    var p, v := SomeLeaf(child);
    assert Leaf(p, v) in b;
  }

  // ----- what is built at a child depends on the entries below it

  function ElementOrNull(es: seq<Json>, i: nat): Json {
    if i < |es| then es[i] else Null
  }

  /** Building the array `es` from `cur`, element by element. */
  ghost predicate ElementsBuilt(cur: seq<Json>, es: seq<Json>, l: seq<Leaf>) {
    forall i: nat :: i < |es| ==> Build(ElementOrNull(cur, i), Below(l, Decimal(i))) == Ok(es[i])
  }

  ghost predicate IndexPaths(l: seq<Leaf>, n: nat) {
    forall e | e in l :: e.path != [] && exists i: nat :: i < n && e.path[0] == Decimal(i)
  }

  lemma StoreElement(cur: seq<Json>, path: Path, v: Json, n: nat)
    requires path != [] && path[0] == Decimal(n) && n <= INT_MAX
    ensures var x := Store(ElementOrNull(cur, n), path[1..], v);
            Store(Array(cur), path, v) == if x.Err? then x else Ok(Array((cur + Nulls(n + 1 - |cur|))[n := x.value]))
  {
    StoiDecimal(n);
    assert (cur + Nulls(n + 1 - |cur|))[n] == ElementOrNull(cur, n);
  }

  lemma NothingLeft(cur: seq<Json>, es: seq<Json>)
    requires |cur| <= |es|
    requires forall i: nat :: |cur| <= i < |es| ==> Below([], Decimal(i)) != []
    ensures cur == es <==> ElementsBuilt(cur, es, [])
  {
    assert Below([], Decimal(|cur|)) == [];
    if ElementsBuilt(cur, es, []) {
      forall i: nat | i < |es| ensures cur[i] == es[i] { assert Build(ElementOrNull(cur, i), Below([], Decimal(i))) == Ok(es[i]); }
    }
  }

  lemma {:induction false} BuildArray(cur: seq<Json>, es: seq<Json>, l: seq<Leaf>)
    requires |cur| <= |es| <= INT_MAX + 1 && IndexPaths(l, |es|)
    requires forall i: nat :: |cur| <= i < |es| ==> Below(l, Decimal(i)) != []
    ensures Build(Array(cur), l) == Ok(Array(es)) <==> ElementsBuilt(cur, es, l)
    decreases |l|
  {
    hide Store, Decimal;
    if l == [] {
      NothingLeft(cur, es);
    } else {
      var e := l[0];
      assert e in l;
      var n: nat :| n < |es| && e.path[0] == Decimal(n);
      StoreElement(cur, e.path, e.value, n);
      var x := Store(ElementOrNull(cur, n), e.path[1..], e.value);
      if x.Err? {
        assert Build(ElementOrNull(cur, n), Below(l, Decimal(n))).Err?;
      } else {
        var next := (cur + Nulls(n + 1 - |cur|))[n := x.value];
        StepElements(cur, next, es, l, n, x.value);
        BuildArray(next, es, l[1..]);
      }
    }
  }

  lemma StepElements(cur: seq<Json>, next: seq<Json>, es: seq<Json>, l: seq<Leaf>, n: nat, x: Json)
    requires |cur| <= |es| && l != [] && IndexPaths(l, |es|) && n < |es| && l[0].path[0] == Decimal(n)
    requires Store(ElementOrNull(cur, n), l[0].path[1..], l[0].value) == Ok(x)
    requires next == (cur + Nulls(n + 1 - |cur|))[n := x]
    requires forall i: nat :: |cur| <= i < |es| ==> Below(l, Decimal(i)) != []
    ensures ElementsBuilt(cur, es, l) <==> ElementsBuilt(next, es, l[1..])
    ensures |next| <= |es| && IndexPaths(l[1..], |es|)
    ensures forall i: nat :: |next| <= i < |es| ==> Below(l[1..], Decimal(i)) != []
  {
    hide Store;
    forall i: nat | i < |es|
      ensures Build(ElementOrNull(cur, i), Below(l, Decimal(i))) == Build(ElementOrNull(next, i), Below(l[1..], Decimal(i)))
      ensures |next| <= i ==> Below(l[1..], Decimal(i)) != []
    {
      if i == n {
        assert Below(l, Decimal(n))[1..] == Below(l[1..], Decimal(n));
      } else if Decimal(i) == Decimal(n) {
        DecimalInjective(i, n);
      }
    }
  }

  function MemberOrNull(m: map<Text, Json>, k: Text): Json {
    if k in m then m[k] else Null
  }

  /** Building the object `m` from `cur`, member by member. */
  ghost predicate MembersBuilt(cur: map<Text, Json>, m: map<Text, Json>, l: seq<Leaf>) {
    forall k :: k in m ==> Build(MemberOrNull(cur, k), Below(l, k)) == Ok(m[k])
  }

  ghost predicate KeyPaths(l: seq<Leaf>, m: map<Text, Json>) {
    forall e | e in l :: e.path != [] && e.path[0] in m
  }

  lemma {:induction false} BuildObject(cur: map<Text, Json>, m: map<Text, Json>, l: seq<Leaf>)
    requires cur.Keys <= m.Keys && KeyPaths(l, m)
    requires forall k :: k in m && k !in cur ==> Below(l, k) != []
    ensures Build(Object(cur), l) == Ok(Object(m)) <==> MembersBuilt(cur, m, l)
    decreases |l|
  {
    if l == [] {
      if MembersBuilt(cur, m, l) {
        forall k | k in m ensures k in cur && cur[k] == m[k] { assert Below(l, k) == []; }
        assert cur == m;
      }
    } else {
      var e := l[0];
      assert e in l;
      var key := e.path[0];
      var x := Store(MemberOrNull(cur, key), e.path[1..], e.value);
      if x.Err? {
        assert Build(MemberOrNull(cur, key), Below(l, key)).Err?;
      } else {
        StepMembers(cur, m, l, key, x.value);
        BuildObject(cur[key := x.value], m, l[1..]);
      }
    }
  }

  lemma StepMembers(cur: map<Text, Json>, m: map<Text, Json>, l: seq<Leaf>, key: Text, x: Json)
    requires cur.Keys <= m.Keys && l != [] && KeyPaths(l, m)
    requires l[0].path != [] && l[0].path[0] == key && key in m
    requires Store(MemberOrNull(cur, key), l[0].path[1..], l[0].value) == Ok(x)
    requires forall k :: k in m && k !in cur ==> Below(l, k) != []
    ensures MembersBuilt(cur, m, l) <==> MembersBuilt(cur[key := x], m, l[1..])
    ensures KeyPaths(l[1..], m)
    ensures forall k :: k in m && k !in cur[key := x] ==> Below(l[1..], k) != []
  {
    hide Store;
    var next := cur[key := x];
    forall k | k in m
      ensures Build(MemberOrNull(cur, k), Below(l, k)) == Build(MemberOrNull(next, k), Below(l[1..], k))
      ensures k !in next ==> Below(l[1..], k) != []
    {
      if k == key { assert Below(l, key)[1..] == Below(l[1..], key); }
    }
  }

  // ----- the first entry decides what a node becomes

  lemma {:induction false} ArrayStaysArray(cur: seq<Json>, l: seq<Leaf>)
    requires forall e | e in l :: e.path != []
    ensures Build(Array(cur), l).Ok? ==> Build(Array(cur), l).value.Array?
    decreases |l|
  {
    if l != [] {
      assert l[0] in l;
      var next := Store(Array(cur), l[0].path, l[0].value);
      if next.Ok? { ArrayStaysArray(next.value.elems, l[1..]); }
    }
  }

  lemma {:induction false} BadIndexFails(cur: seq<Json>, l: seq<Leaf>, e: Leaf)
    requires forall f | f in l :: f.path != []
    requires e in l && Stoi(e.path[0]).Err?
    ensures Build(Array(cur), l).Err?
    decreases |l|
  {
    assert l[0] in l;
    var next := Store(Array(cur), l[0].path, l[0].value);
    if l[0] != e && next.Ok? { BadIndexFails(next.value.elems, l[1..], e); }
  }

  lemma FirstStore(l: seq<Leaf>)
    requires l != [] && l[0].path != []
    ensures Build(Null, l) == Build(if l[0].path[0] == ZERO_TOKEN then Array([]) else Object(map[]), l)
  {
    var e := l[0];
    assert e.path[0] == ZERO_TOKEN ==> Stoi(e.path[0]) == Ok(0) by { StoiDecimal(0); }
    assert [] + Nulls(1) == [Null];
    var x := Store(Null, e.path[1..], e.value);
    if x.Ok? { assert [Null][0 := x.value] == [x.value]; }
  }

  /** Comparing two texts whose first parts differ and contain no '/', each continued by
      nothing or by a '/'. */
  lemma {:induction false} LessUpToSlash(e: Text, x: Text, f: Text, y: Text)
    requires e != f && P.NoSlash(e) && P.NoSlash(f)
    requires (x == [] || x[0] == P.SLASH) && (y == [] || y[0] == P.SLASH)
    ensures Less(e + x, f + y) ==
            Less(e + (if x == [] then [] else [P.SLASH]), f + (if y == [] then [] else [P.SLASH]))
  {
    var x', y' := if x == [] then [] else [P.SLASH], if y == [] then [] else [P.SLASH];
    if e != [] && f != [] && e[0] == f[0] {
      assert (e + x)[1..] == e[1..] + x && (f + y)[1..] == f[1..] + y;
      assert (e + x')[1..] == e[1..] + x' && (f + y')[1..] == f[1..] + y';
      assert e == [e[0]] + e[1..] && f == [f[0]] + f[1..];
      LessUpToSlash(e[1..], x, f[1..], y);
    }
  }

  lemma LeafText(j: Json, p: Path, v: Json)
    requires IsLeaf(j, p, v)
    ensures if IsFlat(j) then P.Print(p) == [] else P.Print(p) != [] && P.Print(p)[0] == P.SLASH
  {
    if p != [] {
      P.PrintCons(p[0], p[1..]);
      assert [p[0]] + p[1..] == p;
    }
  }

  lemma SiblingOrder(m: map<Text, Json>, a: Text, p: Path, v: Json, b: Text, q: Path, w: Json)
    requires a in m && b in m && a != b && IsLeaf(m[a], p, v) && IsLeaf(m[b], q, w)
    ensures Less(P.Print([a] + p), P.Print([b] + q)) == Less(Head(m, a), Head(m, b))
  {
    hide IsLeaf;
    LeafText(m[a], p, v);
    LeafText(m[b], q, w);
    P.PrintCons(a, p);
    P.PrintCons(b, q);
    P.EscapeShape(a);
    P.EscapeShape(b);
    if P.Escape(a) == P.Escape(b) {
      P.UnescapeEscape(a);
      P.UnescapeEscape(b);
    }
    var x, y := P.Escape(a) + P.Print(p), P.Escape(b) + P.Print(q);
    LessUpToSlash(P.Escape(a), P.Print(p), P.Escape(b), P.Print(q));
    assert P.Print([a] + p) == [P.SLASH] + x && P.Print([b] + q) == [P.SLASH] + y;
    LessPrefix([P.SLASH], x, y);
  }

  // ----- the theorem

  lemma {:induction false} BuildIffFlattenable(j: Json, l: seq<Leaf>)
    requires LeafList(j, l)
    ensures Build(Null, l) == Ok(j) <==> Flattenable(j)
    decreases j, 1
  {
    hide P.Print, Less;
    if IsFlat(j) {
      var v := if IsPrimitive(j) then j else Null;
      assert IsLeaf(j, [], v);
      assert forall i :: 0 <= i < |l| ==> l[i] == Leaf([], v);
      SingleEntry(l, v);
    } else if j.Array? {
      BuildArrayIff(j, l);
    } else {
      BuildObjectIff(j, l);
    }
  }

  lemma {:induction false} SingleEntry(l: seq<Leaf>, v: Json)
    requires l != [] && forall i :: 0 <= i < |l| ==> l[i] == Leaf([], v)
    ensures Build(Null, l) == Ok(v)
  {
    BuildConstant(Null, l, v);
  }

  lemma {:induction false} BuildConstant(node: Json, l: seq<Leaf>, v: Json)
    requires forall i :: 0 <= i < |l| ==> l[i] == Leaf([], v)
    ensures Build(node, l) == if l == [] then Ok(node) else Ok(v)
    decreases |l|
  {
    if l != [] { BuildConstant(v, l[1..], v); }
  }

  lemma ChildPaths(j: Json, l: seq<Leaf>)
    requires LeafList(j, l) && !IsFlat(j)
    ensures l != [] && forall e | e in l :: e.path != [] && HasChild(j, e.path[0])
  {
    hide P.Print, Less;
    var p, v := SomeLeaf(j);
    assert Leaf(p, v) in l;
    forall e | e in l ensures e.path != [] && HasChild(j, e.path[0]) {
      var i :| 0 <= i < |l| && l[i] == e;
      assert IsLeaf(j, e.path, e.value);
    }
  }

  /** Index 0 comes first: no other index begins with the digit 0. */
  lemma ZeroIndexFirst(j: Json, l: seq<Leaf>)
    requires LeafList(j, l) && j.Array? && j.elems != []
    ensures l != [] && l[0].path != [] && l[0].path[0] == ZERO_TOKEN
  {
    ChildPaths(j, l);
    var e := l[0];
    assert e in l;
    var n :| 0 <= n < |j.elems| && Decimal(n) == e.path[0];
    if n != 0 {
      ChildAtIndex(j, 0);
      BelowLeafList(j, l, Decimal(0));
      var b := Below(l, Decimal(0))[0];
      assert b in Below(l, Decimal(0));
      BelowMember(l, Decimal(0), b.path, b.value);
      var i :| 0 <= i < |l| && l[i] == Leaf([Decimal(0)] + b.path, b.value);
      assert [e.path[0]] + e.path[1..] == e.path;
      IndexOrder(n, e.path[1..], b.path);
    }
  }

  lemma IndexOrder(n: nat, p: Path, q: Path)
    requires n != 0
    ensures Less(P.Print([Decimal(0)] + q), P.Print([Decimal(n)] + p))
    ensures !Less(P.Print([Decimal(n)] + p), P.Print([Decimal(0)] + q))
  {
    P.PrintCons(Decimal(0), q);
    P.PrintCons(Decimal(n), p);
    P.EscapeDigits(Decimal(0));
    P.EscapeDigits(Decimal(n));
    var x, y := Decimal(0) + P.Print(q), Decimal(n) + P.Print(p);
    assert P.Print([Decimal(0)] + q) == [P.SLASH] + x && P.Print([Decimal(n)] + p) == [P.SLASH] + y;
    LessPrefix([P.SLASH], x, y);
    LessPrefix([P.SLASH], y, x);
  }

  /** An array beyond the range of `std::stoi` cannot be built. */
  lemma IndexLimit(j: Json, l: seq<Leaf>)
    requires LeafList(j, l) && j.Array? && j.elems != []
    ensures |j.elems| > INT_MAX + 1 ==> Build(Null, l).Err?
  {
    hide P.Print, Less, Build, Below, Store, IsLeaf, Decimal;
    ChildPaths(j, l);
    ZeroIndexFirst(j, l);
    FirstStore(l);
    if |j.elems| > INT_MAX + 1 {
      ChildAtIndex(j, INT_MAX + 1);
      BelowLeafList(j, l, Decimal(INT_MAX + 1));
      var b := Below(l, Decimal(INT_MAX + 1))[0];
      assert b in Below(l, Decimal(INT_MAX + 1));
      BelowMember(l, Decimal(INT_MAX + 1), b.path, b.value);
      StoiDecimal(INT_MAX + 1);
      BadIndexFails([], l, Leaf([Decimal(INT_MAX + 1)] + b.path, b.value));
    }
  }

  lemma {:induction false} BuildArrayIff(j: Json, l: seq<Leaf>)
    requires LeafList(j, l) && j.Array? && j.elems != []
    ensures Build(Null, l) == Ok(j) <==> Flattenable(j)
    decreases j, 0
  {
    hide P.Print, Less, Build, Below, Store, IsLeaf, Decimal;
    var es := j.elems;
    ChildPaths(j, l);
    ZeroIndexFirst(j, l);
    FirstStore(l);
    IndexLimit(j, l);
    if |es| > INT_MAX + 1 {
    } else {
      forall i: nat | i < |es|
        ensures Below(l, Decimal(i)) != []
        ensures Build(Null, Below(l, Decimal(i))) == Ok(es[i]) <==> Flattenable(es[i])
      {
        ChildAtIndex(j, i);
        BelowLeafList(j, l, Decimal(i));
        BuildIffFlattenable(es[i], Below(l, Decimal(i)));
      }
      forall e | e in l ensures exists i: nat :: i < |es| && e.path[0] == Decimal(i) {
        assert HasChild(j, e.path[0]);
      }
      BuildArray([], es, l);
    }
  }

  lemma ZeroFirstIsFirst(j: Json, l: seq<Leaf>)
    requires LeafList(j, l) && j.Object? && j.members != map[]
    ensures l != [] && l[0].path != [] && (l[0].path[0] == ZERO_TOKEN <==> ZeroFirst(j.members))
  {
    hide P.Print, Less, Below, IsLeaf, Head;
    var m := j.members;
    ChildPaths(j, l);
    var e := l[0];
    assert e in l;
    var key := e.path[0];
    assert [key] + e.path[1..] == e.path;
    LeafInChild(j, key, e.path[1..], e.value);
    forall k | k in m && k != key ensures Less(Head(m, key), Head(m, k)) && !Less(Head(m, k), Head(m, key)) {
      BelowLeafList(j, l, k);
      var b := Below(l, k)[0];
      assert b in Below(l, k);
      BelowMember(l, k, b.path, b.value);
      LeafInChild(j, k, b.path, b.value);
      var i :| 0 <= i < |l| && l[i] == Leaf([k] + b.path, b.value);
      SiblingOrder(m, key, e.path[1..], e.value, k, b.path, b.value);
      assert Less(P.Print(e.path), P.Print(l[i].path));
      LessAsymmetric(Head(m, key), Head(m, k));
    }
    if key == ZERO_TOKEN { LessIrreflexive(Head(m, key)); }
  }

  lemma LessAsymmetric(a: Text, b: Text)
    requires Less(a, b)
    ensures !Less(b, a)
  {
    LessIrreflexive(a);
    if Less(b, a) { LessTransitive(a, b, a); }
  }

  lemma {:induction false} BuildObjectIff(j: Json, l: seq<Leaf>)
    requires LeafList(j, l) && j.Object? && j.members != map[]
    ensures Build(Null, l) == Ok(j) <==> Flattenable(j)
    decreases j, 0
  {
    hide P.Print, Less, Build, Below, Store, IsLeaf, ZeroFirst;
    var m := j.members;
    ChildPaths(j, l);
    ZeroFirstIsFirst(j, l);
    FirstStore(l);
    if ZeroFirst(m) {
      ArrayStaysArray([], l);
    } else {
      forall k | k in m
        ensures Below(l, k) != []
        ensures Build(Null, Below(l, k)) == Ok(m[k]) <==> Flattenable(m[k])
      {
        BelowLeafList(j, l, k);
        BuildIffFlattenable(m[k], Below(l, k));
      }
      BuildObject(map[], m, l);
    }
  }

  /** A value built from the entries of `j` that equals `j` is the one built on the way to
      `j` itself, so `j` is flattenable. */
  lemma {:induction false} EqualBuild(j: Json, l: seq<Leaf>, r: Json)
    requires LeafList(j, l) && Build(Null, l) == Ok(r) && Equals(r, j)
    ensures Flattenable(j)
    decreases j, 1
  {
    hide P.Print, Less;
    if IsFlat(j) {
      var v := if IsPrimitive(j) then j else Null;
      assert IsLeaf(j, [], v);
      assert forall i :: 0 <= i < |l| ==> l[i] == Leaf([], v);
      SingleEntry(l, v);
    } else if j.Array? {
      EqualArray(j, l, r);
    } else {
      EqualObject(j, l, r);
    }
  }

  lemma {:induction false} EqualArray(j: Json, l: seq<Leaf>, r: Json)
    requires LeafList(j, l) && j.Array? && j.elems != [] && Build(Null, l) == Ok(r) && Equals(r, j)
    ensures Flattenable(j)
    decreases j, 0
  {
    hide P.Print, Less, Build, Below, Store, IsLeaf, Decimal;
    var es, rs := j.elems, r.elems;
    ChildPaths(j, l);
    ZeroIndexFirst(j, l);
    FirstStore(l);
    IndexLimit(j, l);
    forall i: nat | i < |es| ensures HasChild(j, Decimal(i)) && ChildAt(j, Decimal(i)) == es[i] { ChildAtIndex(j, i); }
    forall i: nat | i < |es| ensures Below(l, Decimal(i)) != [] { BelowLeafList(j, l, Decimal(i)); }
    forall e | e in l ensures exists i: nat :: i < |es| && e.path[0] == Decimal(i) {
      assert HasChild(j, e.path[0]);
    }
    BuildArray([], rs, l);
    forall i: nat | i < |es| ensures Flattenable(es[i]) {
      BelowLeafList(j, l, Decimal(i));
      assert Build(ElementOrNull([], i), Below(l, Decimal(i))) == Ok(rs[i]);
      EqualBuild(es[i], Below(l, Decimal(i)), rs[i]);
    }
  }

  lemma {:induction false} EqualObject(j: Json, l: seq<Leaf>, r: Json)
    requires LeafList(j, l) && j.Object? && j.members != map[] && Build(Null, l) == Ok(r) && Equals(r, j)
    ensures Flattenable(j)
    decreases j, 0
  {
    hide P.Print, Less, Build, Below, Store, IsLeaf, ZeroFirst;
    var m, rm := j.members, r.members;
    ChildPaths(j, l);
    ZeroFirstIsFirst(j, l);
    FirstStore(l);
    if ZeroFirst(m) { ArrayStaysArray([], l); }
    forall k | k in m ensures Below(l, k) != [] { BelowLeafList(j, l, k); }
    BuildObject(map[], rm, l);
    forall k | k in m ensures Flattenable(m[k]) {
      BelowLeafList(j, l, k);
      assert Build(MemberOrNull(map[], k), Below(l, k)) == Ok(rm[k]);
      EqualBuild(m[k], Below(l, k), rm[k]);
    }
  }

  /** The documented promise is `j == j.flatten().unflatten()` for every value without an
      empty array or object. It holds exactly for the flattenable values without a NaN; the
      flattenable ones come back identical. */
  lemma UnflattenFlatten(j: Json)
    ensures UnflattenResult(FlattenResult(j)) == Ok(j) <==> Flattenable(j)
    ensures var r := UnflattenResult(FlattenResult(j));
      r.Ok? && Equals(r.value, j) <==> Flattenable(j) && NaNFree(j)
  {
    hide P.Print, Less, Build, FlattenInto, StoreAll, Equals, NaNFree, Flattenable, LeafList, UnflattenResult;
    var l := FlattenedLeaves(j);
    BuildIffFlattenable(j, l);
    EqualsReflexive(j);
    var r := UnflattenResult(FlattenResult(j));
    if r.Ok? && Equals(r.value, j) {
      EqualBuild(j, l, r.value);
      EqualsNaNFree(r.value, j);
    }
  }

  /** No empty array or object, no key "0", and arrays of at most 2^31 elements. */
  predicate Plain(j: Json) {
    match j
    case Array(es) => es != [] && |es| <= INT_MAX + 1 && forall i :: 0 <= i < |es| ==> Plain(es[i])
    case Object(m) => m != map[] && ZERO_TOKEN !in m && forall k :: k in m ==> Plain(m[k])
    case _ => true
  }

  lemma {:induction false} PlainFlattenable(j: Json)
    requires Plain(j)
    ensures Flattenable(j) && UnflattenResult(FlattenResult(j)) == Ok(j)
  {
    UnflattenFlatten(j);
    match j
    case Array(es) => forall i | 0 <= i < |es| ensures Flattenable(es[i]) { PlainFlattenable(es[i]); }
    case Object(m) => forall k | k in m ensures Flattenable(m[k]) { PlainFlattenable(m[k]); }
    case _ =>
  }

  lemma OneKey(s: set<Text>, k: Text)
    requires s == {k}
    ensures SortedKeys(s) == [k]
  {
    var r := SortedKeys(s);
    assert |s| == 1 && r[0] in s;
  }

  lemma FlattenZero(m: map<Text, Json>, key: Text)
    requires m == map[ZERO_TOKEN := Boolean(true)] && key == [P.SLASH] + ZERO_TOKEN
    ensures FlattenResult(Object(m)) == Object(map[key := Boolean(true)])
  {
    hide SortedKeys, P.Escape;
    assert ZERO_TOKEN in m && m.Keys == {ZERO_TOKEN};
    OneKey(m.Keys, ZERO_TOKEN);
    P.EscapeDigits(ZERO_TOKEN);
    assert [] + [P.SLASH] + ZERO_TOKEN == key;
    var j, flat := Object(m), map[key := Boolean(true)];
    assert FlattenInto(key, Boolean(true), map[]) == flat;
    assert FlattenMembers([], j, [ZERO_TOKEN], 1, flat) == flat;
    assert FlattenMembers([], j, [ZERO_TOKEN], 0, map[]) == flat;
    assert FlattenInto([], j, map[]) == flat;
  }

  lemma UnflattenZero(flat: map<Text, Json>, key: Text)
    requires flat == map[key := Boolean(true)] && key == [P.SLASH] + ZERO_TOKEN
    ensures UnflattenResult(Object(flat)) == Ok(Array([Boolean(true)]))
  {
    hide SortedKeys, P.Split, P.Print, P.Escape;
    assert flat.Keys == {key};
    OneKey(flat.Keys, key);
    P.EscapeDigits(ZERO_TOKEN);
    P.PrintCons(ZERO_TOKEN, []);
    P.PrintEmpty();
    assert [ZERO_TOKEN] + [] == [ZERO_TOKEN] && key + [] == key;
    P.SplitPrint([ZERO_TOKEN]);
    assert [ZERO_TOKEN][1..] == [];
    var r := Array([Boolean(true)]);
    assert Store(Null, [ZERO_TOKEN], Boolean(true)) == Ok(r);
    assert StoreEntry(Null, key, Boolean(true)) == Ok(r);
    assert StoreAll(r, flat, [key], 1) == Ok(r);
    assert StoreAll(Null, flat, [key], 0) == Ok(r);
  }

  /** The documented promise fails for {"0": true}: it comes back as [true]. */
  lemma UnflattenCounterexample()
    ensures var j := Object(map[ZERO_TOKEN := Boolean(true)]);
      UnflattenResult(FlattenResult(j)) == Ok(Array([Boolean(true)])) && !Equals(Array([Boolean(true)]), j)
  {
    hide FlattenResult, UnflattenResult;
    var key := [P.SLASH] + ZERO_TOKEN;
    FlattenZero(map[ZERO_TOKEN := Boolean(true)], key);
    UnflattenZero(map[key := Boolean(true)], key);
  }
}
