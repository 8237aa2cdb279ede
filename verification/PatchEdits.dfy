/**
 The operations add and remove of JSON Patch, element by element and member by member
 (sections 4.1 and 4.2 of RFC 6902).
 */
module PatchEdits {
  import opened Bytes
  import opened Results
  import opened Json
  import opened Patch
  import opened Diff
  import opened PatchLocality
  import P = Pointer

  /** `longer` is `es` with `v` put in before element number `i`. */
  predicate Inserted(es: seq<Json>, i: nat, v: Json, longer: seq<Json>) {
    && i <= |es| && |longer| == |es| + 1 && longer[i] == v
    && (forall k :: 0 <= k < i ==> longer[k] == es[k])
    && (forall k :: i <= k < |es| ==> longer[k + 1] == es[k])
  }

  /** `larger` is `m` with the member `key`, whose value is `v`. */
  predicate Given(m: map<Text, Json>, key: Text, v: Json, larger: map<Text, Json>) {
    && larger.Keys == m.Keys + {key} && larger[key] == v
    && forall k :: k in m && k != key ==> larger[k] == m[k]
  }

  /** The operation succeeded and only the value at `p` has changed, to `value`. */
  ghost predicate Becomes(d: Json, p: Path, r: Result<Json>, value: Json)
    requires Resolve(d, p).Ok?
  {
    && r.Ok? && Resolve(r.value, p) == Ok(value)
    && Put(r.value, p, Resolve(d, p).value) == d
  }

  lemma PutBecomes(d: Json, p: Path, value: Json)
    requires Resolve(d, p).Ok?
    ensures Becomes(d, p, PutResult(d, p, Ok(value)), value)
  {
    hide Resolve, Put;
    ResolvePut(d, p, value, Resolve(d, p).value);
    PutSame(d, p);
  }

  ghost function AddAtIndex(d: Json, p: Path, i: nat, v: Json): Result<Json> {
    Apply(d, AddOp(P.Print(p + [Decimal(i)]), v))
  }

  ghost function RemoveAtIndex(d: Json, p: Path, i: nat): Result<Json> {
    Apply(d, RemoveOp(P.Print(p + [Decimal(i)])))
  }

  // ----- arrays

  /** "add" at an index of an array moves the elements from there on up by one. */
  lemma AddElement(d: Json, p: Path, es: seq<Json>, i: nat, v: Json) returns (longer: seq<Json>)
    requires Resolve(d, p) == Ok(Array(es))
    ensures if i <= |es| && i <= INT_MAX then Becomes(d, p, AddAtIndex(d, p, i, v), Array(longer)) && Inserted(es, i, v, longer)
      else AddAtIndex(d, p, i, v) == Err(OutOfRange)
  {
    hide Becomes, Apply, Put, Stoi;
    ApplyAdd(d, p, Decimal(i), v);
    IndexToken(p, i);
    longer := if i <= |es| then es[..i] + [v] + es[i..] else [];
    PutBecomes(d, p, Array(longer));
  }

  lemma AppendElement(d: Json, p: Path, es: seq<Json>, v: Json) returns (longer: seq<Json>)
    requires Resolve(d, p) == Ok(Array(es))
    ensures Becomes(d, p, Apply(d, AddOp(P.Print(p + [DASH]), v)), Array(longer)) && Inserted(es, |es|, v, longer)
  {
    hide Becomes, Apply, Put, Stoi;
    ApplyAdd(d, p, DASH, v);
    longer := es + [v];
    PutBecomes(d, p, Array(longer));
  }

  /** "remove" at an index of an array moves the elements after it down by one. */
  lemma RemoveElement(d: Json, p: Path, es: seq<Json>, i: nat) returns (shorter: seq<Json>)
    requires Resolve(d, p) == Ok(Array(es))
    ensures if i < |es| && i <= INT_MAX
      then Becomes(d, p, RemoveAtIndex(d, p, i), Array(shorter)) && Inserted(shorter, i, es[i], es)
      else RemoveAtIndex(d, p, i) == Err(OutOfRange)
  {
    hide Becomes, Apply, Put, Stoi, Resolve, Inserted;
    ApplyRemove(d, p, Decimal(i));
    IndexToken(p, i);
    shorter := if i < |es| then es[..i] + es[i + 1..] else [];
    PutBecomes(d, p, Array(shorter));
    if i < |es| { WithoutOne(es, i); }
  }

  lemma WithoutOne(es: seq<Json>, i: nat)
    requires i < |es|
    ensures Inserted(es[..i] + es[i + 1..], i, es[i], es)
  {
  }

  lemma InsertedOnce(es: seq<Json>, i: nat, v: Json, a: seq<Json>, b: seq<Json>)
    ensures Inserted(es, i, v, a) && Inserted(es, i, v, b) ==> a == b
    ensures forall w :: Inserted(a, i, v, es) && Inserted(b, i, w, es) ==> a == b
  {
    if Inserted(es, i, v, a) && Inserted(es, i, v, b) {
      forall k | 0 <= k < |a| ensures a[k] == b[k] {
        assert k > i ==> a[k - 1 + 1] == es[k - 1] == b[k - 1 + 1];
      }
    }
    forall w | Inserted(a, i, v, es) && Inserted(b, i, w, es) ensures a == b {
      forall k | 0 <= k < |a| ensures a[k] == b[k] {
        assert k >= i ==> a[k] == es[k + 1] == b[k];
      }
    }
  }

  /** Two successive changes at one place that end with the value found there. */
  lemma BackAgain(d: Json, p: Path, r: Result<Json>, value: Json, back: Result<Json>)
    requires Resolve(d, p).Ok? && Becomes(d, p, r, value)
    requires Resolve(r.value, p).Ok? && Becomes(r.value, p, back, Resolve(d, p).value)
    ensures back == Ok(d)
  {
    hide Resolve, Put;
    var original := Resolve(d, p).value;
    ResolvePut(back.value, p, value, original);
    PutSame(back.value, p);
  }

  /** Adding an element and removing it again gives the document back. */
  lemma AddRemove(d: Json, p: Path, es: seq<Json>, i: nat, v: Json)
    requires Resolve(d, p) == Ok(Array(es)) && i <= |es| && i <= INT_MAX
    ensures AddAtIndex(d, p, i, v).Ok? && RemoveAtIndex(AddAtIndex(d, p, i, v).value, p, i) == Ok(d)
  {
    hide Resolve, Put, Inserted, AddAtIndex, RemoveAtIndex;
    var longer := AddElement(d, p, es, i, v);
    var added := AddAtIndex(d, p, i, v).value;
    assert i < |longer| && longer[i] == v by { InsertedLength(es, i, v, longer); }
    var shorter := RemoveElement(added, p, longer, i);
    InsertedOnce(longer, i, v, es, shorter);
    BackAgain(d, p, AddAtIndex(d, p, i, v), Array(longer), RemoveAtIndex(added, p, i));
  }

  lemma InsertedLength(es: seq<Json>, i: nat, v: Json, longer: seq<Json>)
    requires Inserted(es, i, v, longer)
    ensures i <= |es| && |longer| == |es| + 1 && longer[i] == v
  {
  }

  /** Removing an element and adding it again gives the document back. */
  lemma RemoveAdd(d: Json, p: Path, es: seq<Json>, i: nat)
    requires Resolve(d, p) == Ok(Array(es)) && i < |es| && i <= INT_MAX
    ensures RemoveAtIndex(d, p, i).Ok? && AddAtIndex(RemoveAtIndex(d, p, i).value, p, i, es[i]) == Ok(d)
  {
    hide Resolve, Put, Inserted, AddAtIndex, RemoveAtIndex;
    var shorter := RemoveElement(d, p, es, i);
    var removed := RemoveAtIndex(d, p, i).value;
    InsertedLength(shorter, i, es[i], es);
    var longer := AddElement(removed, p, shorter, i, es[i]);
    InsertedOnce(shorter, i, es[i], es, longer);
    BackAgain(d, p, RemoveAtIndex(d, p, i), Array(shorter), AddAtIndex(removed, p, i, es[i]));
  }

  // ----- objects

  lemma AddMember(d: Json, p: Path, m: map<Text, Json>, key: Text, v: Json) returns (larger: map<Text, Json>)
    requires Resolve(d, p) == Ok(Object(m))
    ensures Becomes(d, p, Apply(d, AddOp(P.Print(p + [key]), v)), Object(larger)) && Given(m, key, v, larger)
  {
    hide Becomes, Apply, Put;
    ApplyAdd(d, p, key, v);
    larger := m[key := v];
    PutBecomes(d, p, Object(larger));
  }

  /** "remove" takes away exactly the member with the key, and fails if there is none. */
  lemma RemoveMember(d: Json, p: Path, m: map<Text, Json>, key: Text) returns (smaller: map<Text, Json>)
    requires Resolve(d, p) == Ok(Object(m))
    ensures if key in m
      then Becomes(d, p, Apply(d, RemoveOp(P.Print(p + [key]))), Object(smaller)) &&
        key !in smaller && Given(smaller, key, m[key], m)
      else Apply(d, RemoveOp(P.Print(p + [key]))) == Err(OutOfRange)
  {
    hide Becomes, Apply, Put;
    ApplyRemove(d, p, key);
    smaller := m - {key};
    PutBecomes(d, p, Object(smaller));
  }

  // ----- other parents

  /** A primitive has no children: "add" makes an object of null and fails an assertion for
      the others, and "remove" does nothing. */
  lemma BelowPrimitive(d: Json, p: Path, token: Text, v: Json)
    requires Resolve(d, p).Ok? && IsPrimitive(Resolve(d, p).value)
    ensures Resolve(d, p).value.Null? ==> Becomes(d, p, Apply(d, AddOp(P.Print(p + [token]), v)), Object(map[token := v]))
    ensures !Resolve(d, p).value.Null? ==> Apply(d, AddOp(P.Print(p + [token]), v)) == Err(AssertionFailure)
    ensures Apply(d, RemoveOp(P.Print(p + [token]))) == Ok(d)
  {
    hide Becomes, Apply, Put, Resolve;
    ApplyAdd(d, p, token, v);
    ApplyRemove(d, p, token);
    PutBecomes(d, p, Object(map[token := v]));
    PutSame(d, p);
  }
}
