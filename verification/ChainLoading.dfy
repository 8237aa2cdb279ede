/**
 Saving any chain, whatever its indices, and loading any JSON value, written by the program
 or not: what is stored, which blocks are loaded, and when either succeeds.
 */
module ChainLoading {
  import opened Bytes
  import opened Chain
  import opened ChainFile
  import opened Json
  import opened Results
  import Rsa

  predicate HasText(j: Json, key: Text, text: Text) {
    j.Object? && key in j.members && j.members[key] == String(text)
  }

  predicate HasTexts(j: Json, key: Text, texts: seq<Text>) {
    j.Object? && key in j.members && j.members[key].Array? && |j.members[key].elems| == |texts| &&
    forall i :: 0 <= i < |texts| ==> j.members[key].elems[i] == String(texts[i])
  }

  /** An integer or a boolean that is `n` modulo 2^32. */
  predicate IsInt(j: Json, n: int) {
    match j
    case Unsigned(u) => (u - n) % 0x1_0000_0000 == 0
    case Integer(i) => (i - n) % 0x1_0000_0000 == 0
    case Boolean(b) => n == if b then 1 else 0
    case _ => false
  }

  predicate HasInt(j: Json, key: Text, n: int32) {
    j.Object? && key in j.members && IsInt(j.members[key], n)
  }

  /** Element number `a` of the stored data holds what `b` is made of. */
  predicate Stored(chain: Json, a: nat, b: Block) {
    chain.Object? && DATA in chain.members && chain.members[DATA].Array? && a < |chain.members[DATA].elems| &&
    HoldsBlock(chain.members[DATA].elems[a], b)
  }

  predicate HoldsBlock(j: Json, b: Block) {
    && HasInt(j, INDEX, b.index) && HasText(j, PREVIOUS_HASH, b.previousHash) && HasText(j, HASH, b.hash)
    && HasText(j, NONCE, b.nonce) && HasTexts(j, DATA, b.data) && HasText(j, SIGNATURE, b.signature)
    && HasText(j, HEADER, b.header)
  }

  /** Block `b` can be loaded as number `a`. */
  predicate Loadable(c: Context, chain: Json, verify: bool, a: nat, b: Block)
    requires c.keys.n > 0
  {
    Stored(chain, a, b) && (verify ==> Signed(c, b))
  }

  // ----- single fields

  lemma TextFieldIff(j: Json, key: Text, text: Text)
    ensures TextField(j, key) == Ok(text) <==> HasText(j, key, text)
  {
  }

  lemma TextsIff(j: Json, texts: seq<Text>)
    ensures GetTexts(j) == Ok(texts) <==>
      j.Array? && |j.elems| == |texts| && forall i :: 0 <= i < |texts| ==> j.elems[i] == String(texts[i])
  {
    if j.Array? && |j.elems| == |texts| && forall i :: 0 <= i < |texts| ==> j.elems[i] == String(texts[i]) {
      assert GetTexts(j).Ok?;
      assert GetTexts(j).value == texts;
    }
  }

  lemma TextsFieldIff(j: Json, key: Text, texts: seq<Text>)
    ensures Field(j, key).Ok? && GetTexts(Field(j, key).value) == Ok(texts) <==> HasTexts(j, key, texts)
  {
    if Field(j, key).Ok? { TextsIff(Field(j, key).value, texts); }
    hide GetTexts;
  }

  lemma Residue(x: int, n: int32)
    ensures ToInt32(x) == n <==> (x - n) % 0x1_0000_0000 == 0
  {
  }

  lemma GetIntIff(j: Json, n: int32)
    ensures GetInt(j) == Ok(n) <==> IsInt(j, n)
  {
    hide ToInt32;
    match j
    case Unsigned(u) => Residue(u, n);
    case Integer(i) => Residue(i, n);
    case _ =>
  }

  lemma IntFieldIff(j: Json, key: Text, n: int32)
    ensures Field(j, key).Ok? && GetInt(Field(j, key).value) == Ok(n) <==> HasInt(j, key, n)
  {
    if Field(j, key).Ok? { GetIntIff(Field(j, key).value, n); }
    hide GetInt;
  }

  // ----- blocks

  lemma ReadPartIff(j: Json, part: Part)
    ensures ReadPart(j) == Ok(part) <==>
      HasTexts(j, DATA, part.data) && HasText(j, HEADER, part.header) && HasText(j, SIGNATURE, part.signature) &&
      HasText(j, HASH, part.hash)
  {
    TextsFieldIff(j, DATA, part.data);
    TextFieldIff(j, HEADER, part.header);
    TextFieldIff(j, SIGNATURE, part.signature);
    TextFieldIff(j, HASH, part.hash);
    hide HasText, HasTexts, TextField, Field, GetTexts;
  }

  lemma ReadRestIff(j: Json, part: Part, b: Block)
    ensures ReadRest(j, part) == Ok(b) <==>
      HasInt(j, INDEX, b.index) && HasText(j, PREVIOUS_HASH, b.previousHash) && HasText(j, NONCE, b.nonce) &&
      part == Part(b.data, b.header, b.signature, b.hash)
  {
    IntFieldIff(j, INDEX, b.index);
    TextFieldIff(j, PREVIOUS_HASH, b.previousHash);
    TextFieldIff(j, NONCE, b.nonce);
    hide HasText, HasInt, TextField, Field, GetInt;
  }

  /** Null stands for everything that is missing, and no block can be read from it. */
  lemma BlockAtIff(chain: Json, a: nat, b: Block)
    ensures BlockAt(chain, a).Ok? && HoldsBlock(BlockAt(chain, a).value, b) <==> Stored(chain, a, b)
  {
  }

  lemma LoadBlockIff(c: Context, chain: Json, verify: bool, a: nat, b: Block)
    requires c.keys.n > 0
    ensures LoadBlock(c, chain, verify, a) == Ok(Some(b)) <==> Loadable(c, chain, verify, a, b)
  {
    BlockAtIff(chain, a, b);
    var part := Part(b.data, b.header, b.signature, b.hash);
    if BlockAt(chain, a).Ok? {
      var j := BlockAt(chain, a).value;
      ReadPartIff(j, part);
      if ReadPart(j).Ok? { ReadRestIff(j, ReadPart(j).value, b); }
    }
    hide BlockAt, ReadPart, ReadRest, Rsa.Accepts, HasText, HasTexts, HasInt, Stored;
  }

  // ----- the chain

  lemma {:induction false} LoadAny(c: Context, chain: Json, verify: bool, length: int, a: nat, done: seq<Block>)
    requires c.keys.n > 0 && |done| == a && (a <= length || a == 0)
    requires forall i :: 0 <= i < a ==> Loadable(c, chain, verify, i, done[i])
    ensures var r := Load(c, chain, verify, length, a, done);
      (forall i :: 0 <= i < |r.blocks| ==> Loadable(c, chain, verify, i, r.blocks[i])) &&
      |r.blocks| <= (if length > 0 then length else 0) &&
      (r.result == Ok(1) <==> |r.blocks| == if length > 0 then length else 0) &&
      (r.result != Ok(1) ==> forall b :: !Loadable(c, chain, verify, |r.blocks|, b))
    decreases length - a
  {
    hide LoadBlock, Loadable;
    if a < length {
      var block := LoadBlock(c, chain, verify, a);
      if block.Ok? && block.value.Some? {
        LoadBlockIff(c, chain, verify, a, block.value.value);
        LoadAny(c, chain, verify, length, a + 1, done + [block.value.value]);
      } else {
        forall b ensures !Loadable(c, chain, verify, a, b) {
          LoadBlockIff(c, chain, verify, a, b);
        }
      }
    }
  }

  /** For any value: the loaded blocks are those stored, in order, up to the first that
      cannot be loaded; the result is 1 exactly if they are as many as the length says. */
  lemma ReplaceAny(c: Context, chain: Json, verify: bool, n: int32)
    requires c.keys.n > 0
    ensures var r := Replace(c, chain, verify);
      forall i :: 0 <= i < |r.blocks| ==> Loadable(c, chain, verify, i, r.blocks[i])
    ensures var r := Replace(c, chain, verify); var length := if n > 0 then n else 0;
      HasInt(chain, LENGTH, n) ==>
        |r.blocks| <= length && (r.result == Ok(1) <==> |r.blocks| == length) &&
        (r.result != Ok(1) ==> forall b :: !Loadable(c, chain, verify, |r.blocks|, b))
    ensures (forall k: int32 :: !HasInt(chain, LENGTH, k)) ==>
      Replace(c, chain, verify).blocks == [] && Replace(c, chain, verify).result.Err?
  {
    var length := ChainLength(chain);
    IntFieldIff(chain, LENGTH, n);
    if length.Ok? {
      IntFieldIff(chain, LENGTH, length.value);
      hide HasInt, Load, Loadable, ChainLength;
      LoadAny(c, chain, verify, length.value, 0, []);
    }
  }

  // ----- saving

  /** None of the first `n` blocks after number `i` has its index. */
  predicate LastWithIndex(chain: seq<Block>, n: nat, i: nat)
    requires i < n <= |chain|
  {
    forall m :: i < m < n ==> chain[m].index != chain[i].index
  }

  predicate Unused(chain: seq<Block>, n: nat, k: nat)
    requires n <= |chain|
  {
    forall i :: 0 <= i < n ==> chain[i].index != k
  }

  predicate Reached(chain: seq<Block>, n: nat, size: nat)
    requires n <= |chain|
  {
    (forall i :: 0 <= i < n ==> 0 <= chain[i].index < size) && exists i :: 0 <= i < n && chain[i].index == size - 1
  }

  /** The array goes up to the largest index; each element is the last block with that
      index, or null if there is none. */
  predicate IsData(chain: seq<Block>, n: nat, es: seq<Json>)
    requires n <= |chain|
  {
    && Reached(chain, n, |es|)
    && (forall i :: 0 <= i < n && LastWithIndex(chain, n, i) ==> es[chain[i].index] == BlockJson(chain[i]))
    && (forall k :: 0 <= k < |es| && Unused(chain, n, k) ==> es[k] == Null)
  }

  /** `fs` is `es`, filled up with nulls as far as needed, with `x` at `index`. */
  predicate Updated(es: seq<Json>, index: int, x: Json, fs: seq<Json>)
    requires index >= 0
  {
    && |fs| == (if index < |es| then |es| else index + 1) && fs[index] == x
    && (forall k :: 0 <= k < |es| && k != index ==> fs[k] == es[k])
    && (forall k :: |es| <= k < |fs| && k != index ==> fs[k] == Null)
  }

  lemma AssignKeeps(es: seq<Json>, index: int32, x: Json)
    requires index >= 0
    ensures Assign(Array(es), index, x).Ok? && Assign(Array(es), index, x).value.Array?
    ensures Updated(es, index, x, Assign(Array(es), index, x).value.elems)
  {
  }

  lemma ReachedStep(chain: seq<Block>, n: nat, es: seq<Json>, fs: seq<Json>, x: Json)
    requires n < |chain| && chain[n].index >= 0 && Updated(es, chain[n].index, x, fs)
    requires if n == 0 then es == [] else Reached(chain, n, |es|)
    ensures Reached(chain, n + 1, |fs|)
  {
    if chain[n].index < |es| {
      var i :| 0 <= i < n && chain[i].index == |es| - 1;
      assert i < n + 1 && chain[i].index == |fs| - 1;
    } else {
      assert chain[n].index == |fs| - 1;
    }
  }

  lemma LastStep(chain: seq<Block>, n: nat, es: seq<Json>, fs: seq<Json>, i: nat)
    requires n < |chain| && chain[n].index >= 0 && Updated(es, chain[n].index, BlockJson(chain[n]), fs)
    requires n > 0 ==> IsData(chain, n, es)
    requires i < n + 1 && LastWithIndex(chain, n + 1, i) && 0 <= chain[i].index < |fs|
    ensures fs[chain[i].index] == BlockJson(chain[i])
  {
    hide BlockJson;
    if i < n {
      assert chain[n].index != chain[i].index;
      assert LastWithIndex(chain, n, i);
    }
  }

  lemma UnusedStep(chain: seq<Block>, n: nat, es: seq<Json>, fs: seq<Json>, x: Json, k: nat)
    requires n < |chain| && chain[n].index >= 0 && Updated(es, chain[n].index, x, fs)
    requires if n == 0 then es == [] else IsData(chain, n, es)
    requires k < |fs| && Unused(chain, n + 1, k)
    ensures fs[k] == Null
  {
    hide BlockJson;
    assert chain[n].index != k;
    if k < |es| { assert Unused(chain, n, k); }
  }

  lemma DataStep(chain: seq<Block>, n: nat, es: seq<Json>, fs: seq<Json>)
    requires n < |chain| && chain[n].index >= 0 && Updated(es, chain[n].index, BlockJson(chain[n]), fs)
    requires if n == 0 then es == [] else IsData(chain, n, es)
    ensures IsData(chain, n + 1, fs)
  {
    hide BlockJson, LastWithIndex, Unused, Updated;
    ReachedStep(chain, n, es, fs, BlockJson(chain[n]));
    forall i | 0 <= i < n + 1 && LastWithIndex(chain, n + 1, i) ensures fs[chain[i].index] == BlockJson(chain[i]) {
      LastStep(chain, n, es, fs, i);
    }
    forall k | 0 <= k < |fs| && Unused(chain, n + 1, k) ensures fs[k] == Null {
      UnusedStep(chain, n, es, fs, BlockJson(chain[n]), k);
    }
  }

  lemma AssignFirst(index: int32, x: Json)
    ensures Assign(Null, index, x) == if index < 0 then Assign(Array([]), index, x) else Ok(Array(Patch.Nulls(index) + [x]))
    ensures index >= 0 ==> Assign(Null, index, x) == Assign(Array([]), index, x)
  {
    if index >= 0 { assert [] + Patch.Nulls(index) == Patch.Nulls(index); }
  }

  /** Saving succeeds exactly if no index is negative. */
  lemma {:induction false} DataAny(chain: seq<Block>, n: nat)
    requires n <= |chain|
    ensures DataJson(chain, n).Ok? <==> forall i :: 0 <= i < n ==> chain[i].index >= 0
    ensures n > 0 && DataJson(chain, n).Ok? ==> DataJson(chain, n).value.Array? && IsData(chain, n, DataJson(chain, n).value.elems)
    ensures n == 0 ==> DataJson(chain, n) == Ok(Null)
  {
    hide Assign, BlockJson, IsData;
    if n > 0 {
      DataAny(chain, n - 1);
      var before, b := DataJson(chain, n - 1), chain[n - 1];
      if before.Ok? {
        var es := if n == 1 then [] else before.value.elems;
        AssignFirst(b.index, BlockJson(b));
        if b.index >= 0 {
          AssignKeeps(es, b.index, BlockJson(b));
          DataStep(chain, n - 1, es, Assign(Array(es), b.index, BlockJson(b)).value.elems);
        } else {
          AssignNegative(before.value, b.index, BlockJson(b));
        }
      }
    }
  }

  lemma AssignNegative(j: Json, index: int32, x: Json)
    requires index < 0
    ensures Assign(j, index, x).Err?
  {
  }
}
