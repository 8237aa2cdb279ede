/**
 Writing a chain to its file (`Block::toJSON`, `BlockChain::toJSON`, `dump(3)`) and reading
 it back (`parse`, `replaceChain`).
 */
module ChainFile {
  import opened Bytes
  import opened Chain
  import opened Json
  import opened Results
  import opened Rsa
  import Parser
  import Patch
  import Printer
  import Strings
  import T = TextRoundTrip

  const LENGTH: Text := [0x6C, 0x65, 0x6E, 0x67, 0x74, 0x68]
  const DATA: Text := [0x64, 0x61, 0x74, 0x61]
  const INDEX: Text := [0x69, 0x6E, 0x64, 0x65, 0x78]
  const HASH: Text := [0x68, 0x61, 0x73, 0x68]
  const PREVIOUS_HASH: Text := [0x70, 0x72, 0x65, 0x76, 0x69, 0x6F, 0x75, 0x73, 0x48, 0x61, 0x73, 0x68]
  const NONCE: Text := [0x6E, 0x6F, 0x6E, 0x63, 0x65]
  const SIGNATURE: Text := [0x73, 0x69, 0x67, 0x6E, 0x61, 0x74, 0x75, 0x72, 0x65]
  const HEADER: Text := [0x68, 0x65, 0x61, 0x64, 0x65, 0x72]

  // ----- writing

  function TextArray(texts: seq<Text>): Json {
    Array(seq(|texts|, i requires 0 <= i < |texts| => String(texts[i])))
  }

  /** `Block::toJSON` */
  function BlockJson(b: Block): Json {
    Object(map[INDEX := Integer(b.index), HASH := String(b.hash), PREVIOUS_HASH := String(b.previousHash),
               NONCE := String(b.nonce), DATA := TextArray(b.data), SIGNATURE := String(b.signature),
               HEADER := String(b.header)])
  }

  /** Assignment through `operator[]` with an index: null becomes an array, and the array is
      filled up with nulls. */
  function Assign(j: Json, index: int32, x: Json): Result<Json> {
    if j.Null? then if index < 0 then Err(Patch.BadIndex(index, 0)) else Ok(Array(Patch.Nulls(index) + [x]))
    else if !j.Array? then Err(DomainError)
    else if index < 0 then Err(Patch.BadIndex(index, |j.elems|))
    else if index < |j.elems| then Ok(Array(j.elems[index := x]))
    else Ok(Array(j.elems + Patch.Nulls(index - |j.elems|) + [x]))
  }

  /** `j["data"]` after the first `n` blocks. */
  function DataJson(chain: seq<Block>, n: nat): Result<Json>
    requires n <= |chain|
  {
    if n == 0 then Ok(Null)
    else
      var before :- DataJson(chain, n - 1);
      Assign(before, chain[n - 1].index, BlockJson(chain[n - 1]))
  }

  function ChainJson(chain: seq<Block>): Result<Json>
    requires |chain| < TWO_TO_THE_64
  {
    var data :- DataJson(chain, |chain|);
    var length := map[LENGTH := Unsigned(|chain|)];
    Ok(Object(if chain == [] then length else length[DATA := data]))
  }

  /** `BlockChain::toJSON`, up to the printing. */
  method ToJson(bc: BlockChain) returns (r: Result<Json>)
    requires |bc.blockchain| < TWO_TO_THE_64
    ensures r == ChainJson(bc.blockchain)
  {
    hide Assign, BlockJson;
    var chain := bc.blockchain;
    var length := map[LENGTH := Unsigned(|chain|)];
    var data := Null;
    for i := 0 to |chain|
      invariant DataJson(chain, i) == Ok(data)
    {
      var next := Assign(data, chain[i].index, BlockJson(chain[i]));
      if next.Err? {
        DataFails(chain, i + 1);
        return next;
      }
      data := next.value;
    }
    return Ok(Object(if chain == [] then length else length[DATA := data]));
  }

  lemma {:induction false} DataFailsBy(chain: seq<Block>, n: nat, m: nat)
    requires n <= m <= |chain| && DataJson(chain, n).Err?
    ensures DataJson(chain, m) == DataJson(chain, n)
    decreases m - n
  {
    hide Assign, BlockJson;
    if n < m { DataFailsBy(chain, n, m - 1); }
  }

  lemma DataFails(chain: seq<Block>, n: nat)
    requires n <= |chain| && DataJson(chain, n).Err?
    ensures DataJson(chain, |chain|) == DataJson(chain, n)
  {
    DataFailsBy(chain, n, |chain|);
  }

  // ----- reading

  /** `operator[]` with a key: a missing member, or a member of null, reads as null. */
  function Field(j: Json, key: Text): Result<Json> {
    if j.Object? then Ok(if key in j.members then j.members[key] else Null)
    else if j.Null? then Ok(Null)
    else Err(DomainError)
  }

  /** `operator[]` with an index that is not negative. */
  function Element(j: Json, i: nat): Result<Json> {
    if j.Array? then Ok(if i < |j.elems| then j.elems[i] else Null)
    else if j.Null? then Ok(Null)
    else Err(DomainError)
  }

  /** `get<int>`; the conversion of a floating-point number is not modelled. */
  function GetInt(j: Json): Result<int32> {
    match j
    case Unsigned(u) => Ok(ToInt32(u))
    case Integer(i) => Ok(ToInt32(i))
    case Boolean(b) => Ok(if b then 1 else 0)
    case Float(_) => Err(NotModelled)
    case _ => Err(DomainError)
  }

  function GetText(j: Json): Result<Text> {
    if j.String? then Ok(j.s) else Err(DomainError)
  }

  /** `get<std::vector<std::string>>` */
  function GetTexts(j: Json): Result<seq<Text>> {
    if j.Array? && forall i :: 0 <= i < |j.elems| ==> j.elems[i].String? then
      Ok(seq(|j.elems|, i requires 0 <= i < |j.elems| => j.elems[i].s))
    else Err(DomainError)
  }

  function TextField(j: Json, key: Text): Result<Text> {
    var f :- Field(j, key);
    GetText(f)
  }

  /** What `replaceChain` reads before it verifies the signature. */
  datatype Part = Part(data: seq<Text>, header: Text, signature: Text, hash: Text)

  function ReadPart(j: Json): Result<Part> {
    var f :- Field(j, DATA);
    var data :- GetTexts(f);
    var header :- TextField(j, HEADER);
    var signature :- TextField(j, SIGNATURE);
    var hash :- TextField(j, HASH);
    Ok(Part(data, header, signature, hash))
  }

  function ReadRest(j: Json, part: Part): Result<Block> {
    var f :- Field(j, INDEX);
    var index :- GetInt(f);
    var previousHash :- TextField(j, PREVIOUS_HASH);
    var nonce :- TextField(j, NONCE);
    Ok(Block(index, previousHash, part.hash, nonce, part.data, part.signature, part.header))
  }

  function BlockAt(chain: Json, a: nat): Result<Json> {
    var data :- Field(chain, DATA);
    Element(data, a)
  }

  /** The blocks in the chain afterwards, and the result or the exception. */
  datatype Loaded = Loaded(blocks: seq<Block>, result: Result<int>)

  /** One block: `None` if its signature is refused. */
  function LoadBlock(c: Context, chain: Json, verify: bool, a: nat): Result<Option<Block>>
    requires c.keys.n > 0
  {
    var j :- BlockAt(chain, a);
    var part :- ReadPart(j);
    if verify && !Accepts(c.lib, c.keys, part.hash, part.signature) then Ok(None)
    else
      var block :- ReadRest(j, part);
      Ok(Some(block))
  }

  function Load(c: Context, chain: Json, verify: bool, length: int, a: nat, done: seq<Block>): Loaded
    requires c.keys.n > 0
    decreases length - a
  {
    if a >= length then Loaded(done, Ok(1))
    else
      var r := LoadBlock(c, chain, verify, a);
      if r.Err? then Loaded(done, Err(r.error))
      else if r.value.None? then Loaded(done, Ok(0))
      else Load(c, chain, verify, length, a + 1, done + [r.value.value])
  }

  function ChainLength(chain: Json): Result<int32> {
    var f :- Field(chain, LENGTH);
    GetInt(f)
  }

  function Replace(c: Context, chain: Json, verify: bool): Loaded
    requires c.keys.n > 0
  {
    var length := ChainLength(chain);
    if length.Err? then Loaded([], Err(length.error)) else Load(c, chain, verify, length.value, 0, [])
  }

  /** `replaceChain`: empties the chain and refills it; a refused signature or an exception
      leaves the blocks read so far. */
  method ReplaceChain(bc: BlockChain, chain: Json, verify: bool) returns (r: Result<int>)
    requires bc.Valid()
    modifies bc`blockchain
    ensures Loaded(bc.blockchain, r) == Replace(bc.TheContext(), chain, verify)
  {
    hide Generated, LoadBlock, ChainLength;
    ghost var c := bc.TheContext();
    while |bc.blockchain| > 0 {
      bc.blockchain := bc.blockchain[..|bc.blockchain| - 1];
    }
    var length :- ChainLength(chain);
    var a := 0;
    while a < length
      invariant 0 <= a
      invariant Load(c, chain, verify, length, a, bc.blockchain) == Replace(c, chain, verify)
    {
      var block :- ReadOne(bc, chain, verify, a);
      if block.None? {
        return Ok(0);
      }
      bc.blockchain := bc.blockchain + [block.value];
      a := a + 1;
    }
    return Ok(1);
  }

  method ReadOne(bc: BlockChain, chain: Json, verify: bool, a: nat) returns (r: Result<Option<Block>>)
    requires bc.Valid()
    ensures r == LoadBlock(bc.TheContext(), chain, verify, a)
  {
    hide Generated, Accepts;
    var j :- BlockAt(chain, a);
    var part :- ReadPart(j);
    if verify {
      var ok := bc.signer.Verify(part.hash, part.signature);
      if !ok {
        return Ok(None);
      }
    }
    var block :- ReadRest(j, part);
    return Ok(Some(block));
  }

  // ----- saving and loading

  predicate Positions(chain: seq<Block>) {
    forall i :: 0 <= i < |chain| ==> chain[i].index == i
  }

  /** How many blocks from number `i` on come before the first with a bad signature. */
  function Trusted(c: Context, chain: seq<Block>, i: nat): (k: nat)
    requires c.keys.n > 0 && i <= |chain|
    ensures i <= k <= |chain|
    decreases |chain| - i
  {
    if i < |chain| && Signed(c, chain[i]) then Trusted(c, chain, i + 1) else i
  }

  lemma {:induction false} DataPositions(chain: seq<Block>, n: nat)
    requires 0 < n <= |chain| && Positions(chain)
    ensures DataJson(chain, n) == Ok(Array(seq(n, i requires 0 <= i < n => BlockJson(chain[i]))))
  {
    hide BlockJson;
    assert chain[n - 1].index == n - 1;
    if n > 1 {
      DataPositions(chain, n - 1);
      var before := seq(n - 1, i requires 0 <= i < n - 1 => BlockJson(chain[i]));
      assert before + Patch.Nulls(0) + [BlockJson(chain[n - 1])] == seq(n, i requires 0 <= i < n => BlockJson(chain[i]));
    } else {
      assert Patch.Nulls(0) + [BlockJson(chain[0])] == seq(1, i requires 0 <= i < 1 => BlockJson(chain[i]));
    }
  }

  lemma ReadField(j: Json, key: Text)
    requires j.Object? && key in j.members
    ensures Field(Canonical(j), key) == Ok(Canonical(j.members[key]))
  {
  }

  lemma BlockMembers(b: Block)
    ensures BlockJson(b).Object?
    ensures var m := BlockJson(b).members;
      m.Keys == {INDEX, HASH, PREVIOUS_HASH, NONCE, DATA, SIGNATURE, HEADER} &&
      m[INDEX] == Integer(b.index) && m[HASH] == String(b.hash) && m[PREVIOUS_HASH] == String(b.previousHash) &&
      m[NONCE] == String(b.nonce) && m[DATA] == TextArray(b.data) && m[SIGNATURE] == String(b.signature) &&
      m[HEADER] == String(b.header)
  {
    assert |INDEX| == 5 && |HASH| == 4 && |PREVIOUS_HASH| == 12 && |NONCE| == 5 && |DATA| == 4 && |SIGNATURE| == 9 && |HEADER| == 6;
    assert INDEX[0] != NONCE[0] && HASH[0] != DATA[0];
  }

  lemma ReadTexts(ts: seq<Text>)
    ensures GetTexts(Canonical(TextArray(ts))) == Ok(ts)
  {
    var es := Canonical(TextArray(ts)).elems;
    assert forall i :: 0 <= i < |es| ==> es[i] == Canonical(String(ts[i])) == String(ts[i]);
    assert seq(|es|, i requires 0 <= i < |es| => es[i].s) == ts;
  }

  lemma ReadTextField(j: Json, key: Text, s: Text)
    requires j.Object? && key in j.members && j.members[key] == String(s)
    ensures TextField(Canonical(j), key) == Ok(s)
  {
    ReadField(j, key);
  }

  /** A block is read back from its parsed JSON form. */
  lemma ReadBack(b: Block)
    requires b.index >= 0
    ensures ReadPart(Canonical(BlockJson(b))) == Ok(Part(b.data, b.header, b.signature, b.hash))
    ensures ReadRest(Canonical(BlockJson(b)), Part(b.data, b.header, b.signature, b.hash)) == Ok(b)
  {
    BlockMembers(b);
    var j := BlockJson(b);
    hide BlockJson, TextArray, TextField, GetTexts, Field;
    ReadField(j, DATA);
    ReadTexts(b.data);
    ReadTextField(j, HEADER, b.header);
    ReadTextField(j, SIGNATURE, b.signature);
    ReadTextField(j, HASH, b.hash);
    ReadTextField(j, PREVIOUS_HASH, b.previousHash);
    ReadTextField(j, NONCE, b.nonce);
    ReadField(j, INDEX);
  }

  lemma ChainJsonParts(chain: seq<Block>)
    requires Positions(chain) && |chain| <= 0x7FFF_FFFF
    ensures ChainJson(chain).Ok? && ChainJson(chain).value.Object?
    ensures var m := ChainJson(chain).value.members;
      m.Keys == (if chain == [] then {LENGTH} else {LENGTH, DATA}) && m[LENGTH] == Unsigned(|chain|) &&
      (chain != [] ==> m[DATA] == Array(seq(|chain|, i requires 0 <= i < |chain| => BlockJson(chain[i]))))
  {
    hide DataJson, BlockJson;
    assert |LENGTH| == 6 && |DATA| == 4;
    if chain != [] {
      DataPositions(chain, |chain|);
    } else {
      NoData();
    }
  }

  lemma NoData()
    ensures DataJson([], 0) == Ok(Null)
  {
  }

  lemma BlockAtBack(chain: seq<Block>, a: nat)
    requires Positions(chain) && a < |chain| <= 0x7FFF_FFFF && ChainJson(chain).Ok?
    ensures BlockAt(Canonical(ChainJson(chain).value), a) == Ok(Canonical(BlockJson(chain[a])))
  {
    ChainJsonParts(chain);
    var j := ChainJson(chain).value;
    assert j.Object? && DATA in j.members;
    ReadField(j, DATA);
    hide ChainJson, BlockJson, Field;
    var data := seq(|chain|, i requires 0 <= i < |chain| => BlockJson(chain[i]));
    assert Canonical(Array(data)).elems[a] == Canonical(data[a]);
  }

  lemma LoadBlockBack(c: Context, chain: seq<Block>, verify: bool, a: nat)
    requires c.keys.n > 0 && Positions(chain) && a < |chain| <= 0x7FFF_FFFF && ChainJson(chain).Ok?
    ensures LoadBlock(c, Canonical(ChainJson(chain).value), verify, a) ==
      Ok(if verify && !Signed(c, chain[a]) then None else Some(chain[a]))
  {
    hide ChainJson, BlockJson, ReadPart, ReadRest, BlockAt, Accepts;
    BlockAtBack(chain, a);
    assert chain[a].index == a;
    ReadBack(chain[a]);
  }

  /** What loading leaves and returns: everything, or the blocks before a bad signature. */
  function Restored(c: Context, chain: seq<Block>, verify: bool, i: nat): Loaded
    requires c.keys.n > 0 && i <= |chain|
  {
    var k := Trusted(c, chain, i);
    if !verify || k == |chain| then Loaded(chain, Ok(1)) else Loaded(chain[..k], Ok(0))
  }

  lemma {:induction false} LoadBack(c: Context, chain: seq<Block>, verify: bool, a: nat)
    requires c.keys.n > 0 && Positions(chain) && a <= |chain| <= 0x7FFF_FFFF && ChainJson(chain).Ok?
    ensures Load(c, Canonical(ChainJson(chain).value), verify, |chain|, a, chain[..a]) == Restored(c, chain, verify, a)
    decreases |chain| - a
  {
    hide ChainJson, LoadBlock, Signed, Canonical;
    if a < |chain| {
      LoadBlockBack(c, chain, verify, a);
      LoadBack(c, chain, verify, a + 1);
      assert chain[..a] + [chain[a]] == chain[..a + 1];
    } else {
      assert chain[..a] == chain;
    }
  }

  lemma LengthBack(chain: seq<Block>)
    requires Positions(chain) && |chain| <= 0x7FFF_FFFF
    ensures ChainJson(chain).Ok? && ChainLength(Canonical(ChainJson(chain).value)) == Ok(|chain|)
  {
    ChainJsonParts(chain);
    var j := ChainJson(chain).value;
    assert LENGTH in j.members && Canonical(j.members[LENGTH]) == Unsigned(|chain|);
    hide ChainJson, Field, Canonical;
    ReadField(j, LENGTH);
  }

  lemma ReplaceBack(c: Context, chain: seq<Block>, verify: bool)
    requires c.keys.n > 0 && Positions(chain) && |chain| <= 0x7FFF_FFFF
    ensures ChainJson(chain).Ok? && Replace(c, Canonical(ChainJson(chain).value), verify) == Restored(c, chain, verify, 0)
  {
    hide ChainJson, Load, Restored, ChainLength, Canonical;
    LengthBack(chain);
    LoadBack(c, chain, verify, 0);
    assert chain[..0] == [];
  }

  // ----- the text of the file

  /** The strings of a block are UTF-8. */
  predicate Utf8Block(b: Block) {
    Strings.Utf8(b.hash) && Strings.Utf8(b.previousHash) && Strings.Utf8(b.nonce) && Strings.Utf8(b.signature) &&
    Strings.Utf8(b.header) && forall i :: 0 <= i < |b.data| ==> Strings.Utf8(b.data[i])
  }

  predicate Utf8Chain(chain: seq<Block>) {
    forall i :: 0 <= i < |chain| ==> Utf8Block(chain[i])
  }

  lemma {:induction false} AsciiUtf8(s: Text)
    requires forall i :: 0 <= i < |s| ==> s[i] < 0x80
    ensures Strings.Utf8(s)
    decreases |s|
  {
    if s != [] { AsciiUtf8(s[1..]); }
  }

  lemma KeysUtf8()
    ensures forall k :: k in {INDEX, HASH, PREVIOUS_HASH, NONCE, DATA, SIGNATURE, HEADER, LENGTH} ==> Strings.Utf8(k)
  {
    hide Strings.Utf8;
    AsciiUtf8(INDEX);
    AsciiUtf8(HASH);
    AsciiUtf8(PREVIOUS_HASH);
    AsciiUtf8(NONCE);
    AsciiUtf8(DATA);
    AsciiUtf8(SIGNATURE);
    AsciiUtf8(HEADER);
    AsciiUtf8(LENGTH);
  }

  lemma TextsUtf8(ts: seq<Text>)
    ensures T.FloatFree(TextArray(ts))
    ensures T.Utf8Strings(TextArray(ts)) <==> forall i :: 0 <= i < |ts| ==> Strings.Utf8(ts[i])
  {
    hide Strings.Utf8;
    var texts := TextArray(ts);
    forall i | 0 <= i < |ts| ensures T.Utf8Strings(texts.elems[i]) == Strings.Utf8(ts[i]) {
    }
  }

  lemma BlockFloatFree(b: Block)
    ensures T.FloatFree(BlockJson(b))
  {
    BlockMembers(b);
    TextsUtf8(b.data);
    var j := BlockJson(b);
    hide BlockJson, TextArray;
    forall k | k in j.members ensures T.FloatFree(j.members[k]) {
    }
  }

  lemma BlockText(b: Block)
    ensures T.FloatFree(BlockJson(b)) && (T.Utf8Strings(BlockJson(b)) <==> Utf8Block(b))
  {
    BlockFloatFree(b);
    BlockMembers(b);
    KeysUtf8();
    TextsUtf8(b.data);
    var j := BlockJson(b);
    hide BlockJson, Strings.Utf8, TextArray;
    if Utf8Block(b) {
      forall k | k in j.members ensures Strings.Utf8(k) && T.Utf8Strings(j.members[k]) {
      }
    }
    if T.Utf8Strings(j) {
      forall k | k in j.members ensures T.Utf8Strings(j.members[k]) {
      }
    }
  }

  lemma DataText(chain: seq<Block>, data: Json)
    requires data.Array? && |data.elems| == |chain|
    requires forall i :: 0 <= i < |chain| ==> data.elems[i] == BlockJson(chain[i])
    ensures T.FloatFree(data) && (T.Utf8Strings(data) <==> Utf8Chain(chain))
  {
    hide BlockJson, Strings.Utf8, Utf8Block;
    forall i | 0 <= i < |chain|
      ensures T.FloatFree(data.elems[i]) && T.Utf8Strings(data.elems[i]) == Utf8Block(chain[i])
    {
      BlockText(chain[i]);
    }
  }

  lemma ChainText(chain: seq<Block>)
    requires Positions(chain) && |chain| <= 0x7FFF_FFFF
    ensures ChainJson(chain).Ok?
    ensures T.FloatFree(ChainJson(chain).value) && (T.Utf8Strings(ChainJson(chain).value) <==> Utf8Chain(chain))
  {
    hide ChainJson, BlockJson, Utf8Block, T.FloatFree, T.Utf8Strings;
    ChainJsonParts(chain);
    var m := ChainJson(chain).value.members;
    MembersText(m);
    if chain != [] {
      DataText(chain, m[DATA]);
    }
  }

  lemma MembersText(m: map<Text, Json>)
    requires m.Keys == {LENGTH} || m.Keys == {LENGTH, DATA}
    requires m[LENGTH].Unsigned?
    ensures T.FloatFree(Object(m)) <==> DATA in m ==> T.FloatFree(m[DATA])
    ensures T.Utf8Strings(Object(m)) <==> DATA in m ==> T.Utf8Strings(m[DATA])
  {
    KeysUtf8();
    hide Strings.Utf8;
    assert forall k :: k in m ==> k == LENGTH || k == DATA;
  }

  /** A saved chain whose indices are its positions is loaded as it was, if its strings are
      UTF-8, else its file does not parse. With verification on it is cut before the first
      block whose signature does not verify. */
  lemma SavedChainLoads(c: Context, chain: seq<Block>, verify: bool, show: uint64 -> Text, read: Text -> Json)
    requires c.keys.n > 0 && Positions(chain) && |chain| <= 0x7FFF_FFFF
    ensures ChainJson(chain).Ok?
    ensures var file := Parser.Parse(Printer.Dump(ChainJson(chain).value, Printer.Style(true, 3, show), 0), read);
      if Utf8Chain(chain) then file.Ok? && Replace(c, file.value, verify) == Restored(c, chain, verify, 0)
      else file == Err(InvalidArgument)
  {
    hide ChainJson, Printer.Dump, Parser.Parse, Replace, Restored, Utf8Chain, Canonical, T.FloatFree, T.Utf8Strings;
    ChainText(chain);
    T.TextRoundTrip(ChainJson(chain).value, Printer.Style(true, 3, show), read);
    ReplaceBack(c, chain, verify);
  }

  lemma {:induction false} AllTrusted(c: Context, chain: seq<Block>, i: nat)
    requires c.keys.n > 0 && Linked(c, chain) && i <= |chain|
    ensures Trusted(c, chain, i) == |chain|
    decreases |chain| - i
  {
    hide Consistent, Follows, Accepts;
    if i < |chain| { AllTrusted(c, chain, i + 1); }
  }

  /** A linked chain, such as every run of the generation loops makes, is restored whole
      from its file, with or without verification. */
  lemma LinkedChainReloads(c: Context, chain: seq<Block>, verify: bool, show: uint64 -> Text, read: Text -> Json)
    requires c.keys.n > 0 && Linked(c, chain) && |chain| <= 0x7FFF_FFFF && Utf8Chain(chain)
    ensures ChainJson(chain).Ok?
    ensures var file := Parser.Parse(Printer.Dump(ChainJson(chain).value, Printer.Style(true, 3, show), 0), read);
      file.Ok? && Replace(c, file.value, verify) == Loaded(chain, Ok(1))
  {
    hide Linked, ChainJson, Utf8Chain, Printer.Dump, Parser.Parse, Replace, Trusted;
    IndexIsPosition(c, chain);
    SavedChainLoads(c, chain, verify, show, read);
    AllTrusted(c, chain, 0);
  }
}
