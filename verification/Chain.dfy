/**
 The chain of blocks (`BlockChain`) and the generation loops of `main`.

 `addBlock` does not look at the previous hash it is given. That the blocks are linked
 is a property of whole runs of the loops, which always pass the latest hash.
 */
module Chain {
  import opened Bytes
  import opened Merkle
  import opened Results
  import opened Rsa

  type int32 = x: int | -0x8000_0000 <= x <= 0x7FFF_FFFF

  /** The conversion of a size or another number to `int`: two's complement. */
  function ToInt32(x: int): int32 {
    (x + 0x8000_0000) % 0x1_0000_0000 - 0x8000_0000
  }

  datatype Block = Block(index: int32, previousHash: Text, hash: Text, nonce: Text, data: seq<Text>, signature: Text,
                         header: Text)

  const GENESIS_PREVIOUS: Text := [0x30, 0x30, 0x30, 0x30, 0x30, 0x30, 0x30, 0x30, 0x30, 0x30, 0x30, 0x30, 0x30, 0x30]

  // ----- what a sound chain is

  /** What verifies a chain: the keys, the libraries behind them, and SHA-256. */
  datatype Context = Context(lib: Library, keys: Keys, digest: Text -> Text) {
    /** What generated keys provide. */
    ghost predicate Valid() {
      lib.Valid() && Generated(keys) && keys.n > 0 && IsDigest(digest)
    }

    /** Signatures verify if the two primes differ as well. */
    ghost predicate Sound() {
      Valid() && keys.p != keys.q
    }
  }

  /** The header and the hash are those of the contents. */
  predicate Consistent(c: Context, b: Block) {
    b.header == HeaderFor(c.digest, b.index, b.previousHash, b.data) + b.nonce && b.hash == Sha256(c.digest, b.header)
  }

  predicate Signed(c: Context, b: Block)
    requires c.keys.n > 0
  {
    Accepts(c.lib, c.keys, b.hash, b.signature)
  }

  /** The link of block number `i` to the one before it. */
  predicate Follows(chain: seq<Block>, i: nat)
    requires i < |chain|
  {
    chain[i].index == i &&
    (i > 0 ==> chain[i].previousHash == chain[i - 1].hash && Leads(chain[i].hash))
  }

  predicate Linked(c: Context, chain: seq<Block>)
    requires c.keys.n > 0
  {
    forall i :: 0 <= i < |chain| ==> Follows(chain, i) && Consistent(c, chain[i]) && Signed(c, chain[i])
  }

  /** The block that `addBlock` makes. */
  function NewBlock(c: Context, index: int32, prevHash: Text, nonce: Text, merkle: seq<Text>): Block
    requires c.keys.n > 0
  {
    var header := HeaderFor(c.digest, index, prevHash, merkle) + nonce;
    var hash := Sha256(c.digest, header);
    Block(index, prevHash, hash, nonce, merkle, SignatureText(c.lib, c.keys, hash), header)
  }

  lemma NewBlockSound(c: Context, index: int32, prevHash: Text, nonce: Text, merkle: seq<Text>)
    requires c.Valid()
    ensures var b := NewBlock(c, index, prevHash, nonce, merkle);
      Consistent(c, b) && (c.Sound() ==> Signed(c, b))
  {
    hide SignatureText, Accepts, Sha256, HeaderFor, Generated;
    if c.Sound() {
      SoundSignature(c, NewBlock(c, index, prevHash, nonce, merkle).hash);
    }
  }

  lemma SoundSignature(c: Context, hash: Text)
    requires c.Sound()
    ensures Accepts(c.lib, c.keys, hash, SignatureText(c.lib, c.keys, hash))
  {
    hide Generated, Accepts, SignatureText;
    assert KeyEquations(c.keys);
    SignedMessagesVerify(c.lib, c.keys, hash);
  }

  /** A block extends a linked chain to a linked chain exactly if it is sound itself, has the
      next index, names the latest hash and, after the first block, leads with "00". */
  lemma LinkedExtends(c: Context, chain: seq<Block>, b: Block)
    requires c.keys.n > 0 && Linked(c, chain)
    ensures Linked(c, chain + [b]) <==>
      b.index == |chain| && Consistent(c, b) && Signed(c, b) &&
      (chain != [] ==> b.previousHash == chain[|chain| - 1].hash && Leads(b.hash))
  {
    hide Consistent, Signed, Leads;
    var longer := chain + [b];
    forall i | 0 <= i < |chain| ensures Follows(longer, i) == Follows(chain, i) && longer[i] == chain[i] {
    }
    assert longer[|chain|] == b;
    if Linked(c, longer) {
      assert Follows(longer, |chain|);
    }
  }

  predicate FirstWithIndex(chain: seq<Block>, i: nat, index: int)
    requires i < |chain|
  {
    chain[i].index == index && forall k :: 0 <= k < i ==> chain[k].index != index
  }

  lemma IndexIsPosition(c: Context, chain: seq<Block>)
    requires c.keys.n > 0 && Linked(c, chain)
    ensures forall i :: 0 <= i < |chain| ==> chain[i].index == i
  {
    hide Consistent, Signed;
    forall i | 0 <= i < |chain| ensures chain[i].index == i {
      assert Follows(chain, i);
    }
  }

  // ----- the class

  class BlockChain {
    var blockchain: seq<Block>
    const signer: MyRSA
    const digest: Text -> Text

    function TheContext(): Context
      reads signer
    {
      Context(signer.lib, signer.TheKeys(), digest)
    }

    ghost predicate Valid()
      reads signer
    {
      signer.Valid() && TheContext().Valid()
    }

    /** The constructor with given data for the first block; with the text "Genesis Block!"
        it is the other constructor. A failed search leaves the nonce "fail". */
    constructor (signer: MyRSA, digest: Text -> Text, genesis: int, generated: Text)
      requires signer.Valid() && IsDigest(digest)
      ensures Valid() && this.signer == signer && this.digest == digest
      ensures genesis != 0 ==> blockchain == []
      ensures genesis == 0 ==> blockchain == [GenesisBlock(TheContext(), generated)]
      ensures signer.Sound() ==> Linked(TheContext(), blockchain)
    {
      hide Generated, Linked, FoundNonce, HeaderFor, SignatureText;
      this.signer := signer;
      this.digest := digest;
      this.blockchain := [];
      KeysPositive(signer);
      new;
      NothingLinked(TheContext());
      if genesis == 0 {
        var v := [generated];
        var _, nonce := FindHash(digest, 0, GENESIS_PREVIOUS, v);
        var header := NewHeader(digest, 0, GENESIS_PREVIOUS, nonce, v);
        var hash := HashString(digest, header);
        var signature := signer.Sign(hash);
        blockchain := blockchain + [Block(0, GENESIS_PREVIOUS, hash, nonce, v, signature, header)];
        assert blockchain == [] + [GenesisBlock(TheContext(), generated)];
        if signer.Sound() {
          GenesisLinked(TheContext(), generated);
        }
      }
    }

    /** `getBlock`: the first block with the index. */
    method GetBlock(index: int) returns (r: Result<Block>)
      ensures r.Ok? ==> exists i :: 0 <= i < |blockchain| && r.value == blockchain[i] && FirstWithIndex(blockchain, i, index)
      ensures r.Err? ==> r == Err(InvalidArgument) && forall k :: 0 <= k < |blockchain| ==> blockchain[k].index != index
    {
      for i := 0 to |blockchain|
        invariant forall k :: 0 <= k < i ==> blockchain[k].index != index
      {
        if blockchain[i].index == index {
          return Ok(blockchain[i]);
        }
      }
      return Err(InvalidArgument);
    }

    method GetNumOfBlocks() returns (n: int32)
      ensures n == ToInt32(|blockchain|)
    {
      return ToInt32(|blockchain|);
    }

    /** `getLatestBlockHash`, which is undefined on an empty chain. */
    method GetLatestBlockHash() returns (hash: Text)
      requires blockchain != []
      ensures hash == blockchain[|blockchain| - 1].hash
    {
      return blockchain[|blockchain| - 1].hash;
    }

    /** `addBlock`: accepts a block with a leading "00" at the next position, whatever its
        previous hash; otherwise the chain stays as it is. */
    method AddBlock(index: int32, prevHash: Text, nonce: Text, merkle: seq<Text>) returns (added: int)
      requires Valid()
      modifies `blockchain
      ensures var b := NewBlock(TheContext(), index, prevHash, nonce, merkle);
        if Leads(b.hash) && index == |old(blockchain)| then added == 1 && blockchain == old(blockchain) + [b]
        else added == 0 && blockchain == old(blockchain)
    {
      hide Generated, HeaderFor, Sha256, SignatureText;
      var header := NewHeader(digest, index, prevHash, nonce, merkle);
      var hash := HashString(digest, header);
      if hash[..2] == [0x30, 0x30] && index == |blockchain| {
        var signature := signer.Sign(hash);
        blockchain := blockchain + [Block(index, prevHash, hash, nonce, merkle, signature, header)];
        return 1;
      }
      return 0;
    }
  }

  lemma KeysPositive(signer: MyRSA)
    requires signer.Valid()
    ensures signer.TheKeys().n > 0
  {
    ModulusPositive(signer.TheKeys());
  }

  /** The first block: its nonce is the one found, or "fail". */
  ghost function GenesisBlock(c: Context, generated: Text): Block
    requires c.keys.n > 0
  {
    var nonce := FoundNonce(c.digest, HeaderFor(c.digest, 0, GENESIS_PREVIOUS, [generated]));
    NewBlock(c, 0, GENESIS_PREVIOUS, nonce, [generated])
  }

  lemma GenesisLinked(c: Context, generated: Text)
    requires c.Sound()
    ensures Linked(c, [GenesisBlock(c, generated)])
  {
    hide Linked, Consistent, Signed, Leads, NewBlock, FoundNonce, HeaderFor, Generated;
    var nonce := FoundNonce(c.digest, HeaderFor(c.digest, 0, GENESIS_PREVIOUS, [generated]));
    var b := NewBlock(c, 0, GENESIS_PREVIOUS, nonce, [generated]);
    NewBlockSound(c, 0, GENESIS_PREVIOUS, nonce, [generated]);
    assert b.index == 0 by { NewBlockIndex(c, 0, GENESIS_PREVIOUS, nonce, [generated]); }
    NothingLinked(c);
    LinkedExtends(c, [], b);
    assert [] + [b] == [b];
  }

  lemma NewBlockIndex(c: Context, index: int32, prevHash: Text, nonce: Text, merkle: seq<Text>)
    requires c.keys.n > 0
    ensures var b := NewBlock(c, index, prevHash, nonce, merkle);
      b.index == index && b.previousHash == prevHash && b.nonce == nonce && b.data == merkle
  {
  }

  lemma NothingLinked(c: Context)
    requires c.keys.n > 0
    ensures Linked(c, [])
  {
  }

  method NewHeader(digest: Text -> Text, index: int, prevHash: Text, nonce: Text, merkle: seq<Text>) returns (header: Text)
    requires IsDigest(digest)
    ensures header == HeaderFor(digest, index, prevHash, merkle) + nonce
  {
    var root, _ := GetMerkleRoot(digest, merkle);
    header := Numeral(index) + prevHash + root + nonce;
  }

  /** `addBlock` keeps a chain linked exactly if the block is rejected, is the first one,
      or names the latest hash. */
  lemma AddKeepsLinks(c: Context, chain: seq<Block>, prevHash: Text, nonce: Text, merkle: seq<Text>)
    requires c.Sound() && Linked(c, chain) && |chain| <= 0x7FFF_FFFF
    requires Leads(NewBlock(c, |chain|, prevHash, nonce, merkle).hash)
    ensures Linked(c, chain + [NewBlock(c, |chain|, prevHash, nonce, merkle)]) <==>
      chain == [] || prevHash == chain[|chain| - 1].hash
  {
    hide Linked, Consistent, Signed;
    NewBlockSound(c, |chain|, prevHash, nonce, merkle);
    LinkedExtends(c, chain, NewBlock(c, |chain|, prevHash, nonce, merkle));
  }

  // ----- the runs

  /** What is hashed for the next block, without its nonce. */
  function NextHeader(c: Context, chain: seq<Block>, data: seq<Text>): Text
    requires chain != []
  {
    HeaderFor(c.digest, ToInt32(|chain|), chain[|chain| - 1].hash, data)
  }

  /** The nonce of the block is the least one that mines it. */
  ghost predicate LeastNonce(c: Context, b: Block) {
    exists n :: 0 <= n < NONCE_LIMIT && b.nonce == Decimal(n) &&
      FirstNonce(c.digest, HeaderFor(c.digest, b.index, b.previousHash, b.data), n)
  }

  /** The two generation loops: the data of the blocks are random and are parameters. */
  method Generate(signer: MyRSA, digest: Text -> Text, blockCount: int32, genesisData: Text, blockData: nat -> seq<Text>)
    returns (bc: BlockChain, failed: bool)
    requires signer.Valid() && IsDigest(digest)
    ensures fresh(bc) && bc.Valid() && bc.signer == signer && bc.digest == digest
    ensures signer.Sound() ==> Linked(bc.TheContext(), bc.blockchain)
    ensures 1 <= |bc.blockchain| && (|bc.blockchain| == 1 || |bc.blockchain| <= blockCount)
    ensures bc.blockchain[0] == GenesisBlock(bc.TheContext(), genesisData)
    ensures forall i :: 1 <= i < |bc.blockchain| ==>
      bc.blockchain[i].data == blockData(i) && LeastNonce(bc.TheContext(), bc.blockchain[i])
    ensures !failed ==> |bc.blockchain| == if blockCount > 1 then blockCount else 1
    ensures failed ==> !Minable(digest, NextHeader(bc.TheContext(), bc.blockchain, blockData(|bc.blockchain|)))
  {
    hide Generated, Linked, LeastNonce, Minable, HeaderFor, GenesisBlock;
    bc := new BlockChain(signer, digest, 0, genesisData);
    failed := false;
    var n := bc.GetNumOfBlocks();
    var i: int := n - 1;
    while i < blockCount - 1
      invariant fresh(bc) && bc.Valid() && bc.signer == signer && bc.digest == digest
      invariant signer.Sound() ==> Linked(bc.TheContext(), bc.blockchain)
      invariant i == |bc.blockchain| - 1 && 1 <= |bc.blockchain| && (|bc.blockchain| == 1 || |bc.blockchain| <= blockCount)
      invariant bc.blockchain[0] == GenesisBlock(bc.TheContext(), genesisData)
      invariant forall k :: 1 <= k < |bc.blockchain| ==>
        bc.blockchain[k].data == blockData(k) && LeastNonce(bc.TheContext(), bc.blockchain[k])
    {
      var added := GenerateBlock(bc, blockData(|bc.blockchain|));
      if !added {
        failed := true;
        break;
      }
      i := i + 1;
    }
  }

  /** One round of a generation loop: a mined nonce is always accepted. */
  method GenerateBlock(bc: BlockChain, data: seq<Text>) returns (added: bool)
    requires bc.Valid() && 1 <= |bc.blockchain| <= 0x7FFF_FFFF
    modifies bc`blockchain
    ensures bc.signer.Sound() && Linked(bc.TheContext(), old(bc.blockchain)) ==> Linked(bc.TheContext(), bc.blockchain)
    ensures added <==> Minable(bc.digest, NextHeader(bc.TheContext(), old(bc.blockchain), data))
    ensures added ==> exists b :: bc.blockchain == old(bc.blockchain) + [b] && b.data == data && LeastNonce(bc.TheContext(), b)
    ensures !added ==> bc.blockchain == old(bc.blockchain)
  {
    hide Generated, Linked, Consistent, Signed, HeaderFor, SignatureText;
    ghost var c, chain := bc.TheContext(), bc.blockchain;
    var prevHash := bc.GetLatestBlockHash();
    var index := bc.GetNumOfBlocks();
    var hash, nonce := FindHash(bc.digest, index, prevHash, data);
    if hash == FAIL {
      MinedIsNotFail(bc.digest);
      return false;
    }
    ghost var b := NewBlock(c, index, prevHash, nonce, data);
    MinedIsLeast(c, index, prevHash, nonce, hash, data);
    if c.Sound() && Linked(c, chain) {
      AddKeepsLinks(c, chain, prevHash, nonce, data);
    }
    var _ := bc.AddBlock(index, prevHash, nonce, data);
    return true;
  }

  lemma MinedIsNotFail(digest: Text -> Text)
    requires IsDigest(digest)
    ensures forall s :: Sha256(digest, s) != FAIL
  {
    forall s ensures Sha256(digest, s) != FAIL {
      Sha256Length(digest, s);
    }
  }

  lemma MinedIsLeast(c: Context, index: int32, prevHash: Text, nonce: Text, hash: Text, data: seq<Text>)
    requires c.Valid() && hash != FAIL
    requires var header := HeaderFor(c.digest, index, prevHash, data);
      exists n :: 0 <= n < NONCE_LIMIT && FirstNonce(c.digest, header, n) &&
        nonce == Decimal(n) && hash == Sha256(c.digest, header + Decimal(n))
    ensures var b := NewBlock(c, index, prevHash, nonce, data); Leads(b.hash) && LeastNonce(c, b)
  {
    hide HeaderFor, SignatureText, Generated, Sha256;
  }
}
