/**
 A chain is bound by its last hash: another linked chain of the same shape that ends with
 the same hash holds the same blocks, or a collision of SHA-256 has been found.
 */
module ChainBinding {
  import opened Bytes
  import opened Merkle
  import opened Chain

  /** `s` is hashed for the block: it is the header, or is hashed for the Merkle root. */
  ghost predicate HashedBy(c: Context, b: Block, s: Text) {
    s == b.header || HashedFor(c.digest, b.data, s)
  }

  ghost predicate HashedIn(c: Context, chain: seq<Block>, s: Text) {
    exists i :: 0 <= i < |chain| && HashedBy(c, chain[i], s)
  }

  /** All but the signature, which is not hashed. */
  predicate SameBlock(a: Block, b: Block) {
    && a.index == b.index && a.previousHash == b.previousHash && a.hash == b.hash
    && a.nonce == b.nonce && a.data == b.data && a.header == b.header
  }

  /** The lengths that the root and the hashes do not bind: those of the lists of data, and
      that of the text that stands for the hash before the first block. */
  predicate SameShape(a: seq<Block>, b: seq<Block>) {
    && |a| == |b|
    && (a != [] && b != [] ==> |a[0].previousHash| == |b[0].previousHash|)
    && forall i :: 0 <= i < |a| && i < |b| ==> |a[i].data| == |b[i].data|
  }

  lemma RootLength(digest: Text -> Text, leaves: seq<Text>)
    requires IsDigest(digest)
    ensures |MerkleRoot(digest, leaves)| == if leaves == [] then 0 else 64
  {
    if leaves == [] {
    } else if |leaves| == 1 {
      Sha256Length(digest, leaves[0]);
    } else {
      LevelLength(digest, leaves, leaves[|leaves| - 1]);
    }
  }

  lemma {:induction false} LevelLength(digest: Text -> Text, level: seq<Text>, last: Text)
    requires IsDigest(digest) && |level| > 1
    ensures |Root(digest, level, last)| == 64
    decreases |level|
  {
    hide Root, Sha256, Padded;
    RootStep(digest, level, last);
    var above := Above(digest, level, last);
    if |above| == 1 {
      OneNode(digest, above, last);
      var p := Padded(level, last);
      assert above[0] == Sha256(digest, Sha256(digest, p[0]) + Sha256(digest, p[1]));
      Sha256Length(digest, Sha256(digest, p[0]) + Sha256(digest, p[1]));
    } else {
      LevelLength(digest, above, last);
    }
  }

  /** Four texts one after the other, of which the first three have known lengths. */
  lemma SplitFour(a: Text, b: Text, c: Text, d: Text, a': Text, b': Text, c': Text, d': Text)
    requires |a| == |a'| && |b| == |b'| && |c| == |c'|
    requires a + b + c + d == a' + b' + c' + d'
    ensures a == a' && b == b' && c == c' && d == d'
  {
    ConcatSplit(a + b + c, d, a' + b' + c', d');
    ConcatSplit(a + b, c, a' + b', c');
    ConcatSplit(a, b, a', b');
  }

  /** Two blocks with one index and one hash. */
  lemma BlockBinding(c: Context, a: Block, b: Block) returns (s: Text, t: Text)
    requires IsDigest(c.digest) && Consistent(c, a) && Consistent(c, b)
    requires a.index == b.index && a.hash == b.hash
    requires |a.previousHash| == |b.previousHash| && |a.data| == |b.data|
    ensures SameBlock(a, b) || (Collision(c.digest, s, t) && HashedBy(c, a, s) && HashedBy(c, b, t))
  {
    hide Numeral, MerkleRoot, Sha256, HashedFor;
    if a.header != b.header {
      s, t := a.header, b.header;
    } else {
      RootLength(c.digest, a.data);
      RootLength(c.digest, b.data);
      SplitFour(Numeral(a.index), a.previousHash, MerkleRoot(c.digest, a.data), a.nonce,
        Numeral(b.index), b.previousHash, MerkleRoot(c.digest, b.data), b.nonce);
      s, t := MerkleBinding(c.digest, a.data, b.data);
    }
  }

  lemma LinkedPrefix(c: Context, chain: seq<Block>, n: nat)
    requires c.keys.n > 0 && Linked(c, chain) && n <= |chain|
    ensures Linked(c, chain[..n])
  {
    hide Consistent, Signed;
    forall i | 0 <= i < n
      ensures Follows(chain[..n], i) && Consistent(c, chain[..n][i]) && Signed(c, chain[..n][i])
    {
      assert Follows(chain, i);
    }
  }

  lemma LastBlock(c: Context, chain: seq<Block>)
    requires c.keys.n > 0 && Linked(c, chain) && chain != []
    ensures var n := |chain| - 1;
      chain[n].index == n && Consistent(c, chain[n]) && (n > 0 ==> chain[n].previousHash == chain[n - 1].hash)
  {
    hide Consistent, Signed;
    assert Follows(chain, |chain| - 1);
  }

  lemma HashLength(c: Context, b: Block)
    requires IsDigest(c.digest) && Consistent(c, b)
    ensures |b.hash| == 64
  {
    Sha256Length(c.digest, b.header);
  }

  /** Two linked chains of the same shape with the same last hash hold the same blocks, or
      two different strings with the same SHA-256 were hashed for the one and the other. */
  lemma {:induction false} ChainsBinding(c: Context, a: seq<Block>, b: seq<Block>) returns (s: Text, t: Text)
    requires c.keys.n > 0 && IsDigest(c.digest) && Linked(c, a) && Linked(c, b) && SameShape(a, b)
    requires a != [] && a[|a| - 1].hash == b[|b| - 1].hash
    ensures (forall i :: 0 <= i < |a| ==> SameBlock(a[i], b[i])) ||
      (Collision(c.digest, s, t) && HashedIn(c, a, s) && HashedIn(c, b, t))
    decreases |a|
  {
    hide Linked, Consistent, Signed, HashedBy, Collision;
    var n := |a| - 1;
    LastBlock(c, a);
    LastBlock(c, b);
    if n > 0 {
      LinkedPrefix(c, a, n);
      LinkedPrefix(c, b, n);
      LastBlock(c, a[..n]);
      LastBlock(c, b[..n]);
      HashLength(c, a[n - 1]);
      HashLength(c, b[n - 1]);
    }
    s, t := BlockBinding(c, a[n], b[n]);
    if SameBlock(a[n], b[n]) && n > 0 {
      s, t := ChainsBinding(c, a[..n], b[..n]);
      if !forall i :: 0 <= i < n ==> SameBlock(a[..n][i], b[..n][i]) {
        HashedLonger(c, a, n, s);
        HashedLonger(c, b, n, t);
      }
    }
  }

  lemma HashedLonger(c: Context, chain: seq<Block>, n: nat, s: Text)
    requires n <= |chain| && HashedIn(c, chain[..n], s)
    ensures HashedIn(c, chain, s)
  {
    var i :| 0 <= i < |chain[..n]| && HashedBy(c, chain[..n][i], s);
    assert chain[i] == chain[..n][i];
  }
}
