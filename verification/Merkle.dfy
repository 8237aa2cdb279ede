/**
 The Merkle root of a list of strings and the search for a nonce.

 SHA-256 itself is a parameter, `digest`, of which only the length of its results is used.
 */
module Merkle {
  import opened Bytes
  import opened Json

  const DIGEST_LENGTH := 32

  ghost predicate IsDigest(digest: Text -> Text) {
    forall s :: |digest(s)| == DIGEST_LENGTH
  }

  // ----- the digest in hexadecimal

  function Hex(bytes: Text): (s: Text)
    ensures |s| == 2 * |bytes|
  {
    if bytes == [] then [] else [HexDigitOf(bytes[0] / 16), HexDigitOf(bytes[0] % 16)] + Hex(bytes[1..])
  }

  lemma {:induction false} HexInjective(a: Text, b: Text)
    requires Hex(a) == Hex(b)
    ensures a == b
  {
    if a != [] {
      assert Hex(a)[..2] == Hex(b)[..2];
      assert Hex(a)[0] == Hex(b)[0] && Hex(a)[1] == Hex(b)[1];
      assert a[0] == 16 * (a[0] / 16) + a[0] % 16;
      assert Hex(a)[2..] == Hex(b)[2..];
      HexInjective(a[1..], b[1..]);
      assert a == [a[0]] + a[1..] && b == [b[0]] + b[1..];
    }
  }

  lemma {:induction false} HexAt(bytes: Text, i: nat)
    requires i < |bytes|
    ensures Hex(bytes)[2 * i] == LOWER_DIGITS[bytes[i] / 16] && Hex(bytes)[2 * i + 1] == LOWER_DIGITS[bytes[i] % 16]
  {
    if i > 0 {
      HexAt(bytes[1..], i - 1);
      assert Hex(bytes)[2..] == Hex(bytes[1..]);
    }
  }

  function Sha256(digest: Text -> Text, s: Text): Text {
    Hex(digest(s))
  }

  lemma Sha256Length(digest: Text -> Text, s: Text)
    requires IsDigest(digest)
    ensures |Sha256(digest, s)| == 64
  {
  }

  /** `sha256`: two hexadecimal digits for each of the 32 bytes. */
  method HashString(digest: Text -> Text, s: Text) returns (r: Text)
    requires IsDigest(digest)
    ensures r == Sha256(digest, s) && |r| == 64
  {
    var hash := digest(s);
    r := [];
    assert hash[0..] == hash;
    for i := 0 to DIGEST_LENGTH
      invariant r + Hex(hash[i..]) == Hex(hash)
    {
      assert hash[i..][1..] == hash[i + 1..];
      r := r + [HexDigitOf(hash[i] / 16)] + [HexDigitOf(hash[i] % 16)];
    }
  }

  // ----- the root

  /** Two different strings with the same SHA-256. */
  ghost predicate Collision(digest: Text -> Text, s: Text, t: Text) {
    s != t && Sha256(digest, s) == Sha256(digest, t)
  }

  function Parent(digest: Text -> Text, left: Text, right: Text): Text {
    Sha256(digest, Sha256(digest, left) + Sha256(digest, right))
  }

  /** A level of odd length is filled up with the last of the original leaves. */
  function Padded(level: seq<Text>, last: Text): (r: seq<Text>)
    ensures |r| % 2 == 0
  {
    if |level| % 2 == 1 then level + [last] else level
  }

  function Parents(digest: Text -> Text, level: seq<Text>): (r: seq<Text>)
    requires |level| % 2 == 0
    ensures |r| == |level| / 2
  {
    seq(|level| / 2, i requires 0 <= i < |level| / 2 => Parent(digest, level[2 * i], level[2 * i + 1]))
  }

  /** The next level. */
  function Above(digest: Text -> Text, level: seq<Text>, last: Text): (r: seq<Text>)
    ensures |r| == (|level| + 1) / 2
  {
    Parents(digest, Padded(level, last))
  }

  function Root(digest: Text -> Text, level: seq<Text>, last: Text): Text
    requires level != []
    decreases |level|
  {
    if |level| == 1 then level[0] else Root(digest, Above(digest, level, last), last)
  }

  lemma RootStep(digest: Text -> Text, level: seq<Text>, last: Text)
    requires |level| > 1
    ensures Root(digest, level, last) == Root(digest, Above(digest, level, last), last)
  {
    hide Parents, Padded;
  }

  function MerkleRoot(digest: Text -> Text, leaves: seq<Text>): Text {
    if leaves == [] then []
    else if |leaves| == 1 then Sha256(digest, leaves[0])
    else Root(digest, leaves, leaves[|leaves| - 1])
  }

  /** The number of levels above one of `n` nodes. */
  function Rounds(n: nat): nat {
    if n <= 1 then 0 else 1 + Rounds((n + 1) / 2)
  }

  /** The rounds are the logarithm of `n` to base 2, rounded up. */
  lemma {:induction false} RoundsIsLogarithm(n: nat)
    requires n > 0
    ensures n <= Pow2(Rounds(n))
    ensures n > 1 ==> Rounds(n) > 0 && Pow2(Rounds(n) - 1) < n
  {
    if n > 1 {
      RoundsIsLogarithm((n + 1) / 2);
      assert Pow2(Rounds(n)) == 2 * Pow2(Rounds((n + 1) / 2));
    }
  }

  /** `getMerkleRoot`: replaces the level by that of its parents until one node is left. */
  method GetMerkleRoot(digest: Text -> Text, merkle: seq<Text>) returns (root: Text, ghost rounds: nat)
    requires IsDigest(digest)
    ensures root == MerkleRoot(digest, merkle)
    ensures rounds == Rounds(|merkle|)
  {
    rounds := 0;
    if merkle == [] {
      return [], 0;
    } else if |merkle| == 1 {
      root := HashString(digest, merkle[0]);
      return;
    }
    hide Root, Parents, Parent;
    var last := merkle[|merkle| - 1];
    var level := merkle;
    while |level| > 1
      invariant level != [] && Root(digest, level, last) == MerkleRoot(digest, merkle)
      invariant rounds + Rounds(|level|) == Rounds(|merkle|)
      decreases |level|
    {
      RootStep(digest, level, last);
      if |level| % 2 == 1 {
        level := level + [last];
      }
      level := OneLevel(digest, level);
      rounds := rounds + 1;
    }
    OneNode(digest, level, last);
    root := level[0];
  }

  lemma OneNode(digest: Text -> Text, level: seq<Text>, last: Text)
    requires |level| == 1
    ensures Root(digest, level, last) == level[0]
  {
  }

  /** The loop over the pairs of a level. */
  method OneLevel(digest: Text -> Text, level: seq<Text>) returns (result: seq<Text>)
    requires IsDigest(digest) && |level| % 2 == 0
    ensures result == Parents(digest, level)
  {
    result := [];
    var i := 0;
    while i < |level|
      invariant 0 <= i <= |level| && i % 2 == 0
      invariant result == Parents(digest, level)[..i / 2]
    {
      var var1 := HashString(digest, level[i]);
      var var2 := HashString(digest, level[i + 1]);
      var hash := HashString(digest, var1 + var2);
      assert 2 * (i / 2) == i;
      result := result + [hash];
      i := i + 2;
    }
  }

  // ----- the padding rule

  /** Appending the last leaf once more to a list of odd length, three or more, gives a
      different list with the same root. */
  lemma RepeatedLastLeaf(digest: Text -> Text, leaves: seq<Text>)
    requires |leaves| % 2 == 1 && |leaves| >= 3
    ensures var longer := leaves + [leaves[|leaves| - 1]];
      longer != leaves && MerkleRoot(digest, longer) == MerkleRoot(digest, leaves)
  {
    var last := leaves[|leaves| - 1];
    assert Padded(leaves + [last], last) == Padded(leaves, last);
  }

  // ----- binding

  /** What is hashed to get from a padded level to its parents. */
  ghost predicate LevelInput(digest: Text -> Text, level: seq<Text>, s: Text)
    requires |level| % 2 == 0
  {
    s in level ||
    exists i :: 0 <= i < |level| / 2 && s == Sha256(digest, level[2 * i]) + Sha256(digest, level[2 * i + 1])
  }

  /** `s` is hashed on the way from `level` to the root. */
  ghost predicate Hashed(digest: Text -> Text, level: seq<Text>, last: Text, s: Text)
    decreases |level|
  {
    |level| > 1 &&
    (LevelInput(digest, Padded(level, last), s) || Hashed(digest, Above(digest, level, last), last, s))
  }

  /** `s` is hashed by `getMerkleRoot`. */
  ghost predicate HashedFor(digest: Text -> Text, leaves: seq<Text>, s: Text) {
    if |leaves| <= 1 then s in leaves else Hashed(digest, leaves, leaves[|leaves| - 1], s)
  }

  lemma ConcatSplit(a: Text, b: Text, c: Text, d: Text)
    requires |a| == |c| && a + b == c + d
    ensures a == c && b == d
  {
    assert (a + b)[..|a|] == a && (c + d)[..|c|] == c;
    assert (a + b)[|a|..] == b && (c + d)[|c|..] == d;
  }

  /** Different children with the same parent give a collision of what was hashed for it. */
  lemma ParentCollision(digest: Text -> Text, a: Text, b: Text, c: Text, d: Text) returns (s: Text, t: Text)
    requires IsDigest(digest) && Parent(digest, a, b) == Parent(digest, c, d) && (a != c || b != d)
    ensures Collision(digest, s, t)
    ensures (s == a && t == c) || (s == b && t == d) ||
      (s == Sha256(digest, a) + Sha256(digest, b) && t == Sha256(digest, c) + Sha256(digest, d))
  {
    hide Sha256;
    s, t := Sha256(digest, a) + Sha256(digest, b), Sha256(digest, c) + Sha256(digest, d);
    if s == t {
      Sha256Length(digest, a);
      Sha256Length(digest, c);
      ConcatSplit(Sha256(digest, a), Sha256(digest, b), Sha256(digest, c), Sha256(digest, d));
      if a != c { s, t := a, c; } else { s, t := b, d; }
    }
  }

  /** Two levels that differ but have the same parents hash a collision. */
  lemma ParentsBinding(digest: Text -> Text, xs: seq<Text>, ys: seq<Text>) returns (s: Text, t: Text)
    requires IsDigest(digest) && |xs| == |ys| && |xs| % 2 == 0 && xs != ys
    requires Parents(digest, xs) == Parents(digest, ys)
    ensures Collision(digest, s, t) && LevelInput(digest, xs, s) && LevelInput(digest, ys, t)
  {
    hide Parent, Collision, Sha256;
    var k :| 0 <= k < |xs| && xs[k] != ys[k];
    var i := k / 2;
    assert k == 2 * i || k == 2 * i + 1;
    assert Parent(digest, xs[2 * i], xs[2 * i + 1]) == Parents(digest, xs)[i] == Parents(digest, ys)[i];
    s, t := ParentCollision(digest, xs[2 * i], xs[2 * i + 1], ys[2 * i], ys[2 * i + 1]);
  }

  lemma {:induction false} LevelBinding(digest: Text -> Text, xs: seq<Text>, ys: seq<Text>, x: Text, y: Text)
    returns (s: Text, t: Text)
    requires IsDigest(digest) && |xs| == |ys| > 0 && xs != ys
    requires Root(digest, xs, x) == Root(digest, ys, y)
    ensures Collision(digest, s, t) && Hashed(digest, xs, x, s) && Hashed(digest, ys, y, t)
    decreases |xs|
  {
    hide Root, Parents, Collision, LevelInput;
    if |xs| == 1 {
      OneNode(digest, xs, x);
      OneNode(digest, ys, y);
      assert false;
    } else {
      var px, py := Padded(xs, x), Padded(ys, y);
      RootStep(digest, xs, x);
      RootStep(digest, ys, y);
      if Above(digest, xs, x) != Above(digest, ys, y) {
        s, t := LevelBinding(digest, Above(digest, xs, x), Above(digest, ys, y), x, y);
      } else {
        assert px[..|xs|] == xs && py[..|ys|] == ys;
        s, t := ParentsBinding(digest, px, py);
      }
    }
  }

  /** Two lists of equal length with the same root are equal, or a collision of SHA-256
      can be exhibited among the strings hashed for the one and for the other. */
  lemma MerkleBinding(digest: Text -> Text, a: seq<Text>, b: seq<Text>) returns (s: Text, t: Text)
    requires IsDigest(digest) && |a| == |b| && MerkleRoot(digest, a) == MerkleRoot(digest, b)
    ensures a == b || (Collision(digest, s, t) && HashedFor(digest, a, s) && HashedFor(digest, b, t))
  {
    s, t := [], [];
    if a != b {
      if |a| == 1 {
        s, t := a[0], b[0];
      } else {
        s, t := LevelBinding(digest, a, b, a[|a| - 1], b[|b| - 1]);
      }
    }
  }

  // ----- mining

  const NONCE_LIMIT := 100000
  const FAIL: Text := [0x66, 0x61, 0x69, 0x6C]

  /** The hash begins with "00". */
  predicate Leads(hash: Text) {
    |hash| >= 2 && hash[..2] == [0x30, 0x30]
  }

  /** It does so if and only if the first byte of the digest is zero. */
  lemma LeadsIff(digest: Text -> Text, s: Text)
    requires IsDigest(digest)
    ensures Leads(Sha256(digest, s)) <==> digest(s)[0] == 0
  {
    HexAt(digest(s), 0);
    var h := Sha256(digest, s);
    assert h[..2] == [h[0], h[1]];
  }

  function HeaderFor(digest: Text -> Text, index: int, prevHash: Text, merkle: seq<Text>): Text {
    Numeral(index) + prevHash + MerkleRoot(digest, merkle)
  }

  predicate Mines(digest: Text -> Text, header: Text, nonce: nat) {
    Leads(Sha256(digest, header + Decimal(nonce)))
  }

  /** `nonce` is the first number that mines the header. */
  predicate FirstNonce(digest: Text -> Text, header: Text, nonce: nat) {
    Mines(digest, header, nonce) && forall m :: 0 <= m < nonce ==> !Mines(digest, header, m)
  }

  ghost predicate Minable(digest: Text -> Text, header: Text) {
    exists n: nat :: n < NONCE_LIMIT && Mines(digest, header, n)
  }

  /** The nonce that `findHash` gives. */
  ghost function FoundNonce(digest: Text -> Text, header: Text): Text {
    if exists n: nat :: n < NONCE_LIMIT && FirstNonce(digest, header, n) then
      var n: nat :| n < NONCE_LIMIT && FirstNonce(digest, header, n);
      Decimal(n)
    else
      FAIL
  }

  lemma {:induction false} LeastMining(digest: Text -> Text, header: Text, n: nat) returns (m: nat)
    requires Mines(digest, header, n)
    ensures m <= n && FirstNonce(digest, header, m)
    decreases n
  {
    m := n;
    if !FirstNonce(digest, header, n) {
      var k: nat :| k < n && Mines(digest, header, k);
      m := LeastMining(digest, header, k);
    }
  }

  /** It is the least number that mines the header, or "fail" exactly if none below the
      limit does. */
  lemma FoundNonceIs(digest: Text -> Text, header: Text, nonce: Text)
    ensures nonce == FoundNonce(digest, header) <==>
      if Minable(digest, header) then exists n: nat :: n < NONCE_LIMIT && FirstNonce(digest, header, n) && nonce == Decimal(n)
      else nonce == FAIL
  {
    hide Decimal, Mines;
    if Minable(digest, header) {
      var n: nat :| n < NONCE_LIMIT && Mines(digest, header, n);
      var m := LeastMining(digest, header, n);
      assert m < NONCE_LIMIT && FirstNonce(digest, header, m);
      forall k: nat | FirstNonce(digest, header, k) ensures k == m {
      }
    }
  }

  /** `findHash`: the least nonce below the limit whose hash leads with "00", or failure
      if there is none. */
  method FindHash(digest: Text -> Text, index: int, prevHash: Text, merkle: seq<Text>)
    returns (blockHash: Text, nonceText: Text)
    requires IsDigest(digest)
    ensures var header := HeaderFor(digest, index, prevHash, merkle);
      (blockHash == FAIL && nonceText == FAIL && forall n :: 0 <= n < NONCE_LIMIT ==> !Mines(digest, header, n)) ||
      exists n :: 0 <= n < NONCE_LIMIT && FirstNonce(digest, header, n) &&
        nonceText == Decimal(n) && blockHash == Sha256(digest, header + Decimal(n))
    ensures nonceText == FoundNonce(digest, HeaderFor(digest, index, prevHash, merkle))
  {
    hide FoundNonce;
    var root, _ := GetMerkleRoot(digest, merkle);
    var header := Numeral(index) + prevHash + root;
    var nonce := 0;
    while nonce < NONCE_LIMIT
      invariant 0 <= nonce <= NONCE_LIMIT
      invariant forall m :: 0 <= m < nonce ==> !Mines(digest, header, m)
    {
      blockHash := HashString(digest, header + Decimal(nonce));
      if blockHash[..2] == [0x30, 0x30] {
        assert FirstNonce(digest, header, nonce);
        FoundNonceIs(digest, header, Decimal(nonce));
        return blockHash, Decimal(nonce);
      }
      nonce := nonce + 1;
    }
    FoundNonceIs(digest, header, FAIL);
    return FAIL, FAIL;
  }
}
