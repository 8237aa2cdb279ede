/**
 The signer `MyRSA`: key generation, signing and verification (the primitives of
 sections 5.2.1 and 5.2.2 of RFC 8017).

 The primes come from a random generator and are parameters here. The code does not
 test that they differ; `RoundTripIffDistinct` shows that it has to hold.
 */
module Rsa {
  import opened Bytes
  import opened NumberTheory

  /** What the signer uses from other libraries: the SHA-256 digest and Base64. */
  datatype Library = Library(digest: Text -> Text, encode: Text -> Text, decode: Text -> Text) {
    ghost predicate Valid() {
      forall t :: decode(encode(t)) == t
    }
  }

  datatype Keys = Keys(p: nat, q: nat, n: nat, phi: nat, e: nat, d: nat)

  const FIRST_EXPONENT := 65537

  /** The equations that generated keys satisfy. */
  ghost predicate Generated(k: Keys) {
    && Prime(k.p) && Prime(k.q)
    && k.n == k.p * k.q
    && k.phi == (k.p - 1) * (k.q - 1)
    && k.e >= FIRST_EXPONENT && Gcd(k.e, k.phi) == 1
    && k.d < k.phi && k.e * k.d % k.phi == 1 % k.phi
  }

  /** Those of keys that sign: the primes differ as well. */
  ghost predicate KeyEquations(k: Keys) {
    Generated(k) && k.p != k.q
  }

  // ----- integers as bytes: `Integer::Decode` is `BytesValue`

  /** `Integer::Encode` with `MinEncodedSize` bytes, of which there is at least one. */
  function ToBytes(x: nat): Text {
    if x < 256 then [x] else ToBytes(x / 256) + [x % 256]
  }

  lemma {:induction false} BytesRoundTrip(x: nat)
    ensures BytesValue(ToBytes(x)) == x
  {
    if x >= 256 {
      BytesRoundTrip(x / 256);
      assert ToBytes(x)[..|ToBytes(x)| - 1] == ToBytes(x / 256);
    } else {
      assert ToBytes(x)[..0] == [];
    }
  }

  // ----- signing and verifying

  /** `a_exp_b_mod_c` */
  function ModPow(a: nat, b: nat, c: nat): nat
    requires c > 0
  {
    Pow(a, b) % c
  }

  /** `hashToIntegerModN` */
  function HashResidue(lib: Library, n: nat, message: Text): nat
    requires n > 0
  {
    BytesValue(lib.digest(message)) % n
  }

  function SignatureResidue(lib: Library, k: Keys, message: Text): nat
    requires k.n > 0
  {
    ModPow(HashResidue(lib, k.n, message), k.d, k.n)
  }

  function SignatureText(lib: Library, k: Keys, message: Text): Text
    requires k.n > 0
  {
    lib.encode(ToBytes(SignatureResidue(lib, k, message)))
  }

  predicate Accepts(lib: Library, k: Keys, message: Text, signature: Text)
    requires k.n > 0
  {
    HashResidue(lib, k.n, message) == ModPow(BytesValue(lib.decode(signature)), k.e, k.n)
  }

  // ----- the class

  class MyRSA {
    const lib: Library
    var p: nat
    var q: nat
    var n: nat
    var phi: nat
    var e: nat
    var d: nat

    function TheKeys(): Keys
      reads this
    {
      Keys(p, q, n, phi, e, d)
    }

    ghost predicate Valid()
      reads this
    {
      lib.Valid() && Generated(TheKeys())
    }

    /** What the code leaves to chance: that the two primes differ. */
    ghost predicate Sound()
      reads this
    {
      Valid() && p != q
    }

    /** `loadOrGenerateKeys`, when no stored keys are used. The exponent is the first
        odd number from 65537 on that is coprime to phi. */
    constructor (lib: Library, prime1: nat, prime2: nat)
      requires lib.Valid() && Prime(prime1) && Prime(prime2)
      ensures Valid() && this.lib == lib && p == prime1 && q == prime2
      ensures e % 2 == 1
      ensures forall c: nat :: FIRST_EXPONENT <= c < e && c % 2 == 1 ==> Gcd(c, phi) != 1
    {
      assert prime1 >= 2 && prime2 >= 2;
      TotientSteps(prime1, prime2);
      hide Gcd, Prime;
      this.lib := lib;
      p := prime1;
      q := prime2;
      n := prime1 * prime2;
      var totient: nat := (prime1 - 1) * (prime2 - 1);
      phi := totient;
      var exponent := FindExponent(totient);
      e := exponent;
      var inverse := InverseMod(exponent, totient);
      d := inverse;
    }

    method Sign(message: Text) returns (signature: Text)
      requires Valid()
      ensures signature == SignatureText(lib, TheKeys(), message)
      ensures Sound() ==> Accepts(lib, TheKeys(), message, signature)
    {
      hide Generated, KeyEquations, Accepts, Pow;
      ModulusPositive(TheKeys());
      var msg := HashResidue(lib, n, message);
      var residue := ModPow(msg, d, n);
      signature := lib.encode(ToBytes(residue));
      if p != q {
        SoundKeys(this);
        SignedMessagesVerify(lib, TheKeys(), message);
      }
    }

    method Verify(message: Text, signature: Text) returns (ok: bool)
      requires Valid()
      ensures ok == Accepts(lib, TheKeys(), message, signature)
      ensures Sound() ==>
        (ok <==> BytesValue(lib.decode(signature)) % n == SignatureResidue(lib, TheKeys(), message))
      ensures ok <==> Pow(BytesValue(lib.decode(signature)), e) % n == BytesValue(lib.digest(message)) % n
      ensures Sound() ==> forall other :: signature == SignatureText(lib, TheKeys(), other) ==>
        (ok <==> BytesValue(lib.digest(other)) % n == BytesValue(lib.digest(message)) % n)
    {
      hide Generated, KeyEquations, Pow, SignatureText, SignatureResidue;
      ModulusPositive(TheKeys());
      var decoded := BytesValue(lib.decode(signature));
      var expected := HashResidue(lib, n, message);
      var recovered := ModPow(decoded, e, n);
      ok := expected == recovered;
      if p != q {
        SoundKeys(this);
        AcceptsIff(lib, TheKeys(), message, signature);
        forall other | signature == SignatureText(lib, TheKeys(), other)
          ensures ok <==> BytesValue(lib.digest(other)) % n == BytesValue(lib.digest(message)) % n
        {
          AcceptsOther(lib, TheKeys(), other, message);
        }
      }
    }
  }

  lemma SoundKeys(signer: MyRSA)
    requires signer.Sound()
    ensures KeyEquations(signer.TheKeys())
  {
  }

  /** The search for the exponent. It ends because it meets a number that is 1 modulo
      phi, at the latest: such a number is coprime to phi. */
  method FindExponent(phi: nat) returns (e: nat)
    requires phi == 1 || (phi % 2 == 0 && phi >= 2)
    ensures e >= FIRST_EXPONENT && e % 2 == 1 && Gcd(e, phi) == 1
    ensures forall c: nat :: FIRST_EXPONENT <= c < e && c % 2 == 1 ==> Gcd(c, phi) != 1
  {
    hide Gcd;
    e := FIRST_EXPONENT;
    ghost var bound := EvenBound(phi);
    while Gcd(e, phi) != 1
      invariant FIRST_EXPONENT <= e <= bound && e % 2 == 1
      invariant forall c: nat :: FIRST_EXPONENT <= c < e && c % 2 == 1 ==> Gcd(c, phi) != 1
      decreases bound - e
    {
      e := e + 2;
    }
  }

  lemma ModulusPositive(k: Keys)
    requires Generated(k)
    ensures k.n > 0
  {
    ProductBounds(k.p, k.q);
  }

  lemma SoundModulus(k: Keys)
    requires KeyEquations(k)
    ensures k.n > 0
  {
    ModulusPositive(k);
  }

  // ----- the exponent search

  lemma OddPrime(p: nat)
    requires Prime(p) && p != 2
    ensures (p - 1) % 2 == 0
  {
    if p % 2 == 0 {
      assert IsProduct(p, 2, p / 2);
      assert Divides(2, p);
    }
  }

  lemma TotientEven(p: nat, q: nat)
    requires Prime(p) && Prime(q) && p != q
    ensures (p - 1) * (q - 1) % 2 == 0 && (p - 1) * (q - 1) >= 2
  {
    if p != 2 {
      OddPrime(p);
      EvenProduct(p - 1, q - 1);
    } else {
      OddPrime(q);
      EvenProduct(q - 1, p - 1);
    }
    ProductBounds(p - 1, q - 1);
    ProductBounds(q - 1, p - 1);
  }

  /** For all primes the search for the exponent ends: phi is even, or 1 for 2 and 2. */
  lemma TotientSteps(p: nat, q: nat)
    requires Prime(p) && Prime(q)
    ensures var phi := (p - 1) * (q - 1); phi == 1 || (phi % 2 == 0 && phi >= 2)
  {
    if p != q {
      TotientEven(p, q);
    } else if p != 2 {
      OddPrime(p);
      EvenProduct(p - 1, p - 1);
      ProductBounds(p - 1, p - 1);
    }
  }

  lemma EvenProduct(a: nat, b: nat)
    requires a % 2 == 0
    ensures a * b % 2 == 0
  {
    var h := a / 2;
    assert a * b == 2 * (h * b);
  }

  /** A multiple of an even number, plus 1, is odd and coprime to that number; every
      number is coprime to 1. */
  lemma EvenBound(totient: nat) returns (bound: nat)
    requires totient == 1 || (totient % 2 == 0 && totient >= 2)
    ensures bound >= FIRST_EXPONENT && bound % 2 == 1 && Gcd(bound, totient) == 1
  {
    bound := 2 * FIRST_EXPONENT * totient + 1;
    var g := Gcd(bound, totient);
    GcdDivides(bound, totient);
    DividesTimes(g, totient, 2 * FIRST_EXPONENT);
    DividesSum(g, bound, 2 * FIRST_EXPONENT * totient);
    var k :| IsProduct(1, g, k);
    if g == 0 {
      assert false;
    }
    DividesBound(g, 1);
  }

  lemma InverseExists(e: nat, phi: nat) returns (d: nat)
    requires phi > 0 && Gcd(e, phi) == 1
    ensures d < phi && e * d % phi == 1 % phi
  {
    hide Gcd;
    if phi == 1 {
      return 0;
    }
    var x, y := Bezout(e, phi);
    d := x % phi;
    InverseAlgebra(e, phi, x, y, x / phi, d);
    DividesOne(e * d, phi, -(y + e * (x / phi)));
  }

  lemma DividesOne(x: int, m: int, k: int)
    requires m > 1 && x - 1 == m * k
    ensures x % m == 1
  {
    assert IsProduct(x - 1, m, k);
    CongruentMod(x, 1, m);
  }

  lemma InverseAlgebra(e: int, phi: int, x: int, y: int, q: int, d: int)
    requires e * x + phi * y == 1 && x == phi * q + d
    ensures e * d - 1 == phi * -(y + e * q)
  {
    calc {
      e * d - 1;
      e * (x - phi * q) - (e * x + phi * y);
      -(phi * y) - e * (phi * q);
      { assert e * (phi * q) == phi * (e * q); }
      -(phi * y) - phi * (e * q);
      phi * -(y + e * q);
    }
  }

  /** `InverseMod`: the inverse modulo phi, which exists because of the exponent search. */
  method InverseMod(e: nat, phi: nat) returns (d: nat)
    requires phi > 0 && Gcd(e, phi) == 1
    ensures d < phi && e * d % phi == 1 % phi
  {
    ghost var w := InverseExists(e, phi);
    d :| 0 <= d < phi && e * d % phi == 1 % phi;
  }

  // ----- signatures verify, and only one residue does

  lemma ModPowTower(x: nat, a: nat, b: nat, n: nat)
    requires n > 0
    ensures ModPow(ModPow(x, a, n), b, n) == Pow(x, a * b) % n
  {
    PowMod(Pow(x, a), b, n);
    PowMul(x, a, b);
  }

  /** If x^c is congruent to x and c == a * b, taking both powers in turn gives x back. */
  lemma TowerFixes(x: nat, a: nat, b: nat, c: nat, n: nat)
    requires n > 0 && x < n && a * b == c && Divides(n, Pow(x, c) - x)
    ensures ModPow(ModPow(x, a, n), b, n) == x
  {
    hide Pow, ModPow, Divides;
    ModPowTower(x, a, b, n);
    CongruentMod(Pow(x, c), x, n);
  }

  lemma NonZero(x: nat, m: nat)
    requires m > 1 && x % m == 1
    ensures x >= 1
  {
  }

  lemma ExponentCongruent(c: nat, phi: nat)
    requires phi > 1 && c % phi == 1
    ensures c >= 1 && Divides(phi, c - 1)
  {
    NonZero(c, phi);
    CongruentMod(c, 1, phi);
  }

  lemma ProductExponent(p: nat, q: nat, n: nat, phi: nat, c: nat, x: nat)
    requires Prime(p) && Prime(q) && p != q && n == p * q && phi == (p - 1) * (q - 1)
    requires phi > 1 && c % phi == 1
    ensures Divides(n, Pow(x, c) - x)
  {
    hide *;
    ExponentCongruent(c, phi);
    RsaExponent(x, p, q, c);
  }

  lemma KeyParts(k: Keys)
    requires KeyEquations(k)
    ensures Prime(k.p) && Prime(k.q) && k.p != k.q && k.n == k.p * k.q && k.phi == (k.p - 1) * (k.q - 1)
    ensures k.phi > 1 && k.e * k.d % k.phi == 1
  {
    hide Prime, Gcd;
    TotientLarge(k.p, k.q);
    RemainderOne(k.e * k.d, k.phi);
  }

  lemma TotientLarge(p: nat, q: nat)
    requires Prime(p) && Prime(q) && p != q
    ensures (p - 1) * (q - 1) > 1
  {
    hide Prime;
    TotientEven(p, q);
  }

  lemma RemainderOne(x: nat, m: nat)
    requires m > 1 && x % m == 1 % m
    ensures x % m == 1
  {
  }

  lemma KeyExponent(k: Keys, x: nat)
    requires KeyEquations(k)
    ensures Divides(k.n, Pow(x, k.e * k.d) - x)
  {
    KeyParts(k);
    hide *;
    ProductExponent(k.p, k.q, k.n, k.phi, k.e * k.d, x);
  }

  /** x^e and x^d modulo n are inverse to each other on all of [0, n). */
  lemma ExponentsInverse(k: Keys, x: nat)
    requires KeyEquations(k) && x < k.n
    ensures k.n > 0
    ensures ModPow(ModPow(x, k.d, k.n), k.e, k.n) == x
    ensures ModPow(ModPow(x, k.e, k.n), k.d, k.n) == x
  {
    hide Pow, ModPow, Divides;
    var c := k.e * k.d;
    assert k.d * k.e == c;
    ModulusPositive(k);
    KeyExponent(k, x);
    TowerFixes(x, k.d, k.e, c, k.n);
    TowerFixes(x, k.e, k.d, c, k.n);
  }

  /** A signature is accepted exactly if it decodes to the residue of `sign`, modulo n. */
  lemma AcceptsIff(lib: Library, k: Keys, message: Text, signature: Text)
    requires lib.Valid() && KeyEquations(k)
    ensures k.n > 0
    ensures Accepts(lib, k, message, signature) <==>
            BytesValue(lib.decode(signature)) % k.n == SignatureResidue(lib, k, message)
  {
    hide Pow, Gcd;
    ModulusPositive(k);
    var h, s := HashResidue(lib, k.n, message), BytesValue(lib.decode(signature));
    PowMod(s, k.e, k.n);
    ExponentsInverse(k, s % k.n);
    ExponentsInverse(k, h);
  }

  /** Every message's signature verifies, also when the hash shares a factor with n. */
  lemma SignedMessagesVerify(lib: Library, k: Keys, message: Text)
    requires lib.Valid() && KeyEquations(k)
    ensures k.n > 0 && Accepts(lib, k, message, SignatureText(lib, k, message))
  {
    hide Pow, Gcd, KeyEquations, Accepts, ToBytes, BytesValue;
    assert k.n > 0 by { SoundModulus(k); }
    var residue := SignatureResidue(lib, k, message);
    var signature := SignatureText(lib, k, message);
    AcceptsIff(lib, k, message, signature);
    BytesRoundTrip(residue);
    assert lib.decode(signature) == ToBytes(residue);
  }

  /** The signature of one message is accepted for another exactly if their digests agree
      modulo n. */
  lemma AcceptsOther(lib: Library, k: Keys, a: Text, b: Text)
    requires lib.Valid() && KeyEquations(k)
    ensures k.n > 0
    ensures Accepts(lib, k, b, SignatureText(lib, k, a)) <==>
            BytesValue(lib.digest(a)) % k.n == BytesValue(lib.digest(b)) % k.n
  {
    assert k.n > 0 by { SoundModulus(k); }
    hide Pow, Gcd, KeyEquations, Accepts, ToBytes, BytesValue;
    var r := SignatureResidue(lib, k, a);
    AcceptsIff(lib, k, b, SignatureText(lib, k, a));
    BytesRoundTrip(r);
    assert lib.decode(SignatureText(lib, k, a)) == ToBytes(r);
    ExponentsInverse(k, HashResidue(lib, k.n, a));
    ExponentsInverse(k, HashResidue(lib, k.n, b));
  }

  // ----- why the primes have to differ

  /** For any two primes and exponents that are inverse modulo (p - 1)(q - 1), signing
      and verifying works for every residue if and only if the primes differ. */
  lemma RoundTripIffDistinct(p: nat, q: nat, e: nat, d: nat)
    requires Prime(p) && Prime(q) && e >= FIRST_EXPONENT
    requires Divides((p - 1) * (q - 1), e * d - 1)
    ensures p * q > 0
    ensures (forall h: nat :: h < p * q ==> ModPow(ModPow(h, d, p * q), e, p * q) == h) <==> p != q
  {
    hide Pow, ModPow;
    var n := p * q;
    ProductBounds(p, q);
    if p != q {
      forall h: nat | h < n ensures ModPow(ModPow(h, d, n), e, n) == h {
        DistinctRoundTrip(p, q, e, d, h);
      }
    } else {
      SquareFails(p, d, e);
      ModPowTower(p, d, e, n);
      assert p * p == p * (p - 1) + p;
      ProductBounds(p, p - 1);
    }
  }

  lemma DistinctRoundTrip(p: nat, q: nat, e: nat, d: nat, h: nat)
    requires Prime(p) && Prime(q) && p != q && h < p * q
    requires Divides((p - 1) * (q - 1), e * d - 1)
    ensures ModPow(ModPow(h, d, p * q), e, p * q) == h
  {
    hide Pow, ModPow, Divides;
    var c := e * d;
    assert d * e == c;
    ExponentPositive(p, q, c);
    RsaExponent(h, p, q, c);
    TowerFixes(h, d, e, c, p * q);
  }

  lemma ExponentPositive(p: nat, q: nat, c: nat)
    requires Prime(p) && Prime(q) && p != q && Divides((p - 1) * (q - 1), c - 1)
    ensures c >= 1
  {
    var k :| IsProduct(c - 1, (p - 1) * (q - 1), k);
    TotientEven(p, q);
    ProductBounds((p - 1) * (q - 1), k);
  }

  /** With p = q the residue p is lost. */
  lemma SquareFails(p: nat, d: nat, e: nat)
    requires Prime(p) && e >= 2
    ensures Pow(p, d * e) % (p * p) != p
  {
    var n := p * p;
    ProductBounds(p, p - 1);
    assert p * p == p * (p - 1) + p;
    if d == 0 {
      assert d * e == 0;
      assert Pow(p, 0) == 1;
      assert 1 % n == 1;
    } else {
      ProductBounds(e, d);
      assert d * e >= 2;
      PowAdd(p, 2, d * e - 2);
      assert Pow(p, 2) == p * (p * Pow(p, 0)) == n;
      Multiple(n, Pow(p, d * e - 2));
      CongruentMod(Pow(p, d * e), 0, n);
    }
  }
}
