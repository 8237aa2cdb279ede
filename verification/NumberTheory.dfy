/** The number theory behind RSA: Euclid's lemma, Fermat's little theorem, and the
    combination of two prime moduli. */
module NumberTheory {

  // ----- divisibility

  predicate IsProduct(n: int, d: int, k: int) {
    n == d * k
  }

  ghost predicate Divides(d: int, n: int) {
    exists k :: IsProduct(n, d, k)
  }

  lemma Multiple(d: int, k: int)
    ensures Divides(d, d * k)
  {
    assert IsProduct(d * k, d, k);
  }

  lemma DividesSum(d: int, a: int, b: int)
    requires Divides(d, a) && Divides(d, b)
    ensures Divides(d, a + b) && Divides(d, a - b)
  {
    var i :| IsProduct(a, d, i);
    var j :| IsProduct(b, d, j);
    assert IsProduct(a + b, d, i + j);
    assert IsProduct(a - b, d, i - j);
  }

  lemma DividesTimes(d: int, a: int, x: int)
    requires Divides(d, a)
    ensures Divides(d, a * x) && Divides(d, x * a)
  {
    var i :| IsProduct(a, d, i);
    assert a * x == d * (i * x);
    assert IsProduct(a * x, d, i * x);
  }

  lemma DividesBound(d: int, n: int)
    requires d > 0 && n > 0 && Divides(d, n)
    ensures d <= n
  {
    var k :| IsProduct(n, d, k);
    ProductBounds(d, k);
  }

  lemma ProductBounds(d: int, k: int)
    requires d > 0
    ensures k >= 1 ==> d * k >= d
    ensures k == 0 ==> d * k == 0
    ensures k <= -1 ==> d * k <= -d
  {
  }

  lemma ModDivides(a: int, m: int)
    requires m > 0
    ensures Divides(m, a - a % m)
  {
    assert IsProduct(a - a % m, m, a / m);
  }

  /** Remainders below the modulus are equal if the modulus divides the difference. */
  lemma SmallDifference(x: int, y: int, m: int)
    requires 0 <= x < m && 0 <= y < m && Divides(m, x - y)
    ensures x == y
  {
    var k :| IsProduct(x - y, m, k);
    ProductBounds(m, k);
  }

  lemma CongruentMod(a: int, b: int, m: int)
    requires m > 0
    ensures Divides(m, a - b) <==> a % m == b % m
  {
    ModDivides(a, m);
    ModDivides(b, m);
    if Divides(m, a - b) {
      DividesSum(m, a - b, a - a % m);
      DividesSum(m, a - b - (a - a % m), b - b % m);
      assert a - b - (a - a % m) + (b - b % m) == a % m - b % m;
      SmallDifference(a % m, b % m, m);
    }
    if a % m == b % m {
      DividesSum(m, a - a % m, b - b % m);
    }
  }

  // ----- greatest common divisors

  function Gcd(a: nat, b: nat): nat
    decreases b
  {
    if b == 0 then a else Gcd(b, a % b)
  }

  lemma {:induction false} GcdDivides(a: nat, b: nat)
    ensures Divides(Gcd(a, b), a) && Divides(Gcd(a, b), b)
    decreases b
  {
    if b == 0 {
      assert IsProduct(a, a, 1) && IsProduct(0, a, 0);
    } else {
      var g, q, r := Gcd(a, b), a / b, a % b;
      GcdDivides(b, r);
      assert g == Gcd(b, r);
      DividesTimes(g, b, q);
      DividesSum(g, b * q, r);
      assert a == b * q + r;
    }
  }

  lemma {:induction false} Bezout(a: nat, b: nat) returns (x: int, y: int)
    ensures a * x + b * y == Gcd(a, b)
    decreases b
  {
    if b == 0 {
      x, y := 1, 0;
    } else {
      var u, v := Bezout(b, a % b);
      var q := a / b;
      x, y := v, u - q * v;
      calc {
        a * x + b * y;
        a * v + b * u - b * (q * v);
        { assert b * (q * v) == (b * q) * v; }
        b * u + (a - b * q) * v;
      }
    }
  }

  // ----- primes

  ghost predicate Prime(p: int) {
    p >= 2 && forall d :: 2 <= d < p ==> !Divides(d, p)
  }

  lemma PrimeDivisor(p: int, d: int)
    requires Prime(p) && d > 0 && Divides(d, p)
    ensures d == 1 || d == p
  {
    DividesBound(d, p);
  }

  lemma EuclidLemma(p: int, a: nat, b: int)
    requires Prime(p) && Divides(p, a * b)
    ensures Divides(p, a) || Divides(p, b)
  {
    var g := Gcd(p, a);
    GcdDivides(p, a);
    if g == 0 {
      var k :| IsProduct(p, 0, k);
      assert false;
    }
    PrimeDivisor(p, g);
    if g == 1 {
      var x, y := Bezout(p, a);
      calc {
        b;
        (p * x + a * y) * b;
        p * x * b + (a * y) * b;
        { assert (a * y) * b == (a * b) * y; assert p * x * b == p * (x * b); }
        p * (x * b) + (a * b) * y;
      }
      Multiple(p, x * b);
      DividesTimes(p, a * b, y);
      DividesSum(p, p * (x * b), (a * b) * y);
    }
  }

  lemma DistinctPrimes(p: int, q: int, x: int)
    requires Prime(p) && Prime(q) && p != q
    requires Divides(p, x) && Divides(q, x)
    ensures Divides(p * q, x)
  {
    var a :| IsProduct(x, p, a);
    EuclidLemma(q, p, a);
    if Divides(q, p) {
      PrimeDivisor(p, q);
    }
    var b :| IsProduct(a, q, b);
    assert p * (q * b) == (p * q) * b;
    assert IsProduct(x, p * q, b);
  }

  // ----- powers

  function Pow(b: int, n: nat): int {
    if n == 0 then 1 else b * Pow(b, n - 1)
  }

  lemma {:induction false} PowAdd(b: int, m: nat, n: nat)
    ensures Pow(b, m + n) == Pow(b, m) * Pow(b, n)
  {
    if m > 0 {
      PowAdd(b, m - 1, n);
      assert b * (Pow(b, m - 1) * Pow(b, n)) == (b * Pow(b, m - 1)) * Pow(b, n);
    }
  }

  lemma {:induction false} PowMul(b: int, m: nat, n: nat)
    ensures Pow(Pow(b, m), n) == Pow(b, m * n)
  {
    if n > 0 {
      PowMul(b, m, n - 1);
      PowAdd(b, m, m * (n - 1));
      assert m + m * (n - 1) == m * n;
    }
  }

  lemma {:induction false} PowNonnegative(b: nat, n: nat)
    ensures Pow(b, n) >= 0
  {
    if n > 0 { PowNonnegative(b, n - 1); }
  }

  /** Congruent bases have congruent powers. */
  lemma {:induction false} PowCongruent(a: int, b: int, n: nat, m: int)
    requires Divides(m, a - b)
    ensures Divides(m, Pow(a, n) - Pow(b, n))
  {
    if n == 0 {
      Multiple(m, 0);
    } else {
      var x, y := Pow(a, n - 1), Pow(b, n - 1);
      PowCongruent(a, b, n - 1, m);
      DividesTimes(m, x - y, a);
      DividesTimes(m, a - b, y);
      DividesSum(m, a * (x - y), (a - b) * y);
      assert a * (x - y) + (a - b) * y == a * x - b * y;
    }
  }

  lemma PowMod(a: int, n: nat, m: int)
    requires m > 0
    ensures Pow(a % m, n) % m == Pow(a, n) % m
  {
    ModDivides(a, m);
    PowCongruent(a, a % m, n, m);
    CongruentMod(Pow(a, n), Pow(a % m, n), m);
  }

  // ----- binomial coefficients

  function Choose(n: nat, k: nat): nat {
    if k == 0 then 1
    else if n == 0 then 0
    else Choose(n - 1, k - 1) + Choose(n - 1, k)
  }

  lemma {:induction false} ChooseAbove(n: nat, k: nat)
    requires k > n
    ensures Choose(n, k) == 0
  {
    if n > 0 {
      ChooseAbove(n - 1, k - 1);
      ChooseAbove(n - 1, k);
    }
  }

  lemma {:induction false} ChooseSelf(n: nat)
    ensures Choose(n, n) == 1
  {
    if n > 0 {
      ChooseSelf(n - 1);
      ChooseAbove(n - 1, n);
    }
  }

  lemma {:induction false} Absorption(n: nat, k: nat)
    requires n >= 1 && k >= 1
    ensures k * Choose(n, k) == n * Choose(n - 1, k - 1)
  {
    var a, b := Choose(n - 1, k - 1), Choose(n - 1, k);
    assert Choose(n, k) == a + b;
    if n == 1 {
      assert b == 0;
      if k > 1 { ChooseAbove(0, k - 1); }
    } else {
      Absorption(n - 1, k);
      if k == 1 {
        assert a == 1 && Choose(n - 2, 0) == 1;
      } else {
        Absorption(n - 1, k - 1);
        AbsorptionStep(n, k, a, b, Choose(n - 2, k - 2), Choose(n - 2, k - 1));
      }
    }
  }

  lemma AbsorptionStep(n: int, k: int, a: int, b: int, c: int, d: int)
    requires a == c + d && (k - 1) * a == (n - 1) * c && k * b == (n - 1) * d
    ensures k * (a + b) == n * a
  {
    calc {
      k * (a + b);
      a + (k - 1) * a + k * b;
      a + ((n - 1) * c + (n - 1) * d);
      a + (n - 1) * (c + d);
      n * a;
    }
  }

  lemma PrimeDividesChoose(p: int, k: nat)
    requires Prime(p) && 0 < k < p
    ensures Divides(p, Choose(p, k))
  {
    Absorption(p, k);
    Multiple(p, Choose(p - 1, k - 1));
    EuclidLemma(p, k, Choose(p, k));
    if Divides(p, k) { DividesBound(p, k); }
  }

  /** The first `k` terms of the expansion of (a + 1)^n. */
  function Expansion(a: int, n: nat, k: nat): int {
    if k == 0 then 0 else Expansion(a, n, k - 1) + Choose(n, k - 1) * Pow(a, k - 1)
  }

  lemma {:induction false} ExpansionStep(a: int, n: nat, k: nat)
    ensures Expansion(a, n + 1, k + 1) == Expansion(a, n, k + 1) + a * Expansion(a, n, k)
  {
    if k == 0 {
      assert Expansion(a, n + 1, 1) == Expansion(a, n + 1, 0) + Choose(n + 1, 0) * Pow(a, 0);
      assert Expansion(a, n, 1) == Expansion(a, n, 0) + Choose(n, 0) * Pow(a, 0);
    } else {
      ExpansionStep(a, n, k - 1);
      ExpansionAlgebra(Expansion(a, n, k), Expansion(a, n, k - 1), a, Choose(n, k - 1), Choose(n, k), Pow(a, k - 1));
    }
  }

  lemma ExpansionAlgebra(s: int, t: int, a: int, c: int, d: int, w: int)
    ensures s + a * t + (c + d) * (a * w) == s + d * (a * w) + a * (t + c * w)
  {
    assert a * (t + c * w) == a * t + c * (a * w);
  }

  lemma {:induction false} BinomialTheorem(a: int, n: nat)
    ensures Expansion(a, n, n + 1) == Pow(a + 1, n)
  {
    if n == 0 {
      assert Expansion(a, 0, 1) == Expansion(a, 0, 0) + Choose(0, 0) * Pow(a, 0);
    } else {
      BinomialTheorem(a, n - 1);
      ExpansionStep(a, n - 1, n);
      ChooseAbove(n - 1, n);
      assert Expansion(a, n - 1, n + 1) == Expansion(a, n - 1, n) + Choose(n - 1, n) * Pow(a, n);
      assert (a + 1) * Expansion(a, n - 1, n) == Expansion(a, n - 1, n) + a * Expansion(a, n - 1, n);
    }
  }

  /** The terms between the first and the last are multiples of a prime exponent. */
  lemma {:induction false} MiddleTerms(a: int, p: int, k: nat)
    requires Prime(p) && 1 <= k <= p
    ensures Divides(p, Expansion(a, p, k) - 1)
  {
    if k == 1 {
      assert Expansion(a, p, 1) == Expansion(a, p, 0) + Choose(p, 0) * Pow(a, 0);
      Multiple(p, 0);
    } else {
      MiddleTerms(a, p, k - 1);
      PrimeDividesChoose(p, k - 1);
      DividesTimes(p, Choose(p, k - 1), Pow(a, k - 1));
      DividesSum(p, Expansion(a, p, k - 1) - 1, Choose(p, k - 1) * Pow(a, k - 1));
    }
  }

  /** Fermat's little theorem, in the form that also covers multiples of the prime. */
  lemma {:induction false} Fermat(a: nat, p: int)
    requires Prime(p)
    ensures Divides(p, Pow(a, p) - a)
  {
    if a == 0 {
      assert Pow(0, p) == 0 * Pow(0, p - 1);
      Multiple(p, 0);
    } else {
      var b := a - 1;
      Fermat(b, p);
      BinomialTheorem(b, p);
      MiddleTerms(b, p, p);
      ChooseSelf(p);
      assert Expansion(b, p, p + 1) == Expansion(b, p, p) + Choose(p, p) * Pow(b, p);
      DividesSum(p, Expansion(b, p, p) - 1, Pow(b, p) - b);
      assert Expansion(b, p, p) - 1 + (Pow(b, p) - b) == Pow(a, p) - a;
    }
  }

  lemma FermatStep(m: nat, p: int, k: nat)
    requires Prime(p) && Divides(p, Pow(m, 1 + k) - m)
    ensures Divides(p, Pow(m, p + k) - m)
  {
    PowAdd(m, p, k);
    PowAdd(m, 1, k);
    assert Pow(m, 1) == m * Pow(m, 0);
    Fermat(m, p);
    var u, w := Pow(m, p), Pow(m, k);
    hide *;
    DividesTimes(p, u - m, w);
    DividesSum(p, (u - m) * w, m * w - m);
    assert (u - m) * w + (m * w - m) == u * w - m;
  }

  lemma {:induction false} FermatExponent(m: nat, p: int, j: nat)
    requires Prime(p)
    ensures Divides(p, Pow(m, 1 + j * (p - 1)) - m)
  {
    if j == 0 {
      assert Pow(m, 1) == m * Pow(m, 0);
      Multiple(p, 0);
    } else {
      ProductBounds(p - 1, j - 1);
      var k: nat := (j - 1) * (p - 1);
      FermatExponent(m, p, j - 1);
      assert 1 + j * (p - 1) == p + k;
      FermatStep(m, p, k);
    }
  }

  /** Exponents congruent to 1 modulo (p - 1)(q - 1) fix every residue modulo p * q. */
  lemma RsaExponent(m: nat, p: int, q: int, c: nat)
    requires Prime(p) && Prime(q) && p != q && c >= 1
    requires Divides((p - 1) * (q - 1), c - 1)
    ensures Divides(p * q, Pow(m, c) - m)
  {
    var k :| IsProduct(c - 1, (p - 1) * (q - 1), k);
    ProductBounds(p - 1, q - 1);
    ProductBounds((p - 1) * (q - 1), k);
    var i, j := k * (q - 1), k * (p - 1);
    assert (p - 1) * (q - 1) * k == i * (p - 1) == j * (q - 1);
    hide Pow, Prime, Divides;
    FermatExponent(m, p, i);
    FermatExponent(m, q, j);
    DistinctPrimes(p, q, Pow(m, c) - m);
  }
}
