/**
 Floating-point patterns and the numbers they stand for: the order of the doubles, the
 comparison of two of them, and the rounding of an integer to the nearest one.
 */
module Doubles {
  import opened Binary
  import opened Json
  import opened Widening

  // ----- the doubles, from their order

  /** The exponent field counts from 1 for subnormal numbers as well. */
  function GapExponent(bits: uint64): nat {
    var e := Exponent(bits);
    if e == 0 then 0 else e - 1
  }

  lemma NextParts(bits: uint64)
    requires bits + 1 < TWO_TO_THE_63
    ensures Exponent(bits) < 0x800
    ensures if Fraction(bits) + 1 < TWO_TO_THE_52
      then Exponent(bits + 1) == Exponent(bits) && Fraction(bits + 1) == Fraction(bits) + 1
      else Exponent(bits + 1) == Exponent(bits) + 1 && Fraction(bits + 1) == 0
  {
  }

  /** Zero is the first pattern, each pattern stands for the next larger number, the gap
      doubles from one exponent to the next, and the highest bit is the sign. No other
      assignment of numbers to patterns does this. */
  lemma DoublesInOrder(bits: uint64)
    ensures Scaled(0) == 0
    ensures bits + 1 < INFINITY ==> Scaled(bits + 1) == Scaled(bits) + Pow2(GapExponent(bits))
    ensures bits < TWO_TO_THE_63 ==> Scaled(bits + TWO_TO_THE_63) == -Scaled(bits)
  {
    assert Exponent(0) == 0 && Fraction(0) == 0;
    if bits + 1 < INFINITY {
      NextParts(bits);
      NextScaled(Exponent(bits), Fraction(bits));
    }
    if bits < TWO_TO_THE_63 {
      SignParts(bits);
    }
  }

  lemma SignParts(bits: uint64)
    requires bits < TWO_TO_THE_63
    ensures Exponent(bits + TWO_TO_THE_63) == Exponent(bits) && Fraction(bits + TWO_TO_THE_63) == Fraction(bits)
  {
  }

  lemma NextScaled(e: nat, f: nat)
    requires f < TWO_TO_THE_52
    ensures (TWO_TO_THE_52 + (f + 1)) * Pow2(e) == (TWO_TO_THE_52 + f) * Pow2(e) + Pow2(e)
    ensures e > 0 ==> 2 * TWO_TO_THE_52 * Pow2(e - 1) == TWO_TO_THE_52 * Pow2(e)
  {
    var p := Pow2(e);
    assert (TWO_TO_THE_52 + (f + 1)) * p == (TWO_TO_THE_52 + f) * p + p;
  }

  // ----- floating-point numbers

  predicate IsZero(bits: uint64) { bits == 0 || bits == TWO_TO_THE_63 }

  function Flip(bits: uint64): uint64 {
    if bits < TWO_TO_THE_63 then bits + TWO_TO_THE_63 else bits - TWO_TO_THE_63
  }

  lemma FlipScaled(bits: uint64)
    ensures Flip(Flip(bits)) == bits && Scaled(Flip(bits)) == -Scaled(bits)
    ensures Exponent(Flip(bits)) == Exponent(bits) && Fraction(Flip(bits)) == Fraction(bits)
  {
    hide Scaled, Exponent, Fraction;
    if bits < TWO_TO_THE_63 {
      DoublesInOrder(bits);
      SignParts(bits);
    } else {
      DoublesInOrder(Flip(bits));
      SignParts(Flip(bits));
    }
  }

  lemma {:induction false} Increasing(a: uint64, b: uint64)
    requires a < b < INFINITY
    ensures Scaled(a) < Scaled(b)
    decreases b - a
  {
    hide Scaled, Pow2, GapExponent;
    if a + 1 < b { Increasing(a, b - 1); }
    DoublesInOrder(b - 1);
  }

  lemma FinitePattern(bits: uint64)
    ensures IsFinite(bits) <==> bits < INFINITY || TWO_TO_THE_63 <= bits < TWO_TO_THE_63 + INFINITY
  {
  }

  lemma Positive(bits: uint64)
    requires IsFinite(bits)
    ensures bits < TWO_TO_THE_63 ==> Scaled(bits) >= 0 && (Scaled(bits) == 0 <==> bits == 0)
    ensures bits >= TWO_TO_THE_63 ==> Scaled(bits) <= 0 && (Scaled(bits) == 0 <==> bits == TWO_TO_THE_63)
  {
    hide Scaled, IsFinite;
    FinitePattern(bits);
    DoublesInOrder(0);
    FlipScaled(bits);
    if 0 < bits < TWO_TO_THE_63 { Increasing(0, bits); }
    if TWO_TO_THE_63 < bits { Increasing(0, Flip(bits)); }
  }

  /** Different finite patterns stand for different numbers, but for the two zeros. */
  lemma ScaledInjective(a: uint64, b: uint64)
    requires IsFinite(a) && IsFinite(b)
    ensures Scaled(a) == Scaled(b) <==> a == b || (IsZero(a) && IsZero(b))
  {
    hide Scaled, IsFinite;
    FinitePattern(a);
    FinitePattern(b);
    Positive(a);
    Positive(b);
    FlipScaled(a);
    FlipScaled(b);
    if a < b < TWO_TO_THE_63 { Increasing(a, b); }
    if b < a < TWO_TO_THE_63 { Increasing(b, a); }
    if TWO_TO_THE_63 <= a < b { Increasing(Flip(a), Flip(b)); }
    if TWO_TO_THE_63 <= b < a { Increasing(Flip(b), Flip(a)); }
  }

  lemma FloatEqualsIff(a: uint64, b: uint64)
    ensures FloatEquals(a, b) <==> !IsNaN(a) && !IsNaN(b) && (a == b || (IsZero(a) && IsZero(b)))
  {
    if IsFinite(a) && IsFinite(b) {
      hide Scaled;
      ScaledInjective(a, b);
    }
  }

  // ----- an integer and a floating-point number

  function Distance(x: int, y: int): nat {
    if x < y then y - x else x - y
  }

  /** One of the doubles nearest to `x`, and one with an even fraction if two are. */
  ghost predicate Nearest(x: int, f: uint64) {
    forall g: uint64 :: IsFinite(g) ==>
      Distance(x, Scaled(f)) <= Distance(x, Scaled(g)) &&
      (Distance(x, Scaled(f)) == Distance(x, Scaled(g)) && Scaled(f) != Scaled(g) ==> Fraction(f) % 2 == 0)
  }

  /** `p` and the next pattern enclose `x`. */
  predicate Brackets(x: int, p: uint64) {
    p + 1 < INFINITY && Scaled(p) <= x < Scaled(p + 1)
  }

  lemma NothingBetween(p: uint64, g: uint64)
    requires p + 1 < INFINITY && IsFinite(g)
    ensures Scaled(g) <= Scaled(p) || Scaled(g) >= Scaled(p + 1)
  {
    hide Scaled, IsFinite;
    FinitePattern(g);
    FinitePattern(p);
    Positive(g);
    Positive(p);
    if g < p { Increasing(g, p); }
    if p + 1 < g < TWO_TO_THE_63 { Increasing(p + 1, g); }
  }

  /** What round-to-nearest, ties to even, makes of a number between two patterns. */
  function Rounded(x: int, p: uint64): int
    requires Brackets(x, p)
  {
    var low, high := x - Scaled(p), Scaled(p + 1) - x;
    if low < high || (low == high && Fraction(p) % 2 == 0) then Scaled(p) else Scaled(p + 1)
  }

  lemma Neighbours(p: uint64)
    requires p + 1 < INFINITY
    ensures IsFinite(p) && IsFinite(p + 1) && Fraction(p) % 2 != Fraction(p + 1) % 2
    ensures Scaled(p) < Scaled(p + 1)
  {
    NextParts(p);
    FinitePattern(p);
    FinitePattern(p + 1);
    hide Scaled;
    Increasing(p, p + 1);
  }

  lemma SameFraction(a: uint64, b: uint64)
    requires IsFinite(a) && IsFinite(b) && Scaled(a) == Scaled(b)
    ensures Fraction(a) == Fraction(b)
  {
    assert Fraction(0) == Fraction(TWO_TO_THE_63) == 0;
    hide Scaled, IsFinite, Fraction;
    ScaledInjective(a, b);
  }

  lemma NearestIff(x: int, p: uint64, f: uint64)
    requires Brackets(x, p) && IsFinite(f)
    ensures Nearest(x, f) <==> Scaled(f) == Rounded(x, p)
  {
    hide Scaled, IsFinite, Fraction;
    Neighbours(p);
    NothingBetween(p, f);
    if Scaled(f) == Scaled(p) { SameFraction(f, p); }
    if Scaled(f) == Scaled(p + 1) { SameFraction(f, p + 1); }
    if Nearest(x, f) {
      assert Distance(x, Scaled(f)) <= Distance(x, Scaled(p));
      assert Distance(x, Scaled(f)) <= Distance(x, Scaled(p + 1));
    }
    if Scaled(f) == Rounded(x, p) {
      forall g: uint64 | IsFinite(g)
        ensures Distance(x, Scaled(f)) <= Distance(x, Scaled(g))
        ensures Distance(x, Scaled(f)) == Distance(x, Scaled(g)) && Scaled(f) != Scaled(g) ==> Fraction(f) % 2 == 0
      {
        NothingBetween(p, g);
      }
    }
  }

  // ----- the conversion of an integer

  /** The unit in which `Scaled` counts, 2^-1074, goes this often into 1. */
  ghost function Unit(): (s: int)
    ensures s > 0
  {
    Pow2(1074)
  }

  lemma PatternAt(e: nat, q: nat) returns (p: uint64)
    requires e <= 2044 && TWO_TO_THE_52 <= q < 2 * TWO_TO_THE_52
    ensures p + 1 < INFINITY && Fraction(p) == q - TWO_TO_THE_52
    ensures Scaled(p) == q * Pow2(e) && Scaled(p + 1) == Scaled(p) + Pow2(e)
  {
    hide Scaled, Pow2;
    p := Pattern(false, e + 1, q - TWO_TO_THE_52);
    PatternParts(false, e + 1, q - TWO_TO_THE_52);
    ScaledPattern(false, e + 1, q - TWO_TO_THE_52);
    FinitePattern(p);
    BelowInfinity(p);
    DoublesInOrder(p);
  }

  lemma BelowInfinity(p: uint64)
    requires p < TWO_TO_THE_63 && Exponent(p) < 0x7FE
    ensures p + 1 < INFINITY
  {
  }

  /** An integer of up to 53 bits is a double. */
  lemma Exact(n: nat, length: nat) returns (p: uint64)
    requires n > 0 && length == BitLength(n) <= 53
    ensures Brackets(n * Unit(), p) && Rounded(n * Unit(), p) == n * Unit()
  {
    BitLengthBounds(n);
    Pow2Half(length);
    hide Scaled, Pow2, BitLength, IsFinite;
    Shifted(n - Pow2(length - 1), length - 1);
    var q := n * Pow2(53 - length);
    p := PatternAt(1021 + length, q);
    Regroup(n, 53 - length, 1021 + length);
  }

  lemma Pow2Half(n: nat)
    requires n > 0
    ensures Pow2(n) == 2 * Pow2(n - 1)
  {
  }

  lemma LeadingBits(n: nat, length: nat)
    requires n > 0 && length == BitLength(n) > 53
    ensures var u := Pow2(length - 53); TWO_TO_THE_52 <= n / u < 2 * TWO_TO_THE_52
  {
    BitLengthBounds(n);
    Pow2Sum(52, length - 53);
    Pow2Of52();
    Pow2Half(length);
    var u := Pow2(length - 53);
    hide Pow2, BitLength;
    Quotient(n, u, TWO_TO_THE_52, 2 * TWO_TO_THE_52);
  }

  lemma Quotient(n: nat, u: nat, low: nat, high: nat)
    requires u > 0 && low * u <= n < high * u
    ensures low <= n / u < high
  {
    var q, r := n / u, n % u;
    assert n == q * u + r;
    if q < low { Product(q + 1, low, u); }
    if q >= high { Product(high, q, u); }
  }

  lemma Product(a: int, b: int, u: nat)
    requires a <= b
    ensures a * u <= b * u
  {
  }

  /** A longer one lies between two doubles, and is rounded as the conversion does. */
  lemma Inexact(n: nat, length: nat) returns (p: uint64)
    requires n > 0 && 53 < length == BitLength(n) <= 64
    ensures Brackets(n * Unit(), p) && Rounded(n * Unit(), p) == RoundMagnitude(n) * Unit()
  {
    LeadingBits(n, length);
    var u := Pow2(length - 53);
    var q, r := n / u, n % u;
    assert RoundMagnitude(n) == RoundedQuotient(q, r, u) * u;
    DivMod(n, u);
    hide *;
    p := BracketAt(n, length - 53, q, r);
  }

  /** The quotient rounded to the nearest number, ties to even. */
  function RoundedQuotient(q: nat, r: nat, u: nat): nat {
    if 2 * r > u || (2 * r == u && q % 2 == 1) then q + 1 else q
  }

  lemma DivMod(n: nat, u: nat)
    requires u > 0
    ensures n == n / u * u + n % u && n % u < u
  {
  }

  lemma BracketAt(n: nat, k: nat, q: nat, r: nat) returns (p: uint64)
    requires k <= 11 && n == q * Pow2(k) + r && r < Pow2(k) && TWO_TO_THE_52 <= q < 2 * TWO_TO_THE_52
    ensures Brackets(n * Unit(), p)
    ensures Rounded(n * Unit(), p) == RoundedQuotient(q, r, Pow2(k)) * Pow2(k) * Unit()
  {
    hide Scaled, Fraction, Brackets, Rounded, RoundedQuotient, Pow2;
    p := PatternAt(1074 + k, q);
    Regroup(q, k, 1074);
    Regroup(1, k, 1074);
    UnitIs();
    RoundedBy(n, Pow2(k), q, r, p);
  }

  lemma UnitIs()
    ensures Unit() == Pow2(1074)
  {
  }

  lemma RoundedBy(n: nat, u: nat, q: nat, r: nat, p: uint64)
    requires n == q * u + r && r < u && q >= TWO_TO_THE_52
    requires p + 1 < INFINITY && Fraction(p) == q - TWO_TO_THE_52
    requires Scaled(p) == q * u * Unit() && Scaled(p + 1) == Scaled(p) + u * Unit()
    ensures Brackets(n * Unit(), p)
    ensures Rounded(n * Unit(), p) == RoundedQuotient(q, r, u) * u * Unit()
  {
    hide Scaled, Fraction, Unit;
    Parity(q);
    Scale(n, u, q, r, Unit());
  }

  lemma Parity(q: nat)
    requires q >= TWO_TO_THE_52
    ensures (q - TWO_TO_THE_52) % 2 == q % 2
  {
  }

  lemma Scale(n: nat, u: nat, q: nat, r: nat, s: int)
    requires n == q * u + r && r < u && s > 0
    ensures n * s == q * u * s + r * s && (q + 1) * u * s == q * u * s + u * s
    ensures 0 <= r * s < u * s
    ensures 2 * r < u <==> r * s < u * s - r * s
    ensures 2 * r == u <==> r * s == u * s - r * s
  {
    assert (q * u + r) * s == q * u * s + r * s;
    assert (q + 1) * u == q * u + u;
    assert (q * u + u) * s == q * u * s + u * s;
    assert (u - r) * s > 0;
    var d := u - 2 * r;
    assert d * s == u * s - 2 * (r * s);
    if d > 0 { assert d * s > 0; }
    if d < 0 { assert d * s < 0; }
  }

  lemma {:induction false} ShortLength(n: nat, k: nat)
    requires n < Pow2(k)
    ensures BitLength(n) <= k
    decreases k
  {
    if n > 0 { ShortLength(n / 2, k - 1); }
  }

  lemma Bracket(n: nat) returns (p: uint64)
    requires n < TWO_TO_THE_64
    ensures Brackets(n * Unit(), p) && Rounded(n * Unit(), p) == RoundMagnitude(n) * Unit()
  {
    if n == 0 {
      p := 0;
      DoublesInOrder(0);
    } else {
      assert BitLength(n) <= 64 by {
        Pow2Sum(52, 12);
        Pow2Of52();
        assert Pow2(12) == 4096;
        ShortLength(n, 64);
      }
      var length := BitLength(n);
      if length <= 53 {
        p := Exact(n, length);
      } else {
        p := Inexact(n, length);
      }
    }
  }

  lemma NearestFlip(x: int, f: uint64)
    ensures Nearest(x, f) <==> Nearest(-x, Flip(f))
  {
    hide Scaled, IsFinite, Fraction;
    FlipScaled(f);
    if Nearest(x, f) { NearestFlipOne(x, f); }
    if Nearest(-x, Flip(f)) { NearestFlipOne(-x, Flip(f)); }
  }

  lemma NearestFlipOne(x: int, f: uint64)
    requires Nearest(x, f)
    ensures Nearest(-x, Flip(f))
  {
    hide Scaled, Fraction, Exponent;
    FlipScaled(f);
    forall g: uint64 | IsFinite(g)
      ensures Distance(-x, Scaled(Flip(f))) <= Distance(-x, Scaled(g))
      ensures Distance(-x, Scaled(Flip(f))) == Distance(-x, Scaled(g)) && Scaled(Flip(f)) != Scaled(g) ==>
        Fraction(Flip(f)) % 2 == 0
    {
      FlipScaled(g);
      assert IsFinite(Flip(g));
    }
  }

  lemma NearestMagnitude(n: nat, f: uint64)
    requires n < TWO_TO_THE_64 && IsFinite(f)
    ensures Nearest(n * Unit(), f) <==> Scaled(f) == RoundMagnitude(n) * Unit()
  {
    hide Scaled, Fraction, RoundMagnitude, Exponent, Brackets, Rounded, Unit, Nearest;
    var p := Bracket(n);
    NearestIff(n * Unit(), p, f);
  }

  lemma ConvertedEquals(i: int, f: uint64)
    ensures IntegerEqualsFloat(i, f) <==> IsFinite(f) && Scaled(f) == ToDouble(i) * Unit()
  {
    hide Scaled, Exponent, RoundMagnitude;
    UnitIs();
  }

  /** An integer equals a floating-point number if that is the double nearest to it, the
      even one of two, which is what the conversion of the integer gives. */
  lemma IntegerEqualsFloatIff(i: int, f: uint64)
    requires -TWO_TO_THE_63 <= i < TWO_TO_THE_64
    ensures IntegerEqualsFloat(i, f) <==> IsFinite(f) && Nearest(i * Unit(), f)
  {
    hide Scaled, Fraction, RoundMagnitude, Exponent, IsFinite, Unit, Nearest, IntegerEqualsFloat;
    ConvertedEquals(i, f);
    if IsFinite(f) {
      FlipScaled(f);
      FlipFinite(f);
      if i >= 0 {
        NearestMagnitude(i, f);
      } else {
        var n: nat := -i;
        NearestMagnitude(n, Flip(f));
        NearestFlip(n * Unit(), Flip(f));
        var m: int := RoundMagnitude(n);
        assert -(n * Unit()) == i * Unit() && -m * Unit() == -(m * Unit());
      }
    }
  }

  lemma FlipFinite(f: uint64)
    ensures IsFinite(Flip(f)) <==> IsFinite(f)
  {
    FlipScaled(f);
  }
}
