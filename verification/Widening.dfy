/**
 Half- and single-precision numbers in the binary formats: widening them to a double keeps
 their value, and only those with the highest exponent are not finite.
 */
module Widening {
  import opened Binary
  import opened Bytes
  import opened Json
  import opened Results

  /** The formats of section 3.6 of IEEE 754: fraction bits, highest exponent field, bias. */
  predicate IsFormat(fractionBits: nat, top: nat, bias: int) {
    (fractionBits, top, bias) in {(23, 0xFF, 127), (10, 0x1F, 15)}
  }

  /** The value of a finite short pattern, as a multiple of 2^-1074. */
  function ShortScaled(negative: bool, exponent: nat, fraction: nat, fractionBits: nat, bias: int): int
    requires 0 <= bias + fractionBits <= 1074
  {
    var significand: int := if exponent == 0 then fraction else Pow2(fractionBits) + fraction;
    var magnitude := significand * Pow2(1074 - bias - fractionBits + if exponent == 0 then 1 else exponent);
    if negative then -magnitude else magnitude
  }

  // ----- powers of two

  lemma {:induction false} Pow2Sum(a: nat, b: nat)
    ensures Pow2(a + b) == Pow2(a) * Pow2(b)
  {
    if a > 0 {
      Pow2Sum(a - 1, b);
      assert Pow2(a + b) == 2 * Pow2(a - 1 + b);
      var x, y := Pow2(a - 1), Pow2(b);
      assert 2 * (x * y) == (2 * x) * y;
    }
  }

  lemma Pow2Of52()
    ensures Pow2(52) == TWO_TO_THE_52
  {
    assert Pow2(13) == 8192;
    Pow2Sum(13, 13);
    Pow2Sum(26, 26);
  }

  lemma {:induction false} BitLengthBounds(n: nat)
    requires n > 0
    ensures BitLength(n) > 0 && Pow2(BitLength(n) - 1) <= n < Pow2(BitLength(n))
  {
    if n > 1 { BitLengthBounds(n / 2); }
  }

  lemma {:induction false} Pow2Monotone(a: nat, b: nat)
    requires a <= b
    ensures Pow2(a) <= Pow2(b)
    decreases b
  {
    if a < b { Pow2Monotone(a, b - 1); }
  }

  lemma Shifted(f: nat, bits: nat)
    requires bits <= 52 && f < Pow2(bits)
    ensures 0 <= f * Pow2(52 - bits) < TWO_TO_THE_52
    ensures TWO_TO_THE_52 + f * Pow2(52 - bits) == (Pow2(bits) + f) * Pow2(52 - bits)
  {
    Pow2Sum(bits, 52 - bits);
    Pow2Of52();
    var p, q: int := Pow2(bits), Pow2(52 - bits);
    hide Pow2;
    assert p * q == TWO_TO_THE_52 && 0 <= f <= p - 1 && q > 0;
    Products(f, p, q);
  }

  lemma Products(f: int, p: int, q: int)
    requires 0 <= f < p && q > 0
    ensures 0 <= f * q < p * q && p * q + f * q == (p + f) * q
  {
    assert (p - f) * q > 0;
  }

  // ----- widening

  lemma PatternParts(negative: bool, exponent: int, fraction: int)
    requires 0 <= exponent < 0x800 && 0 <= fraction < TWO_TO_THE_52
    ensures var bits := Pattern(negative, exponent, fraction);
      Exponent(bits) == exponent && Fraction(bits) == fraction && (bits < TWO_TO_THE_63 <==> !negative)
  {
  }

  function Signed(negative: bool, magnitude: int): int {
    if negative then -magnitude else magnitude
  }

  lemma ScaledPattern(negative: bool, exponent: int, fraction: int)
    requires 0 <= exponent < 0x7FF && 0 <= fraction < TWO_TO_THE_52
    ensures IsFinite(Pattern(negative, exponent, fraction))
    ensures Scaled(Pattern(negative, exponent, fraction)) ==
      Signed(negative, if exponent > 0 then (TWO_TO_THE_52 + fraction) * Pow2(exponent - 1) else fraction)
  {
    PatternParts(negative, exponent, fraction);
    hide Pattern, Exponent, Fraction, Pow2;
  }

  lemma Regroup(a: int, k: nat, m: nat)
    ensures a * Pow2(k) * Pow2(m) == a * Pow2(k + m)
  {
    Pow2Sum(k, m);
    var x, y := Pow2(k), Pow2(m);
    hide Pow2;
    assert a * x * y == a * (x * y);
  }

  lemma WidenNormal(negative: bool, exponent: nat, fraction: nat, fractionBits: nat, top: nat, bias: int)
    requires IsFormat(fractionBits, top, bias) && 0 < exponent < top && fraction < Pow2(fractionBits)
    ensures var bits := Widen(negative, exponent, fraction, fractionBits, top, bias);
      IsFinite(bits) && Scaled(bits) == ShortScaled(negative, exponent, fraction, fractionBits, bias)
  {
    hide Pow2, Pattern, Scaled, IsFinite;
    var e: int := exponent - bias + 1023;
    Shifted(fraction, fractionBits);
    ScaledPattern(negative, e, fraction * Pow2(52 - fractionBits));
    Regroup(Pow2(fractionBits) + fraction, 52 - fractionBits, e - 1);
  }

  /** The exponent field of a subnormal number whose highest bit is number `lead`. */
  function SubnormalExponent(lead: nat, fractionBits: nat, bias: int): int {
    lead + 1 - bias - fractionBits + 1023
  }

  lemma SubnormalPattern(negative: bool, fraction: nat, lead: nat, fractionBits: nat, top: nat, bias: int)
    requires IsFormat(fractionBits, top, bias) && fraction > 0 && lead == BitLength(fraction) - 1 && lead <= 52
    ensures Widen(negative, 0, fraction, fractionBits, top, bias) ==
      Pattern(negative, SubnormalExponent(lead, fractionBits, bias), (fraction - Pow2(lead)) * Pow2(52 - lead))
  {
    hide Pattern, Pow2, BitLength;
  }

  lemma SubnormalScaled(negative: bool, fraction: nat, lead: nat, fractionBits: nat, top: nat, bias: int)
    requires IsFormat(fractionBits, top, bias) && lead < fractionBits && Pow2(lead) <= fraction < 2 * Pow2(lead)
    ensures var bits := Pattern(negative, SubnormalExponent(lead, fractionBits, bias), (fraction - Pow2(lead)) * Pow2(52 - lead));
      IsFinite(bits) && Scaled(bits) == ShortScaled(negative, 0, fraction, fractionBits, bias)
  {
    hide Pow2, Pattern, Scaled, IsFinite;
    var rest: nat := fraction - Pow2(lead);
    var e := SubnormalExponent(lead, fractionBits, bias);
    Shifted(rest, lead);
    ScaledPattern(negative, e, rest * Pow2(52 - lead));
    Regroup(fraction, 52 - lead, e - 1);
  }

  lemma WidenSubnormal(negative: bool, fraction: nat, fractionBits: nat, top: nat, bias: int)
    requires IsFormat(fractionBits, top, bias) && 0 < fraction < Pow2(fractionBits)
    ensures var bits := Widen(negative, 0, fraction, fractionBits, top, bias);
      IsFinite(bits) && Scaled(bits) == ShortScaled(negative, 0, fraction, fractionBits, bias)
  {
    BitLengthBounds(fraction);
    var lead := BitLength(fraction) - 1;
    LeadBound(fraction, lead, fractionBits);
    assert Pow2(lead + 1) == 2 * Pow2(lead);
    assert lead <= 52 && IsFormat(fractionBits, top, bias);
    hide *;
    SubnormalPattern(negative, fraction, lead, fractionBits, top, bias);
    SubnormalScaled(negative, fraction, lead, fractionBits, top, bias);
  }

  lemma LeadBound(fraction: nat, lead: nat, fractionBits: nat)
    requires Pow2(lead) <= fraction < Pow2(fractionBits)
    ensures lead < fractionBits
  {
    if lead >= fractionBits { Pow2Monotone(fractionBits, lead); }
  }

  /** Widening keeps the value of a finite pattern of either format, its sign included. */
  lemma WidenExact(negative: bool, exponent: nat, fraction: nat, fractionBits: nat, top: nat, bias: int)
    requires IsFormat(fractionBits, top, bias) && exponent < top && fraction < Pow2(fractionBits)
    ensures var bits := Widen(negative, exponent, fraction, fractionBits, top, bias);
      IsFinite(bits) && Scaled(bits) == ShortScaled(negative, exponent, fraction, fractionBits, bias)
  {
    if exponent > 0 {
      WidenNormal(negative, exponent, fraction, fractionBits, top, bias);
    } else if fraction > 0 {
      WidenSubnormal(negative, fraction, fractionBits, top, bias);
    } else {
      ScaledPattern(negative, 0, 0);
      hide Pow2, Pattern, Scaled, IsFinite;
    }
  }

  /** The highest exponent stands for infinity and NaN, which widen to the same. */
  lemma WidenTop(negative: bool, fraction: nat, fractionBits: nat, top: nat, bias: int)
    requires IsFormat(fractionBits, top, bias) && fraction < Pow2(fractionBits)
    ensures var bits := Widen(negative, top, fraction, fractionBits, top, bias);
      if fraction == 0 then IsInfinite(bits) else IsNaN(bits)
  {
    if fraction == 0 {
      PatternParts(negative, 0x7FF, 0);
    } else {
      PatternParts(negative, 0x7FF, 1);
    }
  }

  // ----- as the decoders read them

  /** A short pattern read as `r`: null for the highest exponent, else a number of its value. */
  ghost predicate ReadAs(r: Json, negative: bool, exponent: nat, fraction: nat, fractionBits: nat, top: nat, bias: int)
    requires 0 <= bias + fractionBits <= 1074
  {
    if exponent == top then r == Null
    else r.Float? && Scaled(r.bits) == ShortScaled(negative, exponent, fraction, fractionBits, bias)
  }

  lemma NewShort(negative: bool, exponent: nat, fraction: nat, fractionBits: nat, top: nat, bias: int)
    requires IsFormat(fractionBits, top, bias) && exponent <= top && fraction < Pow2(fractionBits)
    ensures ReadAs(NewFloat(Widen(negative, exponent, fraction, fractionBits, top, bias)),
      negative, exponent, fraction, fractionBits, top, bias)
  {
    hide Widen, Pow2, Scaled, ShortScaled;
    if exponent == top {
      WidenTop(negative, fraction, fractionBits, top, bias);
    } else {
      WidenExact(negative, exponent, fraction, fractionBits, top, bias);
    }
  }

  /** Two bytes are read as the half-precision number of Appendix D of RFC 7049. */
  lemma ReadHalf(v: Text, current: nat, half: nat)
    requires GetFromVector(v, current, 2) == Ok(half)
    ensures GetFloat(v, current, 2).Ok? && GetFloat(v, current, 2).value.1 == current + 3
    ensures ReadAs(GetFloat(v, current, 2).value.0,
      half / 0x8000 % 2 == 1, half / 0x400 % 0x20, half % 0x400, 10, 0x1F, 15)
  {
    assert Pow2(10) == 0x400;
    hide Widen, Pow2, ReadAs;
    NewShort(half / 0x8000 % 2 == 1, half / 0x400 % 0x20, half % 0x400, 10, 0x1F, 15);
  }

  /** Four bytes are read as a single-precision number. */
  lemma ReadSingle(v: Text, current: nat, word: nat)
    requires GetFromVector(v, current, 4) == Ok(word)
    ensures GetFloat(v, current, 4).Ok? && GetFloat(v, current, 4).value.1 == current + 5
    ensures ReadAs(GetFloat(v, current, 4).value.0,
      word / 0x8000_0000 % 2 == 1, word / 0x80_0000 % 0x100, word % 0x80_0000, 23, 0xFF, 127)
  {
    assert Pow2(23) == 0x80_0000 by { Pow2Sum(13, 10); assert Pow2(13) == 0x2000 && Pow2(10) == 0x400; }
    hide Widen, Pow2, ReadAs;
    NewShort(word / 0x8000_0000 % 2 == 1, word / 0x80_0000 % 0x100, word % 0x80_0000, 23, 0xFF, 127);
  }
}
