/**
 Byte strings (`std::string`), their lexicographic order, which is the key order of
 `std::map`, and decimal numerals (`std::to_string`, `std::stoi`).
 */
module Bytes {
  import opened Results

  type byte = x: int | 0 <= x < 256

  type Text = seq<byte>

  // ----- lexicographic order

  predicate Less(a: Text, b: Text) {
    if b == [] then false
    else if a == [] then true
    else if a[0] != b[0] then a[0] < b[0]
    else Less(a[1..], b[1..])
  }

  lemma LessIrreflexive(a: Text)
    ensures !Less(a, a)
  {
  }

  lemma LessTransitive(a: Text, b: Text, c: Text)
    requires Less(a, b) && Less(b, c)
    ensures Less(a, c)
  {
    if a != [] && a[0] == b[0] == c[0] {
      LessTransitive(a[1..], b[1..], c[1..]);
    }
  }

  lemma {:induction false} LessTotal(a: Text, b: Text)
    ensures a == b || Less(a, b) || Less(b, a)
  {
    if a != [] && b != [] && a[0] == b[0] {
      LessTotal(a[1..], b[1..]);
      assert a == [a[0]] + a[1..];
      assert b == [b[0]] + b[1..];
    }
  }

  /** A common prefix does not influence the order. */
  lemma {:induction false} LessPrefix(c: Text, a: Text, b: Text)
    ensures Less(c + a, c + b) == Less(a, b)
  {
    if c == [] {
      assert c + a == a && c + b == b;
    } else {
      assert (c + a)[1..] == c[1..] + a && (c + b)[1..] == c[1..] + b;
      LessPrefix(c[1..], a, b);
    }
  }

  predicate Sorted(s: seq<Text>) {
    forall i, j :: 0 <= i < j < |s| ==> Less(s[i], s[j])
  }

  // ----- iteration over a key-sorted map

  predicate IsLeast(k: Text, s: set<Text>) {
    k in s && forall x | x in s :: !Less(x, k)
  }

  lemma {:induction false} LeastExists(s: set<Text>) returns (k: Text)
    requires s != {}
    ensures IsLeast(k, s)
  {
    var c :| c in s;
    LessIrreflexive(c);
    var rest := s - {c};
    if rest == {} {
      assert s == {c};
      return c;
    }
    var l := LeastExists(rest);
    k := if Less(c, l) then c else l;
    forall x | x in s ensures !Less(x, k) {
      if x != c && k == c && Less(x, c) {
        LessTransitive(x, c, l);
      }
    }
  }

  function Least(s: set<Text>): (k: Text)
    requires s != {}
    ensures IsLeast(k, s)
  {
    assert exists l :: IsLeast(l, s) by { var l := LeastExists(s); }
    assert forall a, b | IsLeast(a, s) && IsLeast(b, s) :: a == b by {
      forall a, b | IsLeast(a, s) && IsLeast(b, s) ensures a == b {
        LessTotal(a, b);
      }
    }
    var k :| k in s && IsLeast(k, s);
    k
  }

  /** The keys of a `std::map` in iteration order. */
  function SortedKeys(s: set<Text>): (r: seq<Text>)
    ensures Sorted(r)
    ensures forall k :: k in r <==> k in s
    ensures |r| == |s|
  {
    if s == {} then []
    else
      var k := Least(s);
      var rest := SortedKeys(s - {k});
      assert forall j | 0 <= j < |rest| :: Less(k, rest[j]) by {
        forall j | 0 <= j < |rest| ensures Less(k, rest[j]) {
          assert rest[j] in rest;
          LessTotal(k, rest[j]);
        }
      }
      [k] + rest
  }

  lemma SortedDistinct(s: seq<Text>)
    requires Sorted(s)
    ensures forall i, j :: 0 <= i < |s| && 0 <= j < |s| && i != j ==> s[i] != s[j]
  {
    forall i, j | 0 <= i < |s| && 0 <= j < |s| && i != j ensures s[i] != s[j] {
      LessIrreflexive(s[i]);
      if i < j { assert Less(s[i], s[j]); } else { assert Less(s[j], s[i]); }
    }
  }

  // ----- decimal numerals

  predicate IsDigit(c: byte) {
    0x30 <= c <= 0x39
  }

  predicate AllDigits(s: Text) {
    forall i :: 0 <= i < |s| ==> IsDigit(s[i])
  }

  /** `std::to_string` of a non-negative number. */
  function Decimal(n: nat): (s: Text)
    ensures |s| > 0 && AllDigits(s)
    ensures s[0] == 0x30 <==> n == 0
    ensures n == 0 ==> s == [0x30]
  {
    if n < 10 then [0x30 + n] else Decimal(n / 10) + [0x30 + n % 10]
  }

  const MINUS: byte := 0x2D

  /** `std::to_string` of any integer. */
  function Numeral(x: int): Text {
    if x < 0 then [MINUS] + Decimal(-x) else Decimal(x)
  }

  /** "0123456789abcdef" */
  const LOWER_DIGITS: Text := [0x30, 0x31, 0x32, 0x33, 0x34, 0x35, 0x36, 0x37, 0x38, 0x39, 0x61, 0x62, 0x63, 0x64, 0x65, 0x66]

  /** A hexadecimal digit in lower case. */
  function HexDigitOf(n: nat): byte
    requires n < 16
  {
    if n < 10 then 0x30 + n else 0x61 + (n - 10)
  }

  function DigitsValue(s: Text): (n: nat)
    requires AllDigits(s)
  {
    if s == [] then 0 else DigitsValue(s[..|s| - 1]) * 10 + (s[|s| - 1] - 0x30)
  }

  lemma {:induction false} DecimalValue(n: nat)
    ensures DigitsValue(Decimal(n)) == n
  {
    if n >= 10 {
      DecimalValue(n / 10);
      assert Decimal(n)[..|Decimal(n)| - 1] == Decimal(n / 10);
    } else {
      assert Decimal(n)[..0] == [];
    }
  }

  lemma DecimalInjective(m: nat, n: nat)
    requires Decimal(m) == Decimal(n)
    ensures m == n
  {
    DecimalValue(m);
    DecimalValue(n);
  }

  /** Length of the longest prefix of digits. */
  function DigitPrefix(s: Text): (k: nat)
    ensures k <= |s| && AllDigits(s[..k])
    ensures k < |s| ==> !IsDigit(s[k])
  {
    if s == [] || !IsDigit(s[0]) then 0
    else
      var k := DigitPrefix(s[1..]);
      assert forall i :: 0 < i < k + 1 ==> s[i] == s[1..][i - 1];
      1 + k
  }

  lemma DigitPrefixAll(s: Text)
    requires AllDigits(s)
    ensures DigitPrefix(s) == |s|
  {
  }

  predicate IsSpace(c: byte) {
    c == 0x20 || 0x09 <= c <= 0x0D
  }

  function SkipSpace(s: Text): Text {
    if s != [] && IsSpace(s[0]) then SkipSpace(s[1..]) else s
  }

  const INT_MAX := 0x7FFF_FFFF
  const INT_MIN := -0x8000_0000

  /** `std::stoi`: leading blanks, an optional sign, then the longest run of digits;
      the rest of the string is ignored. */
  function Stoi(s: Text): Result<int> {
    var t := SkipSpace(s);
    var negative := t != [] && t[0] == MINUS;
    var digits := if t != [] && (t[0] == MINUS || t[0] == 0x2B) then t[1..] else t;
    var k := DigitPrefix(digits);
    if k == 0 then Err(InvalidArgument)
    else
      var magnitude: int := DigitsValue(digits[..k]);
      var value: int := if negative then -magnitude else magnitude;
      if INT_MIN <= value <= INT_MAX then Ok(value) else Err(OutOfRange)
  }

  /** Reading back a printed index works exactly for indices that fit in an `int`. */
  lemma StoiDecimal(n: nat)
    ensures Stoi(Decimal(n)) == if n <= INT_MAX then Ok(n) else Err(OutOfRange)
  {
    var s := Decimal(n);
    assert IsDigit(s[0]);
    DigitPrefixAll(s);
    assert s[..|s|] == s;
    DecimalValue(n);
  }

  // ----- big-endian numbers

  /** Bytes, the most significant first, as a number. */
  function BytesValue(s: Text): nat {
    if s == [] then 0 else BytesValue(s[..|s| - 1]) * 256 + s[|s| - 1]
  }

  /** The number of values that `width` bytes can hold. */
  function Range(width: nat): (r: nat)
    ensures r > 0
  {
    if width == 0 then 1 else 256 * Range(width - 1)
  }

  /** The `width` low-order bytes of a number in two's complement. */
  function BigEndian(x: int, width: nat): (s: Text)
    ensures |s| == width
    decreases width
  {
    if width == 0 then [] else BigEndian(x / 256, width - 1) + [x % 256]
  }

  lemma {:induction false} BytesValueBound(s: Text)
    ensures BytesValue(s) < Range(|s|)
  {
    if s != [] { BytesValueBound(s[..|s| - 1]); }
  }

  lemma {:induction false} BigEndianValue(x: nat, width: nat)
    requires x < Range(width)
    ensures BytesValue(BigEndian(x, width)) == x
  {
    if width > 0 {
      BigEndianValue(x / 256, width - 1);
      assert BigEndian(x, width)[..width - 1] == BigEndian(x / 256, width - 1);
    }
  }

  lemma {:induction false} BigEndianBytes(s: Text)
    ensures BigEndian(BytesValue(s), |s|) == s
  {
    if s != [] {
      var init := s[..|s| - 1];
      BigEndianBytes(init);
      assert BytesValue(s) / 256 == BytesValue(init) && BytesValue(s) % 256 == s[|s| - 1];
    }
  }

  /** The first byte is the most significant one. */
  lemma {:induction false} BytesValueFirst(s: Text)
    requires s != []
    ensures BytesValue(s) == s[0] * Range(|s| - 1) + BytesValue(s[1..])
  {
    var init := s[..|s| - 1];
    if |s| > 1 {
      BytesValueFirst(init);
      assert s[1..][..|s| - 2] == init[1..];
      assert s[0] * Range(|s| - 2) * 256 == s[0] * Range(|s| - 1);
    } else {
      assert BytesValue(init) == 0 && s[1..] == [];
    }
  }

  /** A negative number is stored as its distance to the range. */
  lemma {:induction false} BigEndianNegative(x: int, width: nat)
    requires x < 0 && x + Range(width) >= 0
    ensures BytesValue(BigEndian(x, width)) == x + Range(width)
    decreases width
  {
    if width > 0 {
      BigEndianNegative(x / 256, width - 1);
      assert BigEndian(x, width)[..width - 1] == BigEndian(x / 256, width - 1);
    }
  }

  /** `s` stands in `v` at position `i`. */
  predicate At(v: Text, i: nat, s: Text) {
    i + |s| <= |v| && v[i..i + |s|] == s
  }

  lemma AtFits(v: Text, i: nat, s: Text)
    requires At(v, i, s)
    ensures i + |s| <= |v|
  {
  }

  lemma AtFirst(v: Text, i: nat, s: Text)
    requires At(v, i, s) && s != []
    ensures i < |v| && v[i] == s[0]
  {
    assert v[i] == v[i..i + |s|][0];
  }

  lemma AtJoin(v: Text, i: nat, a: Text, b: Text)
    requires At(v, i, a) && At(v, i + |a|, b)
    ensures At(v, i, a + b)
  {
    assert v[i..i + |a + b|] == v[i..i + |a|] + v[i + |a|..i + |a| + |b|];
  }

  lemma AtSplit(v: Text, i: nat, a: Text, b: Text)
    requires At(v, i, a + b)
    ensures At(v, i, a) && At(v, i + |a|, b)
  {
    assert v[i..i + |a + b|][..|a|] == a;
    assert v[i..i + |a + b|][|a|..] == b;
  }
}
