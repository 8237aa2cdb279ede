/**
 Array indices in JSON Pointers: which tokens `std::stoi` reads, and what the unchecked
 walk makes of a token for which there is nothing yet.
 */
module Indices {
  import opened Bytes
  import opened Results
  import opened Json
  import opened Patch
  import opened PatchLocality
  import opened PatchOperations
  import E = PatchEdits
  import P = Pointer

  // ----- std::stoi

  /** The white space of the "C" locale. */
  const WHITE: set<byte> := {0x20, 0x09, 0x0A, 0x0B, 0x0C, 0x0D}

  /** White space, at most one sign, a longest run of digits, and anything. */
  predicate IsNumeral(blanks: Text, sign: Text, digits: Text, rest: Text) {
    && (forall i :: 0 <= i < |blanks| ==> blanks[i] in WHITE)
    && (sign == [] || sign == [0x2B] || sign == [0x2D])
    && digits != [] && AllDigits(digits) && (rest != [] ==> !IsDigit(rest[0]))
  }

  function Signed(sign: Text, magnitude: nat): int {
    var n: int := magnitude;
    if sign == [0x2D] then -n else n
  }

  lemma {:induction false} SkipBlanks(blanks: Text, s: Text)
    requires forall i :: 0 <= i < |blanks| ==> blanks[i] in WHITE
    requires s != [] && s[0] !in WHITE
    ensures SkipSpace(blanks + s) == s
    decreases |blanks|
  {
    if blanks == [] {
      assert blanks + s == s;
    } else {
      assert (blanks + s)[1..] == blanks[1..] + s;
      SkipBlanks(blanks[1..], s);
    }
  }

  lemma DigitRun(digits: Text, rest: Text)
    requires AllDigits(digits) && (rest != [] ==> !IsDigit(rest[0]))
    ensures DigitPrefix(digits + rest) == |digits| && (digits + rest)[..|digits|] == digits
  {
    var s, k := digits + rest, DigitPrefix(digits + rest);
    assert forall i :: 0 <= i < k ==> s[i] == s[..k][i];
    assert forall i :: 0 <= i < |digits| ==> s[i] == digits[i];
    assert rest != [] ==> s[|digits|] == rest[0];
  }

  /** Such a text is read as the number of its digits, if an `int` can hold it. */
  lemma StoiReads(blanks: Text, sign: Text, digits: Text, rest: Text)
    requires IsNumeral(blanks, sign, digits, rest)
    ensures var n := Signed(sign, DigitsValue(digits));
      Stoi(blanks + (sign + (digits + rest))) == if -0x8000_0000 <= n <= 0x7FFF_FFFF then Ok(n) else Err(OutOfRange)
  {
    hide DigitsValue, DigitPrefix, SkipSpace;
    var t := sign + (digits + rest);
    assert t[0] == if sign == [] then digits[0] else sign[0];
    assert sign == [] ==> t == digits + rest;
    assert sign != [] ==> t[1..] == digits + rest;
    SkipBlanks(blanks, t);
    DigitRun(digits, rest);
  }

  /** And nothing else is read. */
  lemma StoiShape(s: Text) returns (blanks: Text, sign: Text, digits: Text, rest: Text)
    requires Stoi(s) != Err(InvalidArgument)
    ensures IsNumeral(blanks, sign, digits, rest) && s == blanks + (sign + (digits + rest))
  {
    hide DigitsValue, DigitPrefix, SkipSpace, Stoi;
    var t := SkipSpace(s);
    blanks := Skipped(s);
    sign := if t != [] && (t[0] == 0x2D || t[0] == 0x2B) then [t[0]] else [];
    var all := t[|sign|..];
    SomeDigits(s, t, sign);
    var k := DigitPrefix(all);
    digits, rest := all[..k], all[k..];
    assert t == sign + all && all == digits + rest;
  }

  lemma SomeDigits(s: Text, t: Text, sign: Text)
    requires Stoi(s) != Err(InvalidArgument) && t == SkipSpace(s)
    requires sign == if t != [] && (t[0] == 0x2D || t[0] == 0x2B) then [t[0]] else []
    ensures DigitPrefix(t[|sign|..]) > 0
  {
    hide DigitsValue, DigitPrefix, SkipSpace;
    assert t[0..] == t;
  }

  lemma {:induction false} Skipped(s: Text) returns (blanks: Text)
    ensures s == blanks + SkipSpace(s) && forall i :: 0 <= i < |blanks| ==> blanks[i] in WHITE
  {
    blanks := [];
    if s != [] && IsSpace(s[0]) {
      var more := Skipped(s[1..]);
      blanks := [s[0]] + more;
    }
  }

  // ----- the token of an element

  lemma {:induction false} DecimalBack(s: Text)
    requires s != [] && AllDigits(s) && (|s| > 1 ==> s[0] != 0x30)
    ensures Decimal(DigitsValue(s)) == s && (|s| > 1 ==> DigitsValue(s) > 0)
    decreases |s|
  {
    var init := s[..|s| - 1];
    assert s == init + [s[|s| - 1]];
    if |s| > 1 {
      DecimalBack(init);
      assert |init| == 1 ==> DigitsValue(init) == DigitsValue(init[..0]) * 10 + (init[0] - 0x30);
    } else {
      assert DigitsValue(init) == 0;
    }
  }

  /** Among the tokens of digits, exactly the decimal indices of its elements, without
      leading zeros, resolve in an array. */
  lemma DigitTokens(es: seq<Json>, token: Text)
    requires AllDigits(token)
    ensures Child(Array(es), token).Ok? <==> exists i: nat :: i < |es| && i <= 0x7FFF_FFFF && token == Decimal(i)
    ensures |token| > 1 && token[0] == 0x30 ==> Child(Array(es), token) == Err(DomainError)
  {
    hide Decimal, DigitsValue;
    assert DASH != token by { assert !IsDigit(DASH[0]); }
    if i: nat :| i < |es| && i <= 0x7FFF_FFFF && token == Decimal(i) {
      StoiDecimal(i);
    }
    if Child(Array(es), token).Ok? {
      NonEmptyToken(token);
      StoiReads([], [], token, []);
      assert [] + ([] + (token + [])) == token;
      DecimalBack(token);
    }
  }

  lemma NonEmptyToken(token: Text)
    requires Stoi(token).Ok?
    ensures token != []
  {
  }

  /** RFC 6901 allows no other tokens, but `std::stoi` ignores what follows the digits. */
  lemma LooseToken(es: seq<Json>, i: nat, rest: Text)
    requires i < |es| && i <= 0x7FFF_FFFF && rest != [] && !IsDigit(rest[0]) && i > 0
    ensures Child(Array(es), Decimal(i) + rest) == Ok(es[i])
  {
    hide Decimal, DigitsValue, Stoi;
    var digits := Decimal(i);
    StoiReads([], [], digits, rest);
    assert [] + ([] + (digits + rest)) == digits + rest;
    DecimalValue(i);
  }

  // ----- growing

  /** A negative index becomes a size modulo 2^64. The array is to grow by what that is above
      its size, plus 1: by nothing, for -1 and an empty array, or by more than it can hold. */
  lemma NegativeIndex(i: int, size: nat)
    requires INT_MIN <= i < 0 && size < 0x4000_0000_0000_0000
    ensures var growth := (i % TWO_TO_THE_64 - size + 1) % TWO_TO_THE_64;
      if BadIndex(i, size) == Undefined then growth == 0 else BadIndex(i, size) == LengthError && growth > TWO_TO_THE_63
  {
  }

  /** A token of digits or "-" begins an array, with nulls before the index; any other
      begins an object. */
  ghost predicate IsAround(created: Json, token: Text, v: Json) {
    if token == DASH then created == Array([v])
    else if AllDigits(token) then
      created.Array? && created.elems != [] && created.elems[|created.elems| - 1] == v &&
      token == Decimal(|created.elems| - 1) && forall k :: 0 <= k < |created.elems| - 1 ==> created.elems[k] == Null
    else created == Object(map[token := v])
  }

  lemma CreateAround(token: Text, v: Json)
    requires AllDigits(token) ==> exists i: nat :: i <= 0x7FFF_FFFF && token == Decimal(i)
    ensures Unchecked(Null, [token], _ => Ok(v)).Ok? && IsAround(Unchecked(Null, [token], _ => Ok(v)).value, token, v)
  {
    hide Decimal, Stoi;
    assert [token][1..] == [];
    if AllDigits(token) {
      var i: nat :| i <= 0x7FFF_FFFF && token == Decimal(i);
      CreateArray(i, v);
    }
  }

  lemma CreateArray(i: nat, v: Json)
    requires i <= 0x7FFF_FFFF
    ensures Decimal(i) != DASH
    ensures Unchecked(Null, [Decimal(i)], _ => Ok(v)) == Ok(Array(Nulls(i) + [v]))
  {
    hide Decimal, Stoi;
    IndexToken([], i);
    assert [Decimal(i)][1..] == [];
    assert ([] + Nulls(i + 1))[i := v] == Nulls(i) + [v];
  }

  /** Copying to a place below a missing member creates that member. */
  lemma CopyCreates(doc: Json, from: Path, p: Path, m: map<Text, Json>, key: Text, token: Text) returns (created: Json)
    requires Resolve(doc, from).Ok? && Resolve(doc, p) == Ok(Object(m)) && key !in m
    requires AllDigits(token) ==> exists i: nat :: i <= 0x7FFF_FFFF && token == Decimal(i)
    ensures IsAround(created, token, Resolve(doc, from).value)
    ensures E.Becomes(doc, p, Apply(doc, FromOp(COPY, P.Print(from), P.Print(p + [key, token]))), Object(m[key := created]))
  {
    hide Stoi;
    var v := Resolve(doc, from).value;
    P.SplitPrint(from);
    P.SplitPrint(p + [key, token]);
    UncheckedBelow(doc, p, [key, token], _ => Ok(v));
    CreateAround(token, v);
    created := Unchecked(Null, [token], _ => Ok(v)).value;
    BelowMissing(m, key, token, v);
    hide Resolve, Put, IsAround, Unchecked;
    E.PutBecomes(doc, p, Object(m[key := created]));
  }

  lemma BelowMissing(m: map<Text, Json>, key: Text, token: Text, v: Json)
    requires key !in m && Unchecked(Null, [token], _ => Ok(v)).Ok?
    ensures Unchecked(Object(m), [key, token], _ => Ok(v)) ==
      Ok(Object(m[key := Unchecked(Null, [token], _ => Ok(v)).value]))
  {
    assert [key, token][1..] == [token];
  }

  /** A failed "add" loses nothing: every value but null stays where it was, and with the
      top element missing nothing changes at all. */
  lemma {:induction false} CreatedKeeps(j: Json, path: Path, q: Path)
    requires Resolve(j, q).Ok? && IsPrimitive(Resolve(j, q).value) && !Resolve(j, q).value.Null?
    ensures Resolve(Created(j, path), q) == Resolve(j, q)
    decreases |path|
  {
    hide Stoi;
    if path != [] && q != [] {
      var child := Child(j, q[0]).value;
      match j
      case Object(m) =>
        if q[0] == path[0] { CreatedKeeps(child, path[1..], q[1..]); }
      case Array(es) =>
        var index := if path[0] == DASH then Ok(|es|) else ArrayIndex(path[0]);
        if index.Ok? && index.value == ArrayIndex(q[0]).value {
          CreatedKeeps(child, path[1..], q[1..]);
        }
    }
  }

  lemma MissingTop(doc: Json, ptr: Path, v: Json)
    requires |ptr| > 1 && Child(doc, ptr[0]).Err?
    ensures Add(doc, ptr, v) == Err(Child(doc, ptr[0]).error) && AddFailure(doc, ptr, v) == doc
  {
  }
}
