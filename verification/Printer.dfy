/**
 The text printer: `dump`, and `numtostr` for the two integer types.

 The text of a floating-point number is a parameter, `show`.
 */
module Printer {
  import opened Bytes
  import opened Json
  import opened Strings

  const SPACE: byte := 0x20
  const NEWLINE: byte := 0x0A
  const COMMA: byte := 0x2C
  const COLON: byte := 0x3A
  const OPEN_BRACKET: byte := 0x5B
  const CLOSE_BRACKET: byte := 0x5D
  const OPEN_BRACE: byte := 0x7B
  const CLOSE_BRACE: byte := 0x7D
  const TWO_TO_THE_32: int := 0x1_0000_0000

  type uint32 = x: int | 0 <= x < TWO_TO_THE_32

  // ----- numtostr

  /** Division of the source: the quotient is truncated toward zero. */
  function Quotient(x: int, y: int): int
    requires y > 0
  {
    if x < 0 then -((-x) / y) else x / y
  }

  function Remainder(x: int, y: int): int
    requires y > 0
  {
    x - y * Quotient(x, y)
  }

  function Magnitude(x: int): nat {
    if x < 0 then -x else x
  }

  function Pow10(n: nat): nat {
    if n == 0 then 1 else 10 * Pow10(n - 1)
  }

  function Mirror(s: Text): (r: Text) {
    seq(|s|, i requires 0 <= i < |s| => s[|s| - 1 - i])
  }

  /** `std::reverse` of the first `n` bytes. */
  method ReversePrefix(buf: array<byte>, n: nat)
    requires n <= buf.Length
    modifies buf
    ensures buf[..n] == Mirror(old(buf[..n]))
    ensures forall k :: n <= k < buf.Length ==> buf[k] == old(buf[k])
  {
    for i := 0 to n / 2
      invariant forall k :: 0 <= k < i ==> buf[k] == old(buf[n - 1 - k]) && buf[n - 1 - k] == old(buf[k])
      invariant forall k :: i <= k < n - i || n <= k < buf.Length ==> buf[k] == old(buf[k])
    {
      buf[i], buf[n - 1 - i] := buf[n - 1 - i], buf[i];
    }
  }

  lemma OneDigit(x: int)
    requires x != 0
    ensures Magnitude(Remainder(x, 10)) == Magnitude(x) % 10
    ensures Magnitude(Quotient(x, 10)) == Magnitude(x) / 10
    ensures (x < 0) == (Quotient(x, 10) < 0) || Quotient(x, 10) == 0
  {
  }

  /** The digits already in the buffer, most significant last, complete those to come. */
  ghost predicate DigitsDone(x: int, left: int, digits: Text) {
    Decimal(Magnitude(x)) == (if left == 0 then [] else Decimal(Magnitude(left))) + Mirror(digits)
  }

  lemma DigitDone(x: int, left: int, digits: Text)
    requires left != 0 && DigitsDone(x, left, digits)
    ensures DigitsDone(x, Quotient(left, 10), digits + [0x30 + Magnitude(left) % 10])
  {
    var d: byte := 0x30 + Magnitude(left) % 10;
    OneDigit(left);
    DecimalStep(Magnitude(left));
    assert Mirror(digits + [d]) == [d] + Mirror(digits);
  }

  lemma DecimalStep(n: nat)
    requires n > 0
    ensures Decimal(n) == (if n / 10 == 0 then [] else Decimal(n / 10)) + [0x30 + n % 10]
  {
  }

  /** One round of the loop: writes the last digit of `x` and gives what is left of it. */
  method WriteDigit(buf: array<byte>, i: nat, ghost value: int, x: int) returns (left: int)
    requires i < buf.Length && x != 0 && DigitsDone(value, x, buf[..i])
    modifies buf
    ensures DigitsDone(value, left, buf[..i + 1]) && Magnitude(left) == Magnitude(x) / 10
    ensures forall k :: 0 <= k < buf.Length && k != i ==> buf[k] == old(buf[k])
  {
    hide Quotient, Remainder, DigitsDone;
    OneDigit(x);
    DigitDone(value, x, buf[..i]);
    var digit := Magnitude(Remainder(x, 10));
    ghost var before := buf[..i];
    buf[i] := 0x30 + digit;
    assert buf[..i + 1] == before + [0x30 + digit];
    left := Quotient(x, 10);
  }

  /** The digits of a number, the least significant first; `i` counts them. */
  method WriteDigits(buf: array<byte>, value: int) returns (i: nat)
    requires buf.Length == 64 && forall k :: 0 <= k < 64 ==> buf[k] == 0
    requires -TWO_TO_THE_63 <= value < TWO_TO_THE_64 && value != 0
    modifies buf
    ensures i <= 20 && Mirror(buf[..i]) == Decimal(Magnitude(value))
    ensures forall k :: i <= k < 64 ==> buf[k] == 0
  {
    assert Magnitude(value) < Pow10(20) by { PowersOfTen(); }
    hide Decimal, Quotient, Remainder, Mirror, DigitsDone, Pow10;
    var x := value;
    i := 0;
    NothingDone(value);
    assert buf[..0] == [];
    while x != 0 && i < buf.Length - 1
      invariant i <= 20 && Magnitude(x) < Pow10(20 - i)
      invariant DigitsDone(value, x, buf[..i])
      invariant forall k :: i <= k < buf.Length ==> buf[k] == 0
      decreases Magnitude(x)
    {
      FewerDigits(Magnitude(x), 20 - i);
      x := WriteDigit(buf, i, value, x);
      i := i + 1;
    }
    assert x == 0;
    AllDone(value, buf[..i]);
  }

  lemma FewerDigits(m: nat, k: nat)
    requires 0 < m < Pow10(k)
    ensures k > 0 && m / 10 < Pow10(k - 1)
  {
  }

  lemma AllDone(x: int, digits: Text)
    requires DigitsDone(x, 0, digits)
    ensures Mirror(digits) == Decimal(Magnitude(x))
  {
    assert [] + Mirror(digits) == Mirror(digits);
  }

  lemma NothingDone(x: int)
    requires x != 0
    ensures DigitsDone(x, x, [])
  {
  }

  /** The buffer of 64 bytes is large enough, and holds the numeral before its first NUL. */
  method NumToStr(value: int) returns (text: Text)
    requires -TWO_TO_THE_63 <= value < TWO_TO_THE_64
    ensures text == Numeral(value)
  {
    hide Decimal, Mirror;
    var buf := new byte[64](_ => 0);
    if value == 0 {
      buf[0] := 0x30;
      text := CStr(buf, 1);
      return;
    }
    var i := WriteDigits(buf, value);
    ghost var digits := buf[..i];
    if value < 0 {
      assert i < buf.Length - 2;
      buf[i] := MINUS;
      i := i + 1;
      MirrorSnoc(digits, MINUS);
      assert buf[..i] == digits + [MINUS];
    }
    ReversePrefix(buf, i);
    NumeralNotNul(value);
    assert buf[..i] == Numeral(value);
    text := CStr(buf, i);
  }

  lemma MirrorSnoc(s: Text, c: byte)
    ensures Mirror(s + [c]) == [c] + Mirror(s)
  {
  }

  lemma NumeralNotNul(x: int)
    ensures forall k :: 0 <= k < |Numeral(x)| ==> Numeral(x)[k] != 0
  {
    hide Decimal;
    var s := Decimal(Magnitude(x));
    assert forall k :: 0 <= k < |s| ==> IsDigit(s[k]);
  }

  lemma PowersOfTen()
    ensures Pow10(20) == 100_000_000_000_000_000_000
  {
    assert Pow10(10) == 10_000_000_000;
    assert Pow10(15) == 100_000 * Pow10(10);
  }

  /** `c_str`: the bytes before the first NUL. */
  method CStr(buf: array<byte>, ghost n: nat) returns (text: Text)
    requires n < buf.Length && buf[n] == 0 && forall k :: 0 <= k < n ==> buf[k] != 0
    ensures text == buf[..n]
  {
    var len := 0;
    while buf[len] != 0
      invariant len <= n
      decreases n - len
    {
      len := len + 1;
    }
    return buf[..len];
  }

  // ----- dump

  function Spaces(n: nat): Text {
    seq(n, _ => SPACE)
  }

  /** How to print: `pretty_print`, `indent_step`, and the text of a float. */
  datatype Style = Style(pretty: bool, step: uint32, show: uint64 -> Text)

  /** The indentation inside a container; `unsigned int` wraps around. */
  function Deeper(style: Style, indent: uint32): uint32 {
    if style.pretty then (indent + style.step) % TWO_TO_THE_32 else indent
  }

  function LineBreak(style: Style): Text {
    if style.pretty then [NEWLINE] else []
  }

  /** What stands before element number `i`. */
  function Separator(style: Style, i: nat, indent: uint32): Text {
    (if i == 0 then [] else [COMMA] + LineBreak(style)) + Spaces(indent)
  }

  function KeyText(style: Style, key: Text): Text {
    [QUOTE] + EscapeText(key) + [QUOTE, COLON] + (if style.pretty then [SPACE] else [])
  }

  /** What stands after the last element: the indentation is back at `indent`. */
  function Closing(style: Style, indent: uint32, close: byte): Text {
    LineBreak(style) + Spaces(indent) + [close]
  }

  function Dump(j: Json, style: Style, indent: uint32): Text
    decreases j, 1, 0
  {
    match j
    case Null => NULL_TEXT
    case Boolean(b) => if b then TRUE_TEXT else FALSE_TEXT
    case Integer(i) => Numeral(i)
    case Unsigned(u) => Numeral(u)
    case Float(bits) => style.show(bits)
    case String(s) => [QUOTE] + EscapeText(s) + [QUOTE]
    case Array(es) =>
      if es == [] then [OPEN_BRACKET, CLOSE_BRACKET]
      else
        var elems := DumpElems(j, 0, style, Deeper(style, indent));
        [OPEN_BRACKET] + LineBreak(style) + elems + Closing(style, indent, CLOSE_BRACKET)
    case Object(m) =>
      if |m| == 0 then [OPEN_BRACE, CLOSE_BRACE]
      else
        var members := DumpMembers(j, SortedKeys(m.Keys), 0, style, Deeper(style, indent));
        [OPEN_BRACE] + LineBreak(style) + members + Closing(style, indent, CLOSE_BRACE)
  }

  /** The elements of the array `j` from number `i` on. */
  function DumpElems(j: Json, i: nat, style: Style, indent: uint32): Text
    requires j.Array? && i <= |j.elems|
    decreases j, 0, |j.elems| - i
  {
    if i == |j.elems| then []
    else Separator(style, i, indent) + Dump(j.elems[i], style, indent) + DumpElems(j, i + 1, style, indent)
  }

  /** The members of the object `j` from key number `i` on. */
  function DumpMembers(j: Json, ks: seq<Text>, i: nat, style: Style, indent: uint32): Text
    requires j.Object? && i <= |ks| && forall k :: k in ks ==> k in j.members
    decreases j, 0, |ks| - i
  {
    if i == |ks| then []
    else
      var member := KeyText(style, ks[i]) + Dump(j.members[ks[i]], style, indent);
      Separator(style, i, indent) + member + DumpMembers(j, ks, i + 1, style, indent)
  }

  class Stream {
    var text: Text

    constructor ()
      ensures text == []
    {
      text := [];
    }

    /** `operator<<` */
    method Write(s: Text)
      modifies this
      ensures text == old(text) + s
    {
      text := text + s;
    }

    /** `dump` of a value to this stream. */
    method PrintValue(j: Json, style: Style, indent: uint32)
      modifies this
      ensures text == old(text) + Dump(j, style, indent)
      decreases j, 1, 0
    {
      hide Numeral, EscapeText, DumpElems, DumpMembers, SortedKeys;
      match j
      case Null => Write(NULL_TEXT);
      case Boolean(b) => Write(if b then TRUE_TEXT else FALSE_TEXT);
      case Integer(i) =>
        var s := NumToStr(i);
        Write(s);
      case Unsigned(u) =>
        var s := NumToStr(u);
        Write(s);
      case Float(bits) => Write(style.show(bits));
      case String(s) =>
        var e := EscapeString(s);
        Write([QUOTE] + e + [QUOTE]);
      case Array(_) => PrintArray(j, style, indent);
      case Object(_) => PrintObject(j, style, indent);
    }

    /** The end of a container, where the indentation is taken back. */
    method PrintClosing(style: Style, indent: uint32, close: byte)
      modifies this
      ensures text == old(text) + Closing(style, indent, close)
    {
      var inner := Deeper(style, indent);
      if style.pretty {
        inner := (inner - style.step) % TWO_TO_THE_32;
        Write([NEWLINE]);
      }
      assert inner == indent;
      Write(Spaces(inner) + [close]);
    }

    method PrintArray(j: Json, style: Style, indent: uint32)
      requires j.Array?
      modifies this
      ensures text == old(text) + Dump(j, style, indent)
      decreases j, 0, |j.elems| + 1
    {
      hide Dump, Closing, DumpElems;
      DumpArray(j, style, indent);
      if j.elems == [] {
        Write([OPEN_BRACKET, CLOSE_BRACKET]);
        return;
      }
      Write([OPEN_BRACKET] + LineBreak(style));
      PrintElems(j, style, Deeper(style, indent));
      PrintClosing(style, indent, CLOSE_BRACKET);
    }

    method PrintElems(j: Json, style: Style, indent: uint32)
      requires j.Array?
      modifies this
      ensures text == old(text) + DumpElems(j, 0, style, indent)
      decreases j, 0, |j.elems|
    {
      hide Dump, Separator, DumpElems;
      for i := 0 to |j.elems|
        invariant text + DumpElems(j, i, style, indent) == old(text) + DumpElems(j, 0, style, indent)
      {
        ghost var before := text;
        DumpElem(j, i, style, indent);
        PrintSeparator(style, i, indent);
        PrintValue(j.elems[i], style, indent);
        Regroup(before, Separator(style, i, indent), Dump(j.elems[i], style, indent), DumpElems(j, i + 1, style, indent));
      }
      DumpElemsEnd(j, style, indent);
    }

    method PrintSeparator(style: Style, i: nat, indent: uint32)
      modifies this
      ensures text == old(text) + Separator(style, i, indent)
    {
      hide Spaces;
      if i != 0 {
        Write(if style.pretty then [COMMA, NEWLINE] else [COMMA]);
      }
      Write(Spaces(indent));
    }

    method PrintObject(j: Json, style: Style, indent: uint32)
      requires j.Object?
      modifies this
      ensures text == old(text) + Dump(j, style, indent)
      decreases j, 0, |j.members| + 1
    {
      hide Dump, Closing, DumpMembers, SortedKeys;
      DumpObject(j, style, indent);
      if |j.members| == 0 {
        Write([OPEN_BRACE, CLOSE_BRACE]);
        return;
      }
      Write([OPEN_BRACE] + LineBreak(style));
      PrintMembers(j, SortedKeys(j.members.Keys), style, Deeper(style, indent));
      PrintClosing(style, indent, CLOSE_BRACE);
    }

    method PrintMembers(j: Json, ks: seq<Text>, style: Style, indent: uint32)
      requires j.Object? && forall k :: k in ks ==> k in j.members
      modifies this
      ensures text == old(text) + DumpMembers(j, ks, 0, style, indent)
      decreases j, 0, |ks|
    {
      hide Dump, Separator, KeyText, DumpMembers;
      for i := 0 to |ks|
        invariant text + DumpMembers(j, ks, i, style, indent) == old(text) + DumpMembers(j, ks, 0, style, indent)
      {
        ghost var before := text;
        DumpMember(j, ks, i, style, indent);
        PrintSeparator(style, i, indent);
        PrintKey(style, ks[i]);
        PrintValue(j.members[ks[i]], style, indent);
        ghost var value := Dump(j.members[ks[i]], style, indent);
        Associate(before + Separator(style, i, indent), KeyText(style, ks[i]), value);
        Regroup(before, Separator(style, i, indent), KeyText(style, ks[i]) + value, DumpMembers(j, ks, i + 1, style, indent));
      }
      DumpMembersEnd(j, ks, style, indent);
    }

    method PrintKey(style: Style, key: Text)
      modifies this
      ensures text == old(text) + KeyText(style, key)
    {
      hide EscapeText;
      var e := EscapeString(key);
      Write([QUOTE] + e + [QUOTE, COLON]);
      Write(if style.pretty then [SPACE] else []);
    }
  }

  lemma Associate(a: Text, b: Text, c: Text)
    ensures a + b + c == a + (b + c)
  {
  }

  lemma Regroup(a: Text, b: Text, c: Text, d: Text)
    ensures a + b + c + d == a + (b + c + d)
  {
  }

  lemma DumpArray(j: Json, style: Style, indent: uint32)
    requires j.Array?
    ensures Dump(j, style, indent) ==
      if j.elems == [] then [OPEN_BRACKET, CLOSE_BRACKET]
      else
        var elems := DumpElems(j, 0, style, Deeper(style, indent));
        [OPEN_BRACKET] + LineBreak(style) + elems + Closing(style, indent, CLOSE_BRACKET)
  {
    hide DumpElems;
  }

  lemma DumpObject(j: Json, style: Style, indent: uint32)
    requires j.Object?
    ensures Dump(j, style, indent) ==
      if |j.members| == 0 then [OPEN_BRACE, CLOSE_BRACE]
      else
        var members := DumpMembers(j, SortedKeys(j.members.Keys), 0, style, Deeper(style, indent));
        [OPEN_BRACE] + LineBreak(style) + members + Closing(style, indent, CLOSE_BRACE)
  {
    hide DumpMembers, SortedKeys;
  }

  lemma DumpElem(j: Json, i: nat, style: Style, indent: uint32)
    requires j.Array? && i < |j.elems|
    ensures DumpElems(j, i, style, indent) ==
      Separator(style, i, indent) + Dump(j.elems[i], style, indent) + DumpElems(j, i + 1, style, indent)
  {
    hide Dump;
  }

  lemma DumpElemsEnd(j: Json, style: Style, indent: uint32)
    requires j.Array?
    ensures DumpElems(j, |j.elems|, style, indent) == []
  {
  }

  lemma DumpMember(j: Json, ks: seq<Text>, i: nat, style: Style, indent: uint32)
    requires j.Object? && i < |ks| && forall k :: k in ks ==> k in j.members
    ensures ks[i] in j.members
    ensures var member := KeyText(style, ks[i]) + Dump(j.members[ks[i]], style, indent);
      DumpMembers(j, ks, i, style, indent) == Separator(style, i, indent) + member + DumpMembers(j, ks, i + 1, style, indent)
  {
    hide Dump;
  }

  lemma DumpMembersEnd(j: Json, ks: seq<Text>, style: Style, indent: uint32)
    requires j.Object? && forall k :: k in ks ==> k in j.members
    ensures DumpMembers(j, ks, |ks|, style, indent) == []
  {
  }
}
