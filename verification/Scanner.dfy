/**
 The scanner `lexer::scan`: a deterministic automaton generated by re2c.

 A state is named after what has been read; the number is the label in the generated
 code that is entered by reading the last byte. The input is followed by a NUL byte.
 */
module Scanner {
  import opened Bytes
  import opened Results
  import opened Strings

  datatype Token =
    | LiteralTrue | LiteralFalse | LiteralNull
    | ValueString | ValueUnsigned | ValueInteger | ValueFloat
    | BeginArray | BeginObject | EndArray | EndObject
    | NameSeparator | ValueSeparator
    | ParseError | EndOfInput

  datatype State =
    | Quote           // 9
    | Chars           // 30: in a string, between characters
    | CloseQuote      // 33
    | Escape          // 35: after a backslash
    | OneMore         // 36: one continuation byte to come
    | AfterE0         // 37
    | TwoMore         // 38
    | AfterED         // 39
    | AfterF0         // 40
    | ThreeMore       // 41
    | AfterF4         // 42
    | Hex1            // 55: after \u
    | Hex2            // 65
    | Hex3            // 71
    | Hex4            // 74: one hexadecimal digit to come
    | Minus           // 12
    | Zero            // 13
    | Digits          // 15
    | MinusZero       // 43
    | MinusDigits     // 45
    | Point           // 47
    | ExtraDigits     // 48: digits after a leading zero
    | Exponent        // 51
    | Fraction        // 56
    | ExponentSign    // 59
    | ExponentDigits  // 60
    | F1 | F2 | F3 | F4   // 23, 52, 62, 66: "f", "fa", "fal", "fals"
    | N1 | N2 | N3        // 24, 53, 63: "n", "nu", "nul"
    | T1 | T2 | T3        // 25, 54, 64: "t", "tr", "tru"
    | Final(token: Token) // labels that emit a token at once: 2, 4, 10, 17, 19, 21, 26, 28, 67, 69, 72

  datatype Action =
    | Move(to: State)   // read the byte and go on
    | Emit(token: Token) // the token ends before the byte
    | Backtrack         // label 32: the token ends at the marker

  // the classes of the table yybm
  predicate Blank(c: byte) { c == 0x09 || c == 0x0A || c == 0x0D || c == 0x20 }

  predicate PlainChar(c: byte) { 0x20 <= c <= 0x7F && c != QUOTE && c != BACKSLASH }

  /** The first byte of a token that is not a blank. */
  function First(c: byte): State {
    if c == 0x00 then Final(EndOfInput)
    else if c == QUOTE then Quote
    else if c == 0x2C then Final(ValueSeparator)
    else if c == 0x2D then Minus
    else if c == 0x30 then Zero
    else if 0x31 <= c <= 0x39 then Digits
    else if c == 0x3A then Final(NameSeparator)
    else if c == 0x5B then Final(BeginArray)
    else if c == 0x5D then Final(EndArray)
    else if c == 0x66 then F1
    else if c == 0x6E then N1
    else if c == 0x74 then T1
    else if c == 0x7B then Final(BeginObject)
    else if c == 0x7D then Final(EndObject)
    else Final(ParseError)
  }

  /** Label 31: the next byte of a string. */
  function StringByte(c: byte): Action {
    if PlainChar(c) then Move(Chars)
    else if c <= 0x1F then Backtrack
    else if c == QUOTE then Move(CloseQuote)
    else if c == BACKSLASH then Move(Escape)
    else if c <= 0xC1 then Backtrack
    else if c <= 0xDF then Move(OneMore)
    else if c == 0xE0 then Move(AfterE0)
    else if c == 0xED then Move(AfterED)
    else if c <= 0xEF then Move(TwoMore)
    else if c == 0xF0 then Move(AfterF0)
    else if c <= 0xF3 then Move(ThreeMore)
    else if c == 0xF4 then Move(AfterF4)
    else Backtrack
  }

  function Expect(ok: bool, to: State): Action {
    if ok then Move(to) else Backtrack
  }

  function Next(q: State, c: byte): Action {
    match q
    case Quote => if c <= 0x1F || 0x80 <= c <= 0xC1 || c > 0xF4 then Emit(ParseError) else StringByte(c)
    case Chars => StringByte(c)
    case CloseQuote => Emit(ValueString)
    case Escape => if SimpleEscape(c) then Move(Chars) else Expect(c == 0x75, Hex1)
    case OneMore => Expect(Continuation(c), Chars)
    case AfterE0 => Expect(0xA0 <= c <= 0xBF, OneMore)
    case TwoMore => Expect(Continuation(c), OneMore)
    case AfterED => Expect(0x80 <= c <= 0x9F, OneMore)
    case AfterF0 => Expect(0x90 <= c <= 0xBF, TwoMore)
    case ThreeMore => Expect(Continuation(c), TwoMore)
    case AfterF4 => Expect(0x80 <= c <= 0x8F, TwoMore)
    case Hex1 => Expect(HexDigit(c), Hex2)
    case Hex2 => Expect(HexDigit(c), Hex3)
    case Hex3 => Expect(HexDigit(c), Hex4)
    case Hex4 => Expect(HexDigit(c), Chars)
    case Minus => if c == 0x30 then Move(MinusZero) else if 0x31 <= c <= 0x39 then Move(MinusDigits) else Emit(ParseError)
    case Zero =>
      if c == 0x2E then Move(Point) else if IsDigit(c) then Move(ExtraDigits)
      else if c == 0x45 || c == 0x65 then Move(Exponent) else Emit(ValueUnsigned)
    case Digits =>
      if IsDigit(c) then Move(Digits) else if c == 0x2E then Move(Point)
      else if c == 0x45 || c == 0x65 then Move(Exponent) else Emit(ValueUnsigned)
    case MinusZero =>
      if c == 0x2E then Move(Point) else if IsDigit(c) then Move(ExtraDigits)
      else if c == 0x45 || c == 0x65 then Move(Exponent) else Emit(ValueInteger)
    case MinusDigits =>
      if IsDigit(c) then Move(MinusDigits) else if c == 0x2E then Move(Point)
      else if c == 0x45 || c == 0x65 then Move(Exponent) else Emit(ValueInteger)
    case Point => Expect(IsDigit(c), Fraction)
    case ExtraDigits => if IsDigit(c) then Move(ExtraDigits) else Emit(ParseError)
    case Exponent => if c == 0x2B || c == 0x2D then Move(ExponentSign) else Expect(IsDigit(c), ExponentDigits)
    case Fraction =>
      if IsDigit(c) then Move(Fraction) else if c == 0x45 || c == 0x65 then Move(Exponent) else Emit(ValueFloat)
    case ExponentSign => Expect(IsDigit(c), ExponentDigits)
    case ExponentDigits => if IsDigit(c) then Move(ExponentDigits) else Emit(ValueFloat)
    case F1 => if c == 0x61 then Move(F2) else Emit(ParseError)
    case F2 => Expect(c == 0x6C, F3)
    case F3 => Expect(c == 0x73, F4)
    case F4 => Expect(c == 0x65, Final(LiteralFalse))
    case N1 => if c == 0x75 then Move(N2) else Emit(ParseError)
    case N2 => Expect(c == 0x6C, N3)
    case N3 => Expect(c == 0x6C, Final(LiteralNull))
    case T1 => if c == 0x72 then Move(T2) else Emit(ParseError)
    case T2 => Expect(c == 0x75, T3)
    case T3 => Expect(c == 0x65, Final(LiteralTrue))
    case Final(t) => Emit(t)
  }

  /** States that record the position for backtracking, and the token to emit then
      (`m_marker` and `yyaccept`). */
  predicate SetsMarker(q: State) {
    q in {Quote, Zero, Digits, F1, N1, T1, MinusZero, MinusDigits, Fraction}
  }

  function MarkedToken(q: State): Token
    requires SetsMarker(q)
  {
    match q
    case Zero => ValueUnsigned
    case Digits => ValueUnsigned
    case MinusZero => ValueInteger
    case MinusDigits => ValueInteger
    case Fraction => ValueFloat
    case _ => ParseError
  }

  datatype Mark = Mark(token: Token, position: nat)

  function ByteAt(content: Text, i: nat): byte {
    if i < |content| then content[i] else 0
  }

  function Marked(q: State, cursor: nat, mark: Mark): Mark {
    if SetsMarker(q) then Mark(MarkedToken(q), cursor) else mark
  }

  lemma NulStops(q: State)
    ensures !Next(q, 0).Move?
  {
  }

  /** Runs the automaton from a state entered before `cursor`: the token and its end. */
  function Run(content: Text, q: State, cursor: nat, mark: Mark): (Token, nat)
    requires cursor <= |content| || q.Final?
    decreases |content| - cursor
  {
    NulStops(q);
    var m := Marked(q, cursor, mark);
    match Next(q, ByteAt(content, cursor))
    case Move(to) => Run(content, to, cursor + 1, m)
    case Emit(token) => (token, cursor)
    case Backtrack => (m.token, m.position)
  }

  function SkipBlanks(content: Text, pos: nat): (start: nat)
    requires pos <= |content|
    ensures pos <= start <= |content|
    ensures !Blank(ByteAt(content, start))
    decreases |content| - pos
  {
    if Blank(ByteAt(content, pos)) then SkipBlanks(content, pos + 1) else pos
  }

  datatype Scanned = Scanned(token: Token, start: nat, end: nat)

  /** `scan` from position `pos`. */
  function ScanFrom(content: Text, pos: nat): Scanned
    requires pos <= |content|
  {
    var start := SkipBlanks(content, pos);
    var (token, end) := Run(content, First(ByteAt(content, start)), start + 1, Mark(ParseError, start));
    Scanned(token, start, end)
  }

  // ----- every token moves the cursor

  lemma RunStep(content: Text, q: State, cursor: nat, mark: Mark)
    requires cursor <= |content| || q.Final?
    ensures var m := Marked(q, cursor, mark); var r := Run(content, q, cursor, mark);
      var a := Next(q, ByteAt(content, cursor));
      if a.Backtrack? then r == (m.token, m.position) else if a.Emit? then r == (a.token, cursor)
      else cursor < |content| && r == Run(content, a.to, cursor + 1, m)
  {
    NulStops(q);
  }

  lemma {:induction false} RunAdvances(content: Text, q: State, cursor: nat, mark: Mark, low: nat)
    requires cursor <= |content| || q.Final?
    requires low <= cursor && (low <= mark.position <= |content| || SetsMarker(q) || q.Minus? || q.Final?)
    ensures low <= Run(content, q, cursor, mark).1
    ensures Run(content, q, cursor, mark).1 <= |content| || q.Final?
    ensures q.Final? ==> Run(content, q, cursor, mark) == (q.token, cursor)
    ensures !q.Final? ==> Run(content, q, cursor, mark).0 != EndOfInput || mark.token == EndOfInput
    decreases |content| - cursor
  {
    hide Run, Next, SetsMarker, MarkedToken;
    RunStep(content, q, cursor, mark);
    var c := ByteAt(content, cursor);
    MarkStep(q, cursor, mark);
    StepKinds(q, c);
    if Next(q, c).Move? {
      RunAdvances(content, Next(q, c).to, cursor + 1, Marked(q, cursor, mark), low);
    }
  }

  lemma MarkStep(q: State, cursor: nat, mark: Mark)
    ensures SetsMarker(q) ==> Marked(q, cursor, mark).position == cursor && Marked(q, cursor, mark).token != EndOfInput
    ensures !SetsMarker(q) ==> Marked(q, cursor, mark) == mark
  {
  }

  /** Only states that set the marker, or come after one, can backtrack; and only the first
      byte of a token can be the end of the input. */
  lemma StepKinds(q: State, c: byte)
    ensures q.Final? ==> Next(q, c) == Emit(q.token)
    ensures q.Minus? ==> !Next(q, c).Backtrack? && (Next(q, c).Move? ==> SetsMarker(Next(q, c).to))
    ensures !q.Final? && Next(q, c).Emit? ==> Next(q, c).token != EndOfInput
    ensures Next(q, c).Move? ==> Next(q, c).to != Final(EndOfInput)
  {
  }

  /** Every token is non-empty and, but for the end of input, lies within the text. */
  lemma ScanMoves(content: Text, pos: nat)
    requires pos <= |content|
    ensures var s := ScanFrom(content, pos); pos <= s.start < s.end <= |content| + 1
    ensures var s := ScanFrom(content, pos); s.token != EndOfInput ==> s.end <= |content|
  {
    hide Run;
    var start := SkipBlanks(content, pos);
    var q := First(ByteAt(content, start));
    RunAdvances(content, q, start + 1, Mark(ParseError, start), start + 1);
  }

  // ----- strings

  lemma RunMove(content: Text, q: State, cursor: nat, mark: Mark, to: State)
    requires cursor <= |content| && !SetsMarker(q) && Next(q, ByteAt(content, cursor)) == Move(to)
    ensures cursor < |content| && Run(content, q, cursor, mark) == Run(content, to, cursor + 1, mark)
  {
    NulStops(q);
  }

  lemma RunBack(content: Text, q: State, cursor: nat, mark: Mark)
    requires cursor <= |content| && !SetsMarker(q) && Next(q, ByteAt(content, cursor)) == Backtrack
    ensures Run(content, q, cursor, mark) == (mark.token, mark.position)
  {
  }

  lemma RunExpect(content: Text, q: State, cursor: nat, mark: Mark, ok: bool, to: State)
    requires cursor <= |content| && !SetsMarker(q) && Next(q, ByteAt(content, cursor)) == Expect(ok, to)
    ensures ok ==> cursor < |content| && Run(content, q, cursor, mark) == Run(content, to, cursor + 1, mark)
    ensures !ok ==> Run(content, q, cursor, mark) == (mark.token, mark.position)
  {
    if ok { RunMove(content, q, cursor, mark, to); } else { RunBack(content, q, cursor, mark); }
  }

  /** The automaton is back between characters at `to`, or it gives up. */
  ghost predicate Rejoins(content: Text, q: State, cursor: nat, mark: Mark, ok: bool, to: nat)
    requires cursor <= |content|
  {
    if ok then to <= |content| && Run(content, q, cursor, mark) == Run(content, Chars, to, mark)
    else Run(content, q, cursor, mark) == (mark.token, mark.position)
  }

  lemma OneMoreRun(content: Text, cursor: nat, mark: Mark)
    requires cursor <= |content|
    ensures Rejoins(content, OneMore, cursor, mark, Continuation(ByteAt(content, cursor)), cursor + 1)
  {
    hide Run;
    RunExpect(content, OneMore, cursor, mark, Continuation(ByteAt(content, cursor)), Chars);
  }

  lemma ThreeRun(content: Text, q: State, cursor: nat, mark: Mark, ok: bool)
    requires cursor <= |content| && q in {TwoMore, AfterE0, AfterED}
    requires Next(q, ByteAt(content, cursor)) == Expect(ok, OneMore)
    ensures Rejoins(content, q, cursor, mark, ok && Continuation(ByteAt(content, cursor + 1)), cursor + 2)
  {
    hide Run;
    RunExpect(content, q, cursor, mark, ok, OneMore);
    if ok { OneMoreRun(content, cursor + 1, mark); }
  }

  lemma FourRun(content: Text, q: State, cursor: nat, mark: Mark, ok: bool)
    requires cursor <= |content| && q in {ThreeMore, AfterF0, AfterF4}
    requires Next(q, ByteAt(content, cursor)) == Expect(ok, TwoMore)
    ensures Rejoins(content, q, cursor, mark,
      ok && Continuation(ByteAt(content, cursor + 1)) && Continuation(ByteAt(content, cursor + 2)), cursor + 3)
  {
    hide Run;
    RunExpect(content, q, cursor, mark, ok, TwoMore);
    if ok { ThreeRun(content, TwoMore, cursor + 1, mark, Continuation(ByteAt(content, cursor + 1))); }
  }

  lemma HexRun(content: Text, cursor: nat, mark: Mark)
    requires cursor <= |content|
    ensures Rejoins(content, Hex1, cursor, mark, FourHex(content[cursor..]), cursor + 4)
  {
    hide Run, HexDigit;
    assert !HexDigit(0) by { NulIsNoHexDigit(); }
    var a := HexDigit(ByteAt(content, cursor));
    RunExpect(content, Hex1, cursor, mark, a, Hex2);
    if a {
      var b := HexDigit(ByteAt(content, cursor + 1));
      RunExpect(content, Hex2, cursor + 1, mark, b, Hex3);
      if b {
        var c := HexDigit(ByteAt(content, cursor + 2));
        RunExpect(content, Hex3, cursor + 2, mark, c, Hex4);
        if c { RunExpect(content, Hex4, cursor + 3, mark, HexDigit(ByteAt(content, cursor + 3)), Chars); }
      }
    }
  }

  lemma NulIsNoHexDigit()
    ensures !HexDigit(0)
  {
  }

  lemma EscapeRun(content: Text, cursor: nat, mark: Mark)
    requires cursor < |content| && content[cursor] == BACKSLASH
    ensures var n := EscapeLength(content[cursor..]); Rejoins(content, Chars, cursor, mark, n > 0, cursor + n)
  {
    hide Run, FourHex;
    RunMove(content, Chars, cursor, mark, Escape);
    var c := ByteAt(content, cursor + 1);
    var s := content[cursor..];
    if SimpleEscape(c) {
      RunMove(content, Escape, cursor + 1, mark, Chars);
    } else {
      RunExpect(content, Escape, cursor + 1, mark, c == LOWER_U, Hex1);
      if c == LOWER_U {
        assert s[2..] == content[cursor + 2..];
        HexRun(content, cursor + 2, mark);
        FourHexFits(content[cursor + 2..]);
      }
    }
  }

  lemma FourHexFits(s: Text)
    ensures FourHex(s) ==> |s| >= 4
  {
  }

  lemma CharRun(content: Text, cursor: nat, mark: Mark)
    requires cursor < |content| && content[cursor] >= 0x80
    ensures var n := CharLength(content[cursor..]); Rejoins(content, Chars, cursor, mark, n > 0, cursor + n)
  {
    hide Run;
    var c := content[cursor];
    var d := ByteAt(content, cursor + 1);
    assert StringByte(c) == Next(Chars, c);
    if c <= 0xC1 || c > 0xF4 {
      RunBack(content, Chars, cursor, mark);
    } else {
      var to := StringByte(c).to;
      RunMove(content, Chars, cursor, mark, to);
      if c <= 0xDF {
        OneMoreRun(content, cursor + 1, mark);
      } else if c <= 0xEF {
        ThreeRun(content, to, cursor + 1, mark, LeadsThree(c, d));
      } else {
        FourRun(content, to, cursor + 1, mark, LeadsFour(c, d));
      }
    }
  }

  /** The automaton reads one item of the grammar, or the closing quote, or gives up. */
  lemma ItemRun(content: Text, cursor: nat, mark: Mark)
    requires cursor <= |content|
    ensures var n := ItemLength(content[cursor..]);
      if n == 0 && ByteAt(content, cursor) == QUOTE then Run(content, Chars, cursor, mark) == (ValueString, cursor + 1)
      else Rejoins(content, Chars, cursor, mark, n > 0, cursor + n)
  {
    var c := ByteAt(content, cursor);
    if c == BACKSLASH {
      EscapeRun(content, cursor, mark);
    } else if c >= 0x80 {
      CharRun(content, cursor, mark);
    }
  }

  /** `content[from..end]` is a string token's tail: a string body and the closing quote. */
  predicate ClosesAt(content: Text, from: nat, end: nat) {
    from < end <= |content| && content[end - 1] == QUOTE && StringBody(content[from..end - 1])
  }

  lemma {:induction false} CharsRun(content: Text, cursor: nat, mark: Mark)
    requires cursor <= |content| && mark.token == ParseError
    ensures var (token, end) := Run(content, Chars, cursor, mark);
      (token == ValueString && ClosesAt(content, cursor, end)) || (token == ParseError && end == mark.position)
    decreases |content| - cursor
  {
    hide Run, ItemLength;
    var s := content[cursor..];
    var n := ItemLength(s);
    ItemRun(content, cursor, mark);
    if n > 0 {
      CharsRun(content, cursor + n, mark);
      var (token, end) := Run(content, Chars, cursor + n, mark);
      if token == ValueString {
        var body := content[cursor..end - 1];
        ItemLengthPrefix(body, s);
        assert body[n..] == content[cursor + n..end - 1];
      }
    }
  }

  /** An item is found by looking at its own bytes. */
  lemma ItemLengthPrefix(s: Text, t: Text)
    requires s <= t
    ensures ItemLength(s) > 0 ==> ItemLength(t) == ItemLength(s)
    ensures 0 < ItemLength(t) <= |s| ==> ItemLength(s) == ItemLength(t)
  {
  }

  lemma {:induction false} BodyRun(content: Text, cursor: nat, end: nat, mark: Mark)
    requires ClosesAt(content, cursor, end)
    ensures Run(content, Chars, cursor, mark) == (ValueString, end)
    decreases |content| - cursor
  {
    hide Run, ItemLength;
    var body := content[cursor..end - 1];
    ItemRun(content, cursor, mark);
    if body == [] {
      QuoteIsNoItem(content[cursor..]);
    } else {
      var n := ItemLength(body);
      ItemLengthPrefix(body, content[cursor..]);
      assert body[n..] == content[cursor + n..end - 1];
      BodyRun(content, cursor + n, end, mark);
    }
  }

  lemma QuoteIsNoItem(s: Text)
    requires s != [] && s[0] == QUOTE
    ensures ItemLength(s) == 0
  {
  }

  lemma QuoteRun(content: Text, start: nat)
    requires start < |content|
    ensures Run(content, Quote, start + 1, Mark(ParseError, start)) ==
      Run(content, Chars, start + 1, Mark(ParseError, start + 1))
  {
    hide Run;
    var c := ByteAt(content, start + 1);
    RunStep(content, Quote, start + 1, Mark(ParseError, start));
    RunStep(content, Chars, start + 1, Mark(ParseError, start + 1));
    if Next(Quote, c).Emit? {
      assert Next(Chars, c) == Backtrack;
    } else {
      assert Next(Quote, c) == Next(Chars, c);
    }
  }

  /** From a quote on, the scanner finds a string token exactly if a string of the grammar
      stands there, and then the token is that string; else it is an error of one byte. */
  lemma ScanString(content: Text, pos: nat)
    requires pos < |content| && content[pos] == QUOTE
    ensures ScanFrom(content, pos).start == pos
    ensures var s := ScanFrom(content, pos);
      (s.token == ValueString && ClosesAt(content, pos + 1, s.end)) || (s.token == ParseError && s.end == pos + 1)
    ensures forall end: nat :: ClosesAt(content, pos + 1, end) ==> ScanFrom(content, pos) == Scanned(ValueString, pos, end)
  {
    hide Run, ClosesAt;
    QuoteRun(content, pos);
    var m := Mark(ParseError, pos + 1);
    CharsRun(content, pos + 1, m);
    var r := Run(content, Chars, pos + 1, m);
    assert ScanFrom(content, pos) == Scanned(r.0, pos, r.1);
    forall end: nat | ClosesAt(content, pos + 1, end)
      ensures ScanFrom(content, pos) == Scanned(ValueString, pos, end)
    {
      BodyRun(content, pos + 1, end, m);
    }
  }

  // ----- the other tokens

  lemma {:induction false} ScanSkips(content: Text, pos: nat, k: nat)
    requires pos + k <= |content| && forall i :: pos <= i < pos + k ==> Blank(content[i])
    ensures ScanFrom(content, pos) == ScanFrom(content, pos + k)
    decreases k
  {
    hide Run;
    if k > 0 {
      ScanSkips(content, pos + 1, k - 1);
    }
  }

  /** Tab, line feed, carriage return and space, in any number, may stand before a token
      (section 2 of RFC 7159), and nothing else may. */
  lemma BlanksBeforeToken(content: Text, pos: nat, k: nat)
    requires pos + k <= |content| && forall i :: pos <= i < pos + k ==> content[i] in {0x09, 0x0A, 0x0D, 0x20}
    ensures ScanFrom(content, pos) == ScanFrom(content, pos + k)
    ensures pos + k == |content| || content[pos + k] !in {0x09, 0x0A, 0x0D, 0x20} ==> ScanFrom(content, pos).start == pos + k
  {
    hide Run;
    ScanSkips(content, pos, k);
  }

  lemma ScanPunctuation(content: Text, pos: nat)
    requires pos < |content| && First(content[pos]).Final?
    requires !Blank(content[pos])
    ensures ScanFrom(content, pos) == Scanned(First(content[pos]).token, pos, pos + 1)
  {
  }

  /** `ScanFrom` at a byte that is not blank. */
  lemma ScanHere(content: Text, pos: nat, q: State, token: Token, end: nat)
    requires pos < |content| && !Blank(content[pos]) && q == First(content[pos])
    requires Run(content, q, pos + 1, Mark(ParseError, pos)) == (token, end)
    ensures ScanFrom(content, pos) == Scanned(token, pos, end)
  {
    hide Run;
  }

  lemma AtByte(content: Text, pos: nat, s: Text, i: nat)
    requires At(content, pos, s) && i < |s|
    ensures pos + i < |content| && ByteAt(content, pos + i) == s[i]
  {
    assert content[pos..pos + |s|][i] == content[pos + i];
  }

  lemma FinalRun(content: Text, token: Token, cursor: nat, mark: Mark)
    ensures Run(content, Final(token), cursor, mark) == (token, cursor)
  {
    hide Run;
    RunStep(content, Final(token), cursor, mark);
  }

  /** No byte that would continue an integer stands at `end`. */
  predicate NumberEnds(content: Text, end: nat) {
    var c := ByteAt(content, end);
    !IsDigit(c) && c != 0x2E && c != 0x45 && c != 0x65
  }

  // the words

  /** What the automaton does with a word whose first byte has been read: it matches the
      rest byte by byte, and on a mismatch the error is one byte long. */
  lemma ScanTrue(content: Text, pos: nat)
    requires pos < |content| && content[pos] == TRUE_TEXT[0]
    ensures ScanFrom(content, pos) ==
      if At(content, pos, TRUE_TEXT) then Scanned(LiteralTrue, pos, pos + 4) else Scanned(ParseError, pos, pos + 1)
  {
    hide Run;
    var m := Mark(ParseError, pos + 1);
    AtFour(content, pos, TRUE_TEXT);
    RunStep(content, T1, pos + 1, Mark(ParseError, pos));
    if ByteAt(content, pos + 1) == 0x72 {
      TrueTail(content, pos + 2, m);
    }
    var r := Run(content, T1, pos + 1, Mark(ParseError, pos));
    ScanHere(content, pos, T1, r.0, r.1);
  }

  lemma ScanNull(content: Text, pos: nat)
    requires pos < |content| && content[pos] == NULL_TEXT[0]
    ensures ScanFrom(content, pos) ==
      if At(content, pos, NULL_TEXT) then Scanned(LiteralNull, pos, pos + 4) else Scanned(ParseError, pos, pos + 1)
  {
    hide Run;
    var m := Mark(ParseError, pos + 1);
    AtFour(content, pos, NULL_TEXT);
    RunStep(content, N1, pos + 1, Mark(ParseError, pos));
    if ByteAt(content, pos + 1) == 0x75 {
      NullTail(content, pos + 2, m);
    }
    var r := Run(content, N1, pos + 1, Mark(ParseError, pos));
    ScanHere(content, pos, N1, r.0, r.1);
  }

  lemma TrueTail(content: Text, cursor: nat, mark: Mark)
    requires cursor <= |content|
    ensures Run(content, T2, cursor, mark) ==
      if ByteAt(content, cursor) == 0x75 && ByteAt(content, cursor + 1) == 0x65
      then (LiteralTrue, cursor + 2) else (mark.token, mark.position)
  {
    hide Run;
    RunExpect(content, T2, cursor, mark, ByteAt(content, cursor) == 0x75, T3);
    if ByteAt(content, cursor) == 0x75 {
      RunExpect(content, T3, cursor + 1, mark, ByteAt(content, cursor + 1) == 0x65, Final(LiteralTrue));
      FinalRun(content, LiteralTrue, cursor + 2, mark);
    }
  }

  lemma NullTail(content: Text, cursor: nat, mark: Mark)
    requires cursor <= |content|
    ensures Run(content, N2, cursor, mark) ==
      if ByteAt(content, cursor) == 0x6C && ByteAt(content, cursor + 1) == 0x6C
      then (LiteralNull, cursor + 2) else (mark.token, mark.position)
  {
    hide Run;
    RunExpect(content, N2, cursor, mark, ByteAt(content, cursor) == 0x6C, N3);
    if ByteAt(content, cursor) == 0x6C {
      RunExpect(content, N3, cursor + 1, mark, ByteAt(content, cursor + 1) == 0x6C, Final(LiteralNull));
      FinalRun(content, LiteralNull, cursor + 2, mark);
    }
  }

  lemma FalseTail(content: Text, cursor: nat, mark: Mark)
    requires cursor <= |content|
    ensures Run(content, F2, cursor, mark) ==
      if ByteAt(content, cursor) == 0x6C && ByteAt(content, cursor + 1) == 0x73 && ByteAt(content, cursor + 2) == 0x65
      then (LiteralFalse, cursor + 3) else (mark.token, mark.position)
  {
    hide Run;
    RunExpect(content, F2, cursor, mark, ByteAt(content, cursor) == 0x6C, F3);
    if ByteAt(content, cursor) == 0x6C {
      RunExpect(content, F3, cursor + 1, mark, ByteAt(content, cursor + 1) == 0x73, F4);
      if ByteAt(content, cursor + 1) == 0x73 {
        RunExpect(content, F4, cursor + 2, mark, ByteAt(content, cursor + 2) == 0x65, Final(LiteralFalse));
        FinalRun(content, LiteralFalse, cursor + 3, mark);
      }
    }
  }

  lemma ScanFalse(content: Text, pos: nat)
    requires pos < |content| && content[pos] == FALSE_TEXT[0]
    ensures ScanFrom(content, pos) ==
      if At(content, pos, FALSE_TEXT) then Scanned(LiteralFalse, pos, pos + 5) else Scanned(ParseError, pos, pos + 1)
  {
    hide Run;
    var m := Mark(ParseError, pos + 1);
    AtFive(content, pos, FALSE_TEXT);
    RunStep(content, F1, pos + 1, Mark(ParseError, pos));
    if ByteAt(content, pos + 1) == 0x61 {
      FalseTail(content, pos + 2, m);
    }
    var r := Run(content, F1, pos + 1, Mark(ParseError, pos));
    ScanHere(content, pos, F1, r.0, r.1);
  }

  predicate BytesAre(content: Text, pos: nat, a: byte, b: byte, c: byte, d: byte) {
    ByteAt(content, pos) == a && ByteAt(content, pos + 1) == b && ByteAt(content, pos + 2) == c && ByteAt(content, pos + 3) == d
  }

  lemma AtFour(content: Text, pos: nat, s: Text)
    requires |s| == 4 && forall i :: 0 <= i < 4 ==> s[i] != 0
    ensures At(content, pos, s) <==> BytesAre(content, pos, s[0], s[1], s[2], s[3])
  {
    if pos + 4 <= |content| {
      assert content[pos..pos + 4] == [content[pos], content[pos + 1], content[pos + 2], content[pos + 3]];
      assert s == [s[0], s[1], s[2], s[3]];
    }
  }

  lemma AtFive(content: Text, pos: nat, s: Text)
    requires |s| == 5 && forall i :: 0 <= i < 5 ==> s[i] != 0
    ensures At(content, pos, s) <==> BytesAre(content, pos, s[0], s[1], s[2], s[3]) && ByteAt(content, pos + 4) == s[4]
  {
    if pos + 5 <= |content| {
      assert content[pos..pos + 5] == [content[pos], content[pos + 1], content[pos + 2], content[pos + 3], content[pos + 4]];
      assert s == [s[0], s[1], s[2], s[3], s[4]];
    }
  }

  // numbers

  const POINT: byte := 0x2E

  predicate ExponentMark(c: byte) { c == 0x45 || c == 0x65 }

  /** The length of a fraction at the head of `s` (section 6 of RFC 7159), or 0. */
  function FractionLength(s: Text): (n: nat)
    ensures n <= |s|
  {
    if s == [] || s[0] != POINT || DigitPrefix(s[1..]) == 0 then 0 else 1 + DigitPrefix(s[1..])
  }

  /** The length of an exponent at the head of `s`, or 0. */
  function ExponentLength(s: Text): (n: nat)
    ensures n <= |s|
  {
    if s == [] || !ExponentMark(s[0]) then 0
    else
      var sign := if |s| > 1 && (s[1] == 0x2B || s[1] == MINUS) then 1 else 0;
      var digits := DigitPrefix(s[1 + sign..]);
      if digits == 0 then 0 else 1 + sign + digits
  }

  /** The lengths of the fraction and of the exponent at `end`. */
  function TailLength(content: Text, end: nat): (n: nat)
    requires end <= |content|
    ensures end + n <= |content|
  {
    var fraction := FractionLength(content[end..]);
    fraction + ExponentLength(content[end..][fraction..])
  }

  /** The number at the head of `s`: its token and length. A minus sign alone, and digits
      after a leading zero, are errors. */
  function NumberAt(s: Text): (Token, nat)
    requires s != [] && (s[0] == MINUS || IsDigit(s[0]))
  {
    var sign := if s[0] == MINUS then 1 else 0;
    var digits := DigitPrefix(s[sign..]);
    var whole := sign + digits;
    if digits == 0 then (ParseError, 1)
    else if s[sign] == 0x30 && digits > 1 then (ParseError, whole)
    else
      var tail := TailLength(s, whole);
      var token := if tail > 0 then ValueFloat else if sign == 1 then ValueInteger else ValueUnsigned;
      (token, whole + tail)
  }

  lemma MarkIrrelevant(content: Text, q: State, cursor: nat, a: Mark, b: Mark)
    requires cursor <= |content| && SetsMarker(q)
    ensures Run(content, q, cursor, a) == Run(content, q, cursor, b)
  {
    hide Run;
    RunStep(content, q, cursor, a);
    RunStep(content, q, cursor, b);
  }

  predicate ReadsDigits(q: State) {
    q in {Digits, MinusDigits, Fraction, ExponentDigits, ExtraDigits}
  }

  lemma DigitAt(content: Text, cursor: nat)
    requires cursor <= |content|
    ensures DigitPrefix(content[cursor..]) > 0 <==> IsDigit(ByteAt(content, cursor))
    ensures IsDigit(ByteAt(content, cursor)) ==>
      cursor < |content| && DigitPrefix(content[cursor..]) == 1 + DigitPrefix(content[cursor + 1..])
  {
    if cursor < |content| { assert content[cursor..][1..] == content[cursor + 1..]; }
  }

  /** In a state that reads digits the automaton passes over all of them. */
  lemma {:induction false} DigitsRun(content: Text, q: State, cursor: nat, mark: Mark)
    requires cursor <= |content| && ReadsDigits(q)
    ensures var end := cursor + DigitPrefix(content[cursor..]);
      end <= |content| && Run(content, q, cursor, mark) == Run(content, q, end, mark)
    ensures !IsDigit(ByteAt(content, cursor + DigitPrefix(content[cursor..])))
    decreases |content| - cursor
  {
    hide Run;
    DigitAt(content, cursor);
    if IsDigit(ByteAt(content, cursor)) {
      RunStep(content, q, cursor, mark);
      DigitsRun(content, q, cursor + 1, Marked(q, cursor, mark));
      if SetsMarker(q) {
        MarkIrrelevant(content, q, cursor + 1 + DigitPrefix(content[cursor + 1..]), Marked(q, cursor, mark), mark);
      }
    }
  }

  lemma ExponentStep(content: Text, cursor: nat, mark: Mark)
    requires cursor <= |content|
    ensures var c := ByteAt(content, cursor); var r := Run(content, Exponent, cursor, mark);
      if c == 0x2B || c == MINUS then cursor < |content| && r == Run(content, ExponentSign, cursor + 1, mark)
      else if IsDigit(c) then cursor < |content| && r == Run(content, ExponentDigits, cursor + 1, mark)
      else r == (mark.token, mark.position)
  {
    hide Run;
    RunStep(content, Exponent, cursor, mark);
  }

  lemma ExponentSignStep(content: Text, cursor: nat, mark: Mark)
    requires cursor <= |content|
    ensures var r := Run(content, ExponentSign, cursor, mark);
      if IsDigit(ByteAt(content, cursor)) then cursor < |content| && r == Run(content, ExponentDigits, cursor + 1, mark)
      else r == (mark.token, mark.position)
  {
    hide Run;
    RunStep(content, ExponentSign, cursor, mark);
  }

  lemma ExponentLengthAt(content: Text, at: nat)
    requires at < |content| && ExponentMark(content[at])
    ensures var c := ByteAt(content, at + 1);
      ExponentLength(content[at..]) ==
      if c == 0x2B || c == MINUS then
        var digits := DigitPrefix(content[at + 2..]);
        if digits == 0 then 0 else 2 + digits
      else
        var digits := DigitPrefix(content[at + 1..]);
        if digits == 0 then 0 else 1 + digits
  {
    hide DigitPrefix;
    var s := content[at..];
    assert s[1..] == content[at + 1..];
    if |s| > 1 { assert s[2..] == content[at + 2..]; }
  }

  /** After the mark of an exponent. */
  lemma ExponentRun(content: Text, at: nat, mark: Mark)
    requires at < |content| && ExponentMark(content[at])
    ensures var n := ExponentLength(content[at..]);
      Run(content, Exponent, at + 1, mark) == if n > 0 then (ValueFloat, at + n) else (mark.token, mark.position)
  {
    hide Run, DigitPrefix, ExponentLength, Next;
    var c := ByteAt(content, at + 1);
    ExponentLengthAt(content, at);
    ExponentStep(content, at + 1, mark);
    if c == 0x2B || c == MINUS {
      ExponentSignStep(content, at + 2, mark);
      ExponentDigitsRun(content, at + 2, mark);
    } else {
      ExponentDigitsRun(content, at + 1, mark);
    }
  }

  lemma ExponentDigitsRun(content: Text, from: nat, mark: Mark)
    requires from <= |content|
    ensures var k := DigitPrefix(content[from..]);
      if IsDigit(ByteAt(content, from)) then k > 0 && from < |content| &&
        Run(content, ExponentDigits, from + 1, mark) == (ValueFloat, from + k)
      else k == 0
  {
    hide Run;
    DigitAt(content, from);
    if IsDigit(ByteAt(content, from)) {
      DigitsRun(content, ExponentDigits, from + 1, mark);
      RunStep(content, ExponentDigits, from + DigitPrefix(content[from..]), mark);
    }
  }

  /** In the digits of a fraction. */
  lemma FractionRun(content: Text, from: nat, mark: Mark)
    requires from <= |content|
    ensures var end := from + DigitPrefix(content[from..]);
      end <= |content| && Run(content, Fraction, from, mark) == (ValueFloat, end + ExponentLength(content[end..]))
  {
    hide Run;
    DigitsRun(content, Fraction, from, mark);
    var end := from + DigitPrefix(content[from..]);
    RunStep(content, Fraction, end, mark);
    if ExponentMark(ByteAt(content, end)) {
      ExponentRun(content, end, Mark(ValueFloat, end));
    }
  }

  predicate InWhole(q: State) {
    q in {Zero, Digits, MinusZero, MinusDigits}
  }

  lemma WholeStep(content: Text, q: State, end: nat, mark: Mark)
    requires InWhole(q) && end <= |content| && !IsDigit(ByteAt(content, end))
    ensures SetsMarker(q)
    ensures var c := ByteAt(content, end); var r := Run(content, q, end, mark);
      var m := Mark(MarkedToken(q), end);
      if c == POINT then end < |content| && r == Run(content, Point, end + 1, m)
      else if ExponentMark(c) then end < |content| && r == Run(content, Exponent, end + 1, m)
      else r == (MarkedToken(q), end)
  {
    hide Run;
    RunStep(content, q, end, mark);
  }

  lemma PointStep(content: Text, cursor: nat, mark: Mark)
    requires cursor <= |content|
    ensures var r := Run(content, Point, cursor, mark);
      if IsDigit(ByteAt(content, cursor)) then cursor < |content| && r == Run(content, Fraction, cursor + 1, mark)
      else r == (mark.token, mark.position)
  {
    hide Run;
    RunStep(content, Point, cursor, mark);
  }

  lemma TailAt(content: Text, end: nat)
    requires end <= |content|
    ensures ByteAt(content, end) == POINT && IsDigit(ByteAt(content, end + 1)) ==>
      var f := end + 2 + DigitPrefix(content[end + 2..]);
      f <= |content| && TailLength(content, end) == f - end + ExponentLength(content[f..])
    ensures ByteAt(content, end) == POINT && !IsDigit(ByteAt(content, end + 1)) ==> TailLength(content, end) == 0
    ensures ByteAt(content, end) != POINT ==> TailLength(content, end) == ExponentLength(content[end..])
    ensures !ExponentMark(ByteAt(content, end)) ==> ExponentLength(content[end..]) == 0
  {
    var s := content[end..];
    assert s[0..] == s;
    if s != [] {
      assert s[1..] == content[end + 1..];
      DigitAt(content, end + 1);
      hide DigitPrefix;
      assert s[FractionLength(s)..] == content[end + FractionLength(s)..];
    }
  }

  /** At the end of the whole part. */
  lemma WholeRun(content: Text, q: State, end: nat, mark: Mark)
    requires InWhole(q) && end <= |content| && !IsDigit(ByteAt(content, end))
    ensures SetsMarker(q)
    ensures var tail := TailLength(content, end);
      Run(content, q, end, mark) == (if tail > 0 then ValueFloat else MarkedToken(q), end + tail)
  {
    hide Run, Next, TailLength, DigitPrefix, ExponentLength, MarkedToken, SetsMarker;
    var c := ByteAt(content, end);
    WholeStep(content, q, end, mark);
    TailAt(content, end);
    var m := Mark(MarkedToken(q), end);
    if c == POINT {
      PointStep(content, end + 1, m);
      if IsDigit(ByteAt(content, end + 1)) {
        FractionRun(content, end + 2, m);
      }
    } else if ExponentMark(c) {
      ExponentRun(content, end, m);
    }
  }

  /** From a digit or a minus sign on, the token is the longest number of section 6 of RFC
      7159, with its class; a leading zero before digits and a minus sign alone are errors. */
  lemma ScanNumber(content: Text, pos: nat)
    requires pos < |content| && (content[pos] == MINUS || IsDigit(content[pos]))
    ensures var (token, n) := NumberAt(content[pos..]); ScanFrom(content, pos) == Scanned(token, pos, pos + n)
  {
    hide Run, DigitPrefix, TailLength, Next;
    var q, m := First(content[pos]), Mark(ParseError, pos);
    if content[pos] == MINUS {
      NumberTail(content, pos, 1);
      MinusStep(content, pos + 1, m);
      DigitAt(content, pos + 1);
      if IsDigit(ByteAt(content, pos + 1)) {
        WholePart(content, pos + 1, if content[pos + 1] == 0x30 then MinusZero else MinusDigits, m);
      }
    } else {
      NumberTail(content, pos, 0);
      WholePart(content, pos, q, m);
    }
    var r := Run(content, q, pos + 1, m);
    ScanHere(content, pos, q, r.0, r.1);
  }

  lemma MinusStep(content: Text, cursor: nat, mark: Mark)
    requires cursor <= |content|
    ensures var c := ByteAt(content, cursor); var r := Run(content, Minus, cursor, mark);
      if c == 0x30 then r == Run(content, MinusZero, cursor + 1, mark)
      else if IsDigit(c) then r == Run(content, MinusDigits, cursor + 1, mark)
      else r == (ParseError, cursor)
    ensures IsDigit(ByteAt(content, cursor)) ==> cursor < |content|
  {
    hide Run;
    RunStep(content, Minus, cursor, mark);
  }

  lemma NumberTail(content: Text, pos: nat, sign: nat)
    requires pos + sign <= |content|
    ensures content[pos..][sign..] == content[pos + sign..]
    ensures var whole := sign + DigitPrefix(content[pos + sign..]);
      pos + whole <= |content| && TailLength(content[pos..], whole) == TailLength(content, pos + whole)
  {
    hide DigitPrefix, FractionLength, ExponentLength;
    var whole := sign + DigitPrefix(content[pos + sign..]);
    assert content[pos..][whole..] == content[pos + whole..];
  }

  lemma LeadingZero(content: Text, cursor: nat, q: State, mark: Mark)
    requires cursor <= |content| && q in {Zero, MinusZero} && IsDigit(ByteAt(content, cursor))
    ensures var end := cursor + DigitPrefix(content[cursor..]);
      end <= |content| && Run(content, q, cursor, mark) == (ParseError, end)
  {
    hide Run, DigitPrefix;
    DigitAt(content, cursor);
    var m := Mark(MarkedToken(q), cursor);
    RunStep(content, q, cursor, mark);
    DigitsRun(content, ExtraDigits, cursor + 1, m);
    RunStep(content, ExtraDigits, cursor + DigitPrefix(content[cursor..]), m);
  }

  /** From the first digit of the whole part on. */
  lemma WholePart(content: Text, from: nat, q: State, mark: Mark)
    requires from < |content| && IsDigit(content[from]) && InWhole(q)
    requires content[from] == 0x30 <==> q in {Zero, MinusZero}
    ensures SetsMarker(q)
    ensures var digits := DigitPrefix(content[from..]);
      var end := from + digits;
      var tail := TailLength(content, end);
      digits > 0 && Run(content, q, from + 1, mark) ==
      if content[from] == 0x30 && digits > 1 then (ParseError, end)
      else (if tail > 0 then ValueFloat else MarkedToken(q), end + tail)
  {
    hide Run, Next, DigitPrefix, TailLength, MarkedToken;
    var end := from + DigitPrefix(content[from..]);
    DigitAt(content, from);
    DigitAt(content, from + 1);
    if content[from] != 0x30 {
      DigitsRun(content, q, from + 1, mark);
      WholeRun(content, q, end, mark);
    } else if IsDigit(ByteAt(content, from + 1)) {
      LeadingZero(content, from + 1, q, mark);
    } else {
      WholeRun(content, q, from + 1, mark);
    }
  }

  // printed numbers

  lemma {:induction false} PrintedDigits(content: Text, pos: nat, s: Text)
    requires At(content, pos, s) && AllDigits(s) && NumberEnds(content, pos + |s|)
    ensures DigitPrefix(content[pos..]) == |s|
    decreases |s|
  {
    DigitAt(content, pos);
    if s != [] {
      AtByte(content, pos, s, 0);
      assert s == [s[0]] + s[1..];
      AtSplit(content, pos, [s[0]], s[1..]);
      PrintedDigits(content, pos + 1, s[1..]);
    }
  }

  lemma NoTail(content: Text, end: nat)
    requires end <= |content| && NumberEnds(content, end)
    ensures TailLength(content, end) == 0
  {
    TailAt(content, end);
  }

  /** A printed number is scanned as one token. */
  lemma ScanUnsigned(content: Text, pos: nat, n: nat)
    requires At(content, pos, Decimal(n)) && NumberEnds(content, pos + |Decimal(n)|)
    ensures ScanFrom(content, pos) == Scanned(ValueUnsigned, pos, pos + |Decimal(n)|)
  {
    hide ScanFrom, Decimal, DigitPrefix, TailLength;
    var s := Decimal(n);
    AtByte(content, pos, s, 0);
    PrintedDigits(content, pos, s);
    NoTail(content, pos + |s|);
    ScanNumber(content, pos);
    NumberTail(content, pos, 0);
  }

  lemma ScanNegative(content: Text, pos: nat, n: nat)
    requires At(content, pos, [MINUS] + Decimal(n)) && NumberEnds(content, pos + 1 + |Decimal(n)|)
    ensures ScanFrom(content, pos) == Scanned(ValueInteger, pos, pos + 1 + |Decimal(n)|)
  {
    hide ScanFrom, Decimal, DigitPrefix, TailLength;
    var s := Decimal(n);
    AtSplit(content, pos, [MINUS], s);
    AtByte(content, pos, [MINUS], 0);
    AtByte(content, pos + 1, s, 0);
    PrintedDigits(content, pos + 1, s);
    NoTail(content, pos + 1 + |s|);
    ScanNumber(content, pos);
    NumberTail(content, pos, 1);
  }

  // ----- the lexer object

  lemma FirstNul()
    ensures First(0).Final?
  {
  }

  lemma SliceHead(content: Text, i: nat, last: nat)
    requires i < last <= |content|
    ensures content[i..last] != [] && content[i..last][0] == content[i]
  {
  }

  lemma SkipBlanksStep(content: Text, pos: nat)
    requires pos <= |content|
    ensures if Blank(ByteAt(content, pos)) then pos < |content| && SkipBlanks(content, pos) == SkipBlanks(content, pos + 1)
      else SkipBlanks(content, pos) == pos
  {
  }

  class Lexer {
    const content: Text      // the bytes from `m_content` to `m_limit`
    var m_start: nat
    var m_cursor: nat
    var m_marker: nat

    constructor (content: Text)
      ensures this.content == content && m_cursor == 0
    {
      this.content := content;
      m_start, m_cursor, m_marker := 0, 0, 0;
    }

    /** The automaton, from the state entered by the byte before the cursor. */
    method Automaton(first: State) returns (token: Token)
      requires m_cursor <= |content| || first.Final?
      modifies `m_cursor, `m_marker
      ensures (token, m_cursor) == Run(content, first, old(m_cursor), Mark(ParseError, m_start))
    {
      hide Run, Next, SetsMarker, MarkedToken;
      var q := first;
      var accept := ParseError;
      m_marker := m_start;
      while true
        invariant m_cursor <= |content| || q.Final?
        invariant Run(content, q, m_cursor, Mark(accept, m_marker)) ==
          Run(content, first, old(m_cursor), Mark(ParseError, m_start))
        decreases |content| - m_cursor
      {
        RunStep(content, q, m_cursor, Mark(accept, m_marker));
        if SetsMarker(q) {
          accept, m_marker := MarkedToken(q), m_cursor;
        }
        var action := Next(q, ByteAt(content, m_cursor));
        if action.Backtrack? {
          m_cursor := m_marker;
          return accept;
        } else if action.Emit? {
          return action.token;
        }
        q := action.to;
        m_cursor := m_cursor + 1;
      }
    }

    /** `scan` */
    method Scan() returns (token: Token)
      requires m_cursor <= |content|
      modifies this
      ensures Scanned(token, m_start, m_cursor) == ScanFrom(content, old(m_cursor))
      ensures old(m_cursor) <= m_start < m_cursor
      ensures token != EndOfInput ==> m_cursor <= |content|
    {
      FirstNul();
      hide Run, First, Blank;
      ScanMoves(content, m_cursor);
      m_start := m_cursor;
      while Blank(ByteAt(content, m_cursor))
        invariant old(m_cursor) <= m_cursor == m_start <= |content|
        invariant SkipBlanks(content, m_cursor) == SkipBlanks(content, old(m_cursor))
        decreases |content| - m_cursor
      {
        SkipBlanksStep(content, m_cursor);
        m_cursor := m_cursor + 1;
        m_start := m_cursor;
      }
      SkipBlanksStep(content, m_cursor);
      var first := First(ByteAt(content, m_cursor));
      m_cursor := m_cursor + 1;
      token := Automaton(first);
    }

    /** The bytes between the quotes of the last token. */
    function Body(): Text
      requires m_start + 2 <= m_cursor <= |content|
      reads this
    {
      content[m_start + 1..m_cursor - 1]
    }

    /** `get_string`: `i` walks over the token; runs without a backslash are copied whole. */
    method GetString() returns (r: Result<Text>)
      requires m_start + 2 <= m_cursor <= |content| && content[m_cursor - 1] == QUOTE && WellEscaped(Body())
      ensures r == Unescape(Body())
    {
      hide WellEscaped, Unescape, EscapeLength, ToUnicode;
      var last := m_cursor - 1;
      var result: Text := [];
      var i := m_start + 1;
      PrependNothing(Unescape(Body()));
      while i < last
        invariant m_start < i <= last && WellEscaped(content[i..last])
        invariant Prepend(result, Unescape(content[i..last])) == Unescape(Body())
      {
        ghost var s := content[i..last];
        var e := i;
        while e < last && content[e] != BACKSLASH
          invariant i <= e <= last && BACKSLASH !in content[i..e]
        {
          e := e + 1;
        }
        if e != i {
          assert s[..e - i] == content[i..e] && s[e - i..] == content[e..last];
          UnescapeDrop(s, e - i);
          PrependPrepend(result, s[..e - i], Unescape(content[e..last]));
          result := result + content[i..e];
          i := e;
        } else {
          SliceHead(content, i, last);
          EscapeShape(s);
          UnescapeEscape(s);
          var text, next := Escaped(i, last);
          if text.Err? {
            return text;
          }
          assert s[next - i..] == content[next..last];
          PrependPrepend(result, text.value, Unescape(content[next..last]));
          result := result + text.value;
          i := next;
        }
      }
      assert content[i..last] == [];
      UnescapeEmpty();
      assert result + [] == result;
      return Ok(result);
    }

    /** The escape at position `i`: its bytes, and the position after it. */
    method Escaped(i: nat, last: nat) returns (text: Result<Text>, next: nat)
      requires i < last < |content| && content[last] == QUOTE && content[i] == BACKSLASH
      requires WellEscaped(content[i..last])
      ensures var one := UnescapeOne(content[i..last]);
        if one.Ok? then text == Ok(one.value.0) && next == i + one.value.1 else text == Err(one.error)
    {
      hide WellEscaped, ToUnicode;
      ghost var s := content[i..last];
      EscapeShape(s);
      if content[i + 1] != LOWER_U {
        return Ok([SimpleValue(content[i + 1])]), i + 2;
      }
      assert s[2..][..4] == content[i + 2..i + 6];
      var codepoint := FourHexValue(content[i + 2..i + 6]);
      if 0xD800 <= codepoint <= 0xDBFF {
        if i + 7 >= |content| || content[i + 6] != BACKSLASH || content[i + 7] != LOWER_U {
          return Err(InvalidArgument), i;
        }
        assert i + 6 < last;
        assert s[6] == BACKSLASH;
        EscapeShape(s[6..]);
        PairShape(s);
        assert s[8..][..4] == content[i + 8..i + 12];
        text := ToUnicode(codepoint, FourHexValue(content[i + 8..i + 12]));
        return text, i + 12;
      } else if 0xDC00 <= codepoint <= 0xDFFF {
        return Err(InvalidArgument), i;
      }
      text := ToUnicode(codepoint, 0);
      return text, i + 6;
    }
  }
}
