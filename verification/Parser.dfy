/**
 The recursive-descent parser: `parse`, `parse_internal` and `get_number`, without callbacks.

 The reading of a floating-point literal (`strtod`, and null for what is not finite) is a
 parameter, `read`.
 */
module Parser {
  import opened Bytes
  import opened Json
  import opened Results
  import opened Scanner
  import opened Strings

  // ----- what the scanner guarantees of a token

  predicate StringState(q: State) {
    q in {Quote, Chars, CloseQuote, Escape, OneMore, AfterE0, TwoMore, AfterED, AfterF0, ThreeMore, AfterF4,
          Hex1, Hex2, Hex3, Hex4}
  }

  lemma NotIntoString(q: State, c: byte)
    requires !StringState(q) && Next(q, c).Move?
    ensures !StringState(Next(q, c).to) && Next(q, c).to != Final(ValueString)
  {
  }

  lemma NoStringToken(q: State, c: byte)
    requires !StringState(q) && Next(q, c).Emit? && q != Final(ValueString)
    ensures Next(q, c).token != ValueString
  {
  }

  /** Only a quote begins a string token. */
  lemma {:induction false} RunNoString(content: Text, q: State, cursor: nat, mark: Mark)
    requires cursor <= |content| || q.Final?
    requires !StringState(q) && q != Final(ValueString) && mark.token != ValueString
    ensures Run(content, q, cursor, mark).0 != ValueString
    decreases |content| - cursor
  {
    hide Run, Next, StringState;
    RunStep(content, q, cursor, mark);
    var c := ByteAt(content, cursor);
    var m := Marked(q, cursor, mark);
    assert m.token != ValueString;
    if Next(q, c).Move? {
      NotIntoString(q, c);
      RunNoString(content, Next(q, c).to, cursor + 1, m);
    } else if Next(q, c).Emit? {
      NoStringToken(q, c);
    }
  }

  predicate StringToken(content: Text, t: Scanned) {
    t.start < |content| && content[t.start] == QUOTE && ClosesAt(content, t.start + 1, t.end)
  }

  predicate Fits(content: Text, t: Scanned) {
    t.start < t.end <= |content| + 1 && (t.token != EndOfInput ==> t.end <= |content|) &&
    (t.token == ValueString ==> StringToken(content, t))
  }

  lemma ScanStartsString(content: Text, pos: nat)
    requires pos <= |content| && ScanFrom(content, pos).token == ValueString
    ensures var s := ScanFrom(content, pos); s.start < |content| && content[s.start] == QUOTE
  {
    hide Run;
    var start := SkipBlanks(content, pos);
    var c := ByteAt(content, start);
    if c != QUOTE {
      RunNoString(content, First(c), start + 1, Mark(ParseError, start));
    }
  }

  lemma {:induction false} SkipBlanksAgain(content: Text, pos: nat)
    requires pos <= |content|
    ensures SkipBlanks(content, SkipBlanks(content, pos)) == SkipBlanks(content, pos)
    ensures ScanFrom(content, ScanFrom(content, pos).start) == ScanFrom(content, pos)
    decreases |content| - pos
  {
    hide Run;
    if Blank(ByteAt(content, pos)) { SkipBlanksAgain(content, pos + 1); }
  }

  lemma ScanFits(content: Text, pos: nat)
    requires pos <= |content|
    ensures Fits(content, ScanFrom(content, pos)) && ScanFrom(content, pos).end > pos
  {
    hide ScanFrom, ClosesAt;
    ScanMoves(content, pos);
    var s := ScanFrom(content, pos);
    if s.token == ValueString {
      ScanStartsString(content, pos);
      SkipBlanksAgain(content, pos);
      ScanString(content, s.start);
    }
  }

  function Scan(content: Text, pos: nat): (t: Scanned)
    requires pos <= |content|
    ensures Fits(content, t) && t.end > pos
  {
    ScanFits(content, pos);
    ScanFrom(content, pos)
  }

  // ----- the grammar

  /** `get_string` of a string token. */
  function StringOf(content: Text, t: Scanned): Result<Text>
    requires StringToken(content, t)
  {
    var body := content[t.start + 1..t.end - 1];
    BodyWellEscaped(body);
    Unescape(body)
  }

  /** `get_number`: an integer that does not fit its type is read as a float. */
  function NumberOf(text: Text, token: Token, read: Text -> Json): Json {
    if token == ValueUnsigned && text != [] && AllDigits(text) && DigitsValue(text) < TWO_TO_THE_64 then
      Unsigned(DigitsValue(text))
    else if token == ValueInteger && |text| > 1 && text[0] == MINUS && AllDigits(text[1..]) &&
      DigitsValue(text[1..]) <= TWO_TO_THE_63 then
      var magnitude: int := DigitsValue(text[1..]);
      Integer(-magnitude)
    else read(text)
  }

  /** `parse_internal` when the last token is `t`: the value and the token after it. */
  function ParseValue(content: Text, t: Scanned, read: Text -> Json): (r: Result<(Json, Scanned)>)
    requires Fits(content, t)
    ensures r.Ok? ==> Fits(content, r.value.1) && r.value.1.end > t.end
    decreases |content| + 1 - t.end, 0
  {
    match t.token
    case BeginObject =>
      var next := Scan(content, t.end);
      if next.token == EndObject then Ok((Object(map[]), Scan(content, next.end)))
      else if next.token == ValueSeparator then Err(InvalidArgument)
      else
        var members :- ParseMembers(content, next, map[], read);
        Ok((Object(members.0), members.1))
    case BeginArray =>
      var next := Scan(content, t.end);
      if next.token == EndArray then Ok((Array([]), Scan(content, next.end)))
      else if next.token == ValueSeparator then Err(InvalidArgument)
      else
        var elems :- ParseElems(content, next, [], read);
        Ok((Array(elems.0), elems.1))
    case LiteralNull => Ok((Null, Scan(content, t.end)))
    case LiteralTrue => Ok((Boolean(true), Scan(content, t.end)))
    case LiteralFalse => Ok((Boolean(false), Scan(content, t.end)))
    case ValueString =>
      var s :- StringOf(content, t);
      Ok((String(s), Scan(content, t.end)))
    case ValueUnsigned => Ok((NumberOf(content[t.start..t.end], t.token, read), Scan(content, t.end)))
    case ValueInteger => Ok((NumberOf(content[t.start..t.end], t.token, read), Scan(content, t.end)))
    case ValueFloat => Ok((NumberOf(content[t.start..t.end], t.token, read), Scan(content, t.end)))
    case _ => Err(InvalidArgument)
  }

  /** The elements from the one that begins with `t` on, after those in `done`. */
  function ParseElems(content: Text, t: Scanned, done: seq<Json>, read: Text -> Json): (r: Result<(seq<Json>, Scanned)>)
    requires Fits(content, t)
    ensures r.Ok? ==> Fits(content, r.value.1) && r.value.1.end > t.end
    decreases |content| + 1 - t.end, 1
  {
    var value :- ParseValue(content, t, read);
    var elems := done + [value.0];
    if value.1.token == ValueSeparator then ParseElems(content, Scan(content, value.1.end), elems, read)
    else if value.1.token == EndArray then Ok((elems, Scan(content, value.1.end)))
    else Err(InvalidArgument)
  }

  /** A key and its colon: the key and the first token of the value. */
  function ParseKey(content: Text, t: Scanned): (r: Result<(Text, Scanned)>)
    requires Fits(content, t)
    ensures r.Ok? ==> Fits(content, r.value.1) && r.value.1.end > t.end
  {
    if t.token != ValueString then Err(InvalidArgument)
    else
      var key :- StringOf(content, t);
      var colon := Scan(content, t.end);
      if colon.token != NameSeparator then Err(InvalidArgument)
      else Ok((key, Scan(content, colon.end)))
  }

  /** The members from the one that begins with `t` on; a repeated key is overwritten. */
  function ParseMembers(content: Text, t: Scanned, done: map<Text, Json>, read: Text -> Json)
    : (r: Result<(map<Text, Json>, Scanned)>)
    requires Fits(content, t)
    ensures r.Ok? ==> Fits(content, r.value.1) && r.value.1.end > t.end
    decreases |content| + 1 - t.end, 1
  {
    var key :- ParseKey(content, t);
    var value :- ParseValue(content, key.1, read);
    var members := done[key.0 := value.0];
    if value.1.token == ValueSeparator then ParseMembers(content, Scan(content, value.1.end), members, read)
    else if value.1.token == EndObject then Ok((members, Scan(content, value.1.end)))
    else Err(InvalidArgument)
  }

  /** `parse` of a whole text. */
  function Parse(content: Text, read: Text -> Json): Result<Json> {
    var value :- ParseValue(content, Scan(content, 0), read);
    if value.1.token == EndOfInput then Ok(value.0) else Err(InvalidArgument)
  }

  // ----- the parser object

  ghost predicate SameOutcome<T>(spec: Result<(T, Scanned)>, r: Result<T>, last: Scanned) {
    if spec.Ok? then r == Ok(spec.value.0) && last == spec.value.1 else r == Err(spec.error)
  }

  class Parser {
    const lexer: Lexer
    const read: Text -> Json
    var last_token: Token

    constructor (content: Text, read: Text -> Json)
      ensures lexer.content == content && lexer.m_cursor == 0 && this.read == read && fresh(lexer)
    {
      this.lexer := new Lexer(content);
      this.read := read;
      this.last_token := EndOfInput;
    }

    /** The last token and where it stands. */
    function Last(): Scanned
      reads this, lexer
    {
      Scanned(last_token, lexer.m_start, lexer.m_cursor)
    }

    function Left(): int
      reads lexer
    {
      |lexer.content| + 1 - lexer.m_cursor
    }

    method GetToken()
      requires lexer.m_cursor <= |lexer.content|
      modifies this, lexer
      ensures Last() == Scan(lexer.content, old(lexer.m_cursor))
    {
      last_token := lexer.Scan();
    }

    method GetString() returns (r: Result<Text>)
      requires Fits(lexer.content, Last()) && last_token == ValueString
      ensures r == StringOf(lexer.content, Last())
    {
      hide Unescape, WellEscaped, StringBody;
      BodyWellEscaped(lexer.Body());
      r := lexer.GetString();
    }

    /** `parse` */
    method ParseText() returns (r: Result<Json>)
      requires lexer.m_cursor == 0
      modifies this, lexer
      ensures r == Parse(lexer.content, read)
    {
      hide ParseValue, Scan, Fits;
      GetToken();
      var value :- ParseInternal();
      if last_token != EndOfInput {
        return Err(InvalidArgument);
      }
      return Ok(value);
    }

    method ParseInternal() returns (r: Result<Json>)
      requires Fits(lexer.content, Last())
      modifies this, lexer
      ensures SameOutcome(ParseValue(lexer.content, old(Last()), read), r, Last())
      decreases Left(), 0
    {
      hide Scan, ParseElems, ParseMembers, NumberOf, StringOf;
      match last_token {
        case BeginObject =>
          GetToken();
          if last_token == EndObject {
            GetToken();
            return Ok(Object(map[]));
          }
          if last_token == ValueSeparator {
            return Err(InvalidArgument);
          }
          var members :- Members();
          return Ok(Object(members));
        case BeginArray =>
          GetToken();
          if last_token == EndArray {
            GetToken();
            return Ok(Array([]));
          }
          if last_token == ValueSeparator {
            return Err(InvalidArgument);
          }
          var elems :- Elems();
          return Ok(Array(elems));
        case LiteralNull =>
          GetToken();
          return Ok(Null);
        case ValueString =>
          var s :- GetString();
          GetToken();
          return Ok(String(s));
        case LiteralTrue =>
          GetToken();
          return Ok(Boolean(true));
        case LiteralFalse =>
          GetToken();
          return Ok(Boolean(false));
        case ValueUnsigned | ValueInteger | ValueFloat =>
          var number := NumberOf(lexer.content[lexer.m_start..lexer.m_cursor], last_token, read);
          GetToken();
          return Ok(number);
        case _ =>
          return Err(InvalidArgument);
      }
    }

    /** The loop over the elements of an array. */
    method Elems() returns (r: Result<seq<Json>>)
      requires Fits(lexer.content, Last()) && last_token != ValueSeparator
      modifies this, lexer
      ensures SameOutcome(ParseElems(lexer.content, old(Last()), [], read), r, Last())
      decreases Left(), 1
    {
      hide ParseValue, Scan, StringToken;
      var result: seq<Json> := [];
      ghost var spec := ParseElems(lexer.content, Last(), [], read);
      while true
        invariant Fits(lexer.content, Last()) && Left() <= old(Left())
        invariant ParseElems(lexer.content, Last(), result, read) == spec
        decreases Left()
      {
        var value :- ParseInternal();
        result := result + [value];
        if last_token != ValueSeparator {
          break;
        }
        GetToken();
      }
      if last_token != EndArray {
        return Err(InvalidArgument);
      }
      GetToken();
      return Ok(result);
    }

    /** The loop over the members of an object. */
    method Members() returns (r: Result<map<Text, Json>>)
      requires Fits(lexer.content, Last()) && last_token != ValueSeparator
      modifies this, lexer
      ensures SameOutcome(ParseMembers(lexer.content, old(Last()), map[], read), r, Last())
      decreases Left(), 1
    {
      hide ParseValue, Scan, StringToken, ParseKey;
      var result: map<Text, Json> := map[];
      ghost var spec := ParseMembers(lexer.content, Last(), map[], read);
      while true
        invariant Fits(lexer.content, Last()) && Left() <= old(Left())
        invariant ParseMembers(lexer.content, Last(), result, read) == spec
        decreases Left()
      {
        var key :- Key();
        var value :- ParseInternal();
        result := result[key := value];
        if last_token != ValueSeparator {
          break;
        }
        GetToken();
      }
      if last_token != EndObject {
        return Err(InvalidArgument);
      }
      GetToken();
      return Ok(result);
    }

    /** A key, its colon, and the first token of its value. */
    method Key() returns (r: Result<Text>)
      requires Fits(lexer.content, Last())
      modifies this, lexer
      ensures SameOutcome(ParseKey(lexer.content, old(Last())), r, Last())
    {
      hide Scan, StringToken, StringOf;
      if last_token != ValueString {
        return Err(InvalidArgument);
      }
      var key :- GetString();
      GetToken();
      if last_token != NameSeparator {
        return Err(InvalidArgument);
      }
      GetToken();
      return Ok(key);
    }
  }
}
