/**
 The language of the parser: it accepts exactly the texts whose tokens form one value of
 the grammar in section 2 of RFC 7159, and whatever it accepts it can print and parse again.
 */
module ParserGrammar {
  import opened Bytes
  import opened Json
  import opened Parser
  import opened Printer
  import opened Results
  import opened Scanner
  import opened Strings
  import T = TextRoundTrip

  // ----- the grammar

  predicate IsScalar(t: Token) {
    t in {LiteralNull, LiteralTrue, LiteralFalse, ValueString, ValueUnsigned, ValueInteger, ValueFloat}
  }

  /** The tokens between the first and the last. */
  function Inner(ts: seq<Token>): seq<Token>
    requires |ts| >= 2
  {
    ts[1..|ts| - 1]
  }

  predicate Bracketed(ts: seq<Token>, open: Token, close: Token) {
    |ts| >= 2 && ts[0] == open && ts[|ts| - 1] == close
  }

  ghost predicate IsValue(ts: seq<Token>)
    decreases |ts|, 0
  {
    (|ts| == 1 && IsScalar(ts[0])) ||
    (Bracketed(ts, BeginArray, EndArray) && (Inner(ts) == [] || IsElems(Inner(ts)))) ||
    (Bracketed(ts, BeginObject, EndObject) && (Inner(ts) == [] || IsMembers(Inner(ts))))
  }

  /** Values separated by commas. */
  ghost predicate IsElems(ts: seq<Token>)
    decreases |ts|, 1
  {
    IsValue(ts) || exists k: nat :: ElemsSplit(ts, k)
  }

  ghost predicate ElemsSplit(ts: seq<Token>, k: nat)
    decreases |ts|, 0
  {
    0 < k < |ts| && ts[k] == ValueSeparator && IsValue(ts[..k]) && IsElems(ts[k + 1..])
  }

  ghost predicate IsMember(ts: seq<Token>)
    decreases |ts|, 1
  {
    |ts| >= 2 && ts[0] == ValueString && ts[1] == NameSeparator && IsValue(ts[2..])
  }

  /** Members separated by commas. */
  ghost predicate IsMembers(ts: seq<Token>)
    decreases |ts|, 2
  {
    IsMember(ts) || exists k: nat :: MembersSplit(ts, k)
  }

  ghost predicate MembersSplit(ts: seq<Token>, k: nat)
    decreases |ts|, 0
  {
    0 < k < |ts| && ts[k] == ValueSeparator && IsMember(ts[..k]) && IsMembers(ts[k + 1..])
  }

  // ----- a recognizer on token lists

  /** What is left of the list after a value at its head. */
  function TakeValue(ts: seq<Token>): (r: Option<seq<Token>>)
    ensures r.Some? ==> |r.value| < |ts|
    decreases |ts|, 0
  {
    if ts == [] then None
    else if ts[0] == BeginObject then
      if |ts| > 1 && ts[1] == EndObject then Some(ts[2..]) else TakeMembers(ts[1..])
    else if ts[0] == BeginArray then
      if |ts| > 1 && ts[1] == EndArray then Some(ts[2..]) else TakeElems(ts[1..])
    else if IsScalar(ts[0]) then Some(ts[1..])
    else None
  }

  /** After the rest of an array and its bracket. */
  function TakeElems(ts: seq<Token>): (r: Option<seq<Token>>)
    ensures r.Some? ==> |r.value| < |ts|
    decreases |ts|, 1
  {
    var v := TakeValue(ts);
    if v.None? || v.value == [] then None
    else if v.value[0] == ValueSeparator then TakeElems(v.value[1..])
    else if v.value[0] == EndArray then Some(v.value[1..])
    else None
  }

  /** After the rest of an object and its brace. */
  function TakeMembers(ts: seq<Token>): (r: Option<seq<Token>>)
    ensures r.Some? ==> |r.value| < |ts|
    decreases |ts|, 1
  {
    if |ts| < 2 || ts[0] != ValueString || ts[1] != NameSeparator then None
    else
      var v := TakeValue(ts[2..]);
      if v.None? || v.value == [] then None
      else if v.value[0] == ValueSeparator then TakeMembers(v.value[1..])
      else if v.value[0] == EndObject then Some(v.value[1..])
      else None
  }

  // what it takes is of the grammar

  lemma {:induction false} TakenValue(ts: seq<Token>)
    requires TakeValue(ts).Some?
    ensures var r := TakeValue(ts).value; var k := |ts| - |r|; ts[k..] == r && IsValue(ts[..k])
    decreases |ts|, 0
  {
    var r := TakeValue(ts).value;
    var k := |ts| - |r|;
    if ts[0] == BeginObject && !(|ts| > 1 && ts[1] == EndObject) {
      TakenMembers(ts[1..]);
      assert Inner(ts[..k]) == ts[1..][..k - 2];
    } else if ts[0] == BeginArray && !(|ts| > 1 && ts[1] == EndArray) {
      TakenElems(ts[1..]);
      assert Inner(ts[..k]) == ts[1..][..k - 2];
    }
  }

  lemma {:induction false} TakenElems(ts: seq<Token>)
    requires TakeElems(ts).Some?
    ensures var r := TakeElems(ts).value; var k := |ts| - |r|;
      k > 0 && ts[k..] == r && ts[k - 1] == EndArray && IsElems(ts[..k - 1])
    decreases |ts|, 1
  {
    hide IsValue, TakeValue;
    var v := TakeValue(ts).value;
    TakenValue(ts);
    var m := |ts| - |v|;
    assert ts[m] == v[0];
    var k := |ts| - |TakeElems(ts).value|;
    if v[0] == ValueSeparator {
      TakenElems(v[1..]);
      assert v[1..] == ts[m + 1..];
      assert ts[..k - 1][..m] == ts[..m] && ts[..k - 1][m + 1..] == v[1..][..k - m - 2];
      assert ElemsSplit(ts[..k - 1], m);
    }
  }

  lemma {:induction false} TakenMembers(ts: seq<Token>)
    requires TakeMembers(ts).Some?
    ensures var r := TakeMembers(ts).value; var k := |ts| - |r|;
      k > 0 && ts[k..] == r && ts[k - 1] == EndObject && IsMembers(ts[..k - 1])
    decreases |ts|, 1
  {
    hide IsValue, TakeValue;
    var v := TakeValue(ts[2..]).value;
    TakenValue(ts[2..]);
    var m := |ts| - |v|;
    assert ts[m] == v[0];
    assert ts[..m][2..] == ts[2..][..m - 2];
    assert IsMember(ts[..m]);
    var k := |ts| - |TakeMembers(ts).value|;
    if v[0] == ValueSeparator {
      TakenMembers(v[1..]);
      assert v[1..] == ts[m + 1..];
      assert ts[..k - 1][..m] == ts[..m] && ts[..k - 1][m + 1..] == v[1..][..k - m - 2];
      assert MembersSplit(ts[..k - 1], m);
    }
  }

  // it takes all of the grammar

  lemma {:induction false} TakesValue(v: seq<Token>, rest: seq<Token>)
    requires IsValue(v)
    ensures TakeValue(v + rest) == Some(rest)
    decreases |v|, 0
  {
    var ts := v + rest;
    if |v| == 1 && IsScalar(v[0]) {
      assert ts[1..] == rest;
    } else {
      var inner, close := Inner(v), v[|v| - 1];
      assert ts[1..] == inner + ([close] + rest);
      if inner == [] {
        assert ts[2..] == rest;
      } else if v[0] == BeginArray {
        TakesElems(inner, rest);
        FirstOfElems(inner);
        assert ts[1] == inner[0];
      } else {
        TakesMembers(inner, rest);
        FirstOfMembers(inner);
        assert ts[1] == inner[0];
      }
    }
  }

  lemma FirstOfValue(v: seq<Token>)
    requires IsValue(v)
    ensures v != [] && v[0] != EndArray && v[0] != EndObject && v[0] != ValueSeparator
  {
  }

  lemma FirstOfElems(e: seq<Token>)
    requires IsElems(e)
    ensures e != [] && e[0] != EndArray
  {
    hide IsValue;
    if IsValue(e) {
      FirstOfValue(e);
    } else {
      var k: nat :| ElemsSplit(e, k);
      FirstOfValue(e[..k]);
    }
  }

  lemma FirstOfMembers(m: seq<Token>)
    requires IsMembers(m)
    ensures m != [] && m[0] == ValueString
  {
    hide IsValue;
    if !IsMember(m) {
      var k: nat :| MembersSplit(m, k);
      assert IsMember(m[..k]);
    }
  }

  lemma {:induction false} TakesElems(e: seq<Token>, rest: seq<Token>)
    requires IsElems(e)
    ensures TakeElems(e + ([EndArray] + rest)) == Some(rest)
    decreases |e|, 1
  {
    hide IsValue, TakeValue;
    var tail := [EndArray] + rest;
    if IsValue(e) {
      TakesValue(e, tail);
      assert tail[1..] == rest;
    } else {
      var k: nat :| ElemsSplit(e, k);
      var more := [ValueSeparator] + (e[k + 1..] + tail);
      assert e + tail == e[..k] + more;
      TakesValue(e[..k], more);
      assert more[1..] == e[k + 1..] + tail;
      TakesElems(e[k + 1..], rest);
    }
  }

  lemma TakeMember(m: seq<Token>, rest: seq<Token>)
    requires IsMember(m) && TakeValue(m[2..] + rest) == Some(rest)
    ensures |m + rest| >= 2 && (m + rest)[0] == ValueString && (m + rest)[1] == NameSeparator
    ensures TakeValue((m + rest)[2..]) == Some(rest)
  {
    hide IsValue, TakeValue;
    assert (m + rest)[2..] == m[2..] + rest;
  }

  lemma {:induction false} TakesMembers(m: seq<Token>, rest: seq<Token>)
    requires IsMembers(m)
    ensures TakeMembers(m + ([EndObject] + rest)) == Some(rest)
    decreases |m|, 1
  {
    hide IsValue, TakeValue;
    var tail := [EndObject] + rest;
    if IsMember(m) {
      TakesValue(m[2..], tail);
      TakeMember(m, tail);
      assert tail[1..] == rest;
    } else {
      var k: nat :| MembersSplit(m, k);
      var more := [ValueSeparator] + (m[k + 1..] + tail);
      assert m + tail == m[..k] + more;
      assert IsMember(m[..k]);
      TakesValue(m[..k][2..], more);
      TakeMember(m[..k], more);
      assert more[1..] == m[k + 1..] + tail;
      TakesMembers(m[k + 1..], rest);
    }
  }

  // ----- the tokens of a text

  /** The surrogate escapes of a string token are paired. */
  predicate PairedToken(content: Text, t: Scanned)
    requires StringToken(content, t)
  {
    Paired(content[t.start + 1..t.end - 1], false)
  }

  lemma ReadIffPaired(content: Text, t: Scanned)
    requires StringToken(content, t)
    ensures StringOf(content, t).Ok? <==> PairedToken(content, t)
  {
    hide WellEscaped, Paired, Unescape, StringBody;
    UnescapeIffPaired(content[t.start + 1..t.end - 1]);
  }

  /** The token, except that a string with a surrogate escape that is not half of a pair
      counts as an error. */
  function Symbol(content: Text, t: Scanned): Token
    requires Fits(content, t)
  {
    if t.token == ValueString && !PairedToken(content, t) then ParseError else t.token
  }

  /** The symbols from the token `t` on, up to the end of the input. */
  function Symbols(content: Text, t: Scanned): seq<Token>
    requires Fits(content, t)
    decreases |content| + 1 - t.end
  {
    if t.token == EndOfInput then [] else [Symbol(content, t)] + Symbols(content, Scan(content, t.end))
  }

  lemma SymbolsStep(content: Text, t: Scanned)
    requires Fits(content, t)
    ensures t.token == EndOfInput <==> Symbols(content, t) == []
    ensures t.token != EndOfInput ==>
      Symbols(content, t)[0] == Symbol(content, t) && Symbols(content, t)[1..] == Symbols(content, Scan(content, t.end))
  {
    hide Scan, PairedToken;
  }

  /** The parser follows the recognizer: it succeeds on the same symbols, and stops where
      that stops. */
  ghost predicate Follows<V>(content: Text, r: Result<(V, Scanned)>, left: Option<seq<Token>>)
    requires r.Ok? ==> Fits(content, r.value.1)
  {
    if r.Ok? then left == Some(Symbols(content, r.value.1)) else left.None?
  }

  lemma CommaFails(ts: seq<Token>)
    requires ts == [] || ts[0] == ValueSeparator
    ensures TakeElems(ts).None? && TakeMembers(ts).None?
  {
  }

  lemma {:induction false} ValueFollows(content: Text, t: Scanned, read: Text -> Json)
    requires Fits(content, t)
    ensures Follows(content, ParseValue(content, t, read), TakeValue(Symbols(content, t)))
    decreases |content| + 1 - t.end, 1
  {
    hide Symbols;
    SymbolsStep(content, t);
    if t.token == BeginObject {
      ObjectFollows(content, t, read);
    } else if t.token == BeginArray {
      ArrayFollows(content, t, read);
    } else {
      ScalarFollows(content, t, read);
    }
  }

  lemma ScalarFollows(content: Text, t: Scanned, read: Text -> Json)
    requires Fits(content, t) && t.token != BeginObject && t.token != BeginArray
    ensures Follows(content, ParseValue(content, t, read), TakeValue(Symbols(content, t)))
  {
    hide Scan, StringOf, ParseElems, ParseMembers, TakeElems, TakeMembers, Symbols, NumberOf, Fits, PairedToken;
    SymbolsStep(content, t);
    EndOfTokens(content, t);
    SymbolIs(content, t);
  }

  lemma EndOfTokens(content: Text, t: Scanned)
    requires Fits(content, t)
    ensures t.token != EndOfInput ==> t.end <= |content| && Fits(content, Scan(content, t.end)) && Scan(content, t.end).end > t.end
  {
  }

  lemma {:induction false} ObjectFollows(content: Text, t: Scanned, read: Text -> Json)
    requires Fits(content, t) && t.token == BeginObject
    ensures Follows(content, ParseValue(content, t, read), TakeValue(Symbols(content, t)))
    decreases |content| + 1 - t.end, 0
  {
    hide Scan, StringOf, ParseElems, ParseMembers, TakeElems, TakeMembers, Symbols, NumberOf, Fits, PairedToken;
    SymbolsStep(content, t);
    EndOfTokens(content, t);
    var next, ts := Scan(content, t.end), Symbols(content, t);
    SymbolsStep(content, next);
    EndOfTokens(content, next);
    if next.token == EndObject {
      assert ts[2..] == ts[1..][1..];
    } else if next.token == ValueSeparator {
      CommaFails(ts[1..]);
    } else {
      MembersFollow(content, next, map[], read);
    }
  }

  lemma {:induction false} ArrayFollows(content: Text, t: Scanned, read: Text -> Json)
    requires Fits(content, t) && t.token == BeginArray
    ensures Follows(content, ParseValue(content, t, read), TakeValue(Symbols(content, t)))
    decreases |content| + 1 - t.end, 0
  {
    hide Scan, StringOf, ParseElems, ParseMembers, TakeElems, TakeMembers, Symbols, NumberOf, Fits, PairedToken;
    SymbolsStep(content, t);
    EndOfTokens(content, t);
    var next, ts := Scan(content, t.end), Symbols(content, t);
    SymbolsStep(content, next);
    EndOfTokens(content, next);
    if next.token == EndArray {
      assert ts[2..] == ts[1..][1..];
    } else if next.token == ValueSeparator {
      CommaFails(ts[1..]);
    } else {
      ElemsFollow(content, next, [], read);
    }
  }

  lemma {:induction false} ElemsFollow(content: Text, t: Scanned, done: seq<Json>, read: Text -> Json)
    requires Fits(content, t)
    ensures Follows(content, ParseElems(content, t, done, read), TakeElems(Symbols(content, t)))
    decreases |content| + 1 - t.end, 2
  {
    hide Scan, StringOf, ParseValue, TakeValue, Symbols, Fits, Symbol;
    ValueFollows(content, t, read);
    var v := ParseValue(content, t, read);
    if v.Ok? {
      var last := v.value.1;
      SymbolsStep(content, last);
      EndOfTokens(content, last);
      SymbolIs(content, last);
      if last.token == ValueSeparator {
        ElemsFollow(content, Scan(content, last.end), done + [v.value.0], read);
      }
    }
  }

  lemma SymbolIs(content: Text, t: Scanned)
    requires Fits(content, t)
    ensures t.token != ValueString ==> Symbol(content, t) == t.token
    ensures t.token == ValueString ==> StringToken(content, t)
    ensures t.token == ValueString ==>
      Symbol(content, t) == if StringOf(content, t).Ok? then ValueString else ParseError
  {
    hide StringOf, PairedToken;
    if t.token == ValueString { ReadIffPaired(content, t); }
  }

  lemma {:induction false} MembersFollow(content: Text, t: Scanned, done: map<Text, Json>, read: Text -> Json)
    requires Fits(content, t)
    ensures Follows(content, ParseMembers(content, t, done, read), TakeMembers(Symbols(content, t)))
    decreases |content| + 1 - t.end, 2
  {
    hide Scan, StringOf, ParseValue, ParseKey, TakeValue, Symbols, StringToken, Symbol;
    KeyFollows(content, t);
    var key := ParseKey(content, t);
    if key.Ok? {
      ValueFollows(content, key.value.1, read);
      var v := ParseValue(content, key.value.1, read);
      if v.Ok? {
        var last := v.value.1;
        SymbolsStep(content, last);
        EndOfTokens(content, last);
        SymbolIs(content, last);
        if last.token == ValueSeparator {
          MembersFollow(content, Scan(content, last.end), done[key.value.0 := v.value.0], read);
        }
      }
    }
  }

  lemma KeyFollows(content: Text, t: Scanned)
    requires Fits(content, t)
    ensures var ts := Symbols(content, t); var key := ParseKey(content, t);
      if |ts| >= 2 && ts[0] == ValueString && ts[1] == NameSeparator
      then key.Ok? && Fits(content, key.value.1) && key.value.1.end > t.end && ts[2..] == Symbols(content, key.value.1)
      else key.Err?
  {
    hide Scan, StringOf, Symbols, Fits, PairedToken;
    SymbolsStep(content, t);
    EndOfTokens(content, t);
    SymbolIs(content, t);
    if t.token == ValueString {
      var colon, ts := Scan(content, t.end), Symbols(content, t);
      SymbolsStep(content, colon);
      EndOfTokens(content, colon);
      if |ts| >= 2 { assert ts[2..] == ts[1..][1..]; }
    }
  }

  /** A text is accepted if and only if its tokens, with strings of unpaired surrogates
      counted as errors, form one value of the grammar. */
  lemma AcceptedIffValue(text: Text, read: Text -> Json)
    ensures Parse(text, read).Ok? <==> IsValue(Symbols(text, Scan(text, 0)))
  {
    hide Scan, ParseValue, Symbols, IsValue, TakeValue;
    var t := Scan(text, 0);
    var ts := Symbols(text, t);
    ValueFollows(text, t, read);
    var r := ParseValue(text, t, read);
    if r.Ok? {
      SymbolsStep(text, r.value.1);
    }
    if TakeValue(ts) == Some([]) {
      TakenValue(ts);
      assert ts[..|ts|] == ts;
    }
    if IsValue(ts) {
      TakesValue(ts, []);
      assert ts + [] == ts;
    }
  }

  // ----- what is accepted can be printed

  /** Reading a floating-point literal gives a number, or null if it is not finite. */
  ghost predicate ReadsFloats(read: Text -> Json) {
    forall s :: read(s).Float? || read(s).Null?
  }

  lemma StringIsUtf8(content: Text, t: Scanned)
    requires StringToken(content, t) && StringOf(content, t).Ok?
    ensures Utf8(StringOf(content, t).value)
  {
    hide WellEscaped, Utf8, Unescape, ScanFrom;
    UnescapeBody(content[t.start + 1..t.end - 1]);
  }

  lemma {:induction false} ValueUtf8(content: Text, t: Scanned, read: Text -> Json)
    requires Fits(content, t) && ReadsFloats(read) && ParseValue(content, t, read).Ok?
    ensures T.Utf8Strings(ParseValue(content, t, read).value.0)
    decreases |content| + 1 - t.end, 0
  {
    hide Scan, StringOf, ParseElems, ParseMembers, StringToken, Utf8;
    if t.token == BeginObject {
      var next := Scan(content, t.end);
      if next.token != EndObject { MembersUtf8(content, next, map[], read); }
    } else if t.token == BeginArray {
      var next := Scan(content, t.end);
      if next.token != EndArray { ElemsUtf8(content, next, [], read); }
    } else if t.token == ValueString {
      StringIsUtf8(content, t);
    }
  }

  lemma {:induction false} ElemsUtf8(content: Text, t: Scanned, done: seq<Json>, read: Text -> Json)
    requires Fits(content, t) && ReadsFloats(read) && ParseElems(content, t, done, read).Ok?
    requires forall i :: 0 <= i < |done| ==> T.Utf8Strings(done[i])
    ensures T.Utf8Strings(Array(ParseElems(content, t, done, read).value.0))
    decreases |content| + 1 - t.end, 1
  {
    hide Scan, StringOf, ParseValue, ReadsFloats, StringToken;
    ValueUtf8(content, t, read);
    var v := ParseValue(content, t, read).value;
    if v.1.token == ValueSeparator {
      ElemsUtf8(content, Scan(content, v.1.end), done + [v.0], read);
    }
  }

  lemma {:induction false} MembersUtf8(content: Text, t: Scanned, done: map<Text, Json>, read: Text -> Json)
    requires Fits(content, t) && ReadsFloats(read) && ParseMembers(content, t, done, read).Ok?
    requires forall k :: k in done ==> Utf8(k) && T.Utf8Strings(done[k])
    ensures T.Utf8Strings(Object(ParseMembers(content, t, done, read).value.0))
    decreases |content| + 1 - t.end, 1
  {
    hide Scan, StringOf, ParseValue, ReadsFloats, StringToken, Utf8;
    StringIsUtf8(content, t);
    var key := ParseKey(content, t).value;
    ValueUtf8(content, key.1, read);
    var v := ParseValue(content, key.1, read).value;
    if v.1.token == ValueSeparator {
      MembersUtf8(content, Scan(content, v.1.end), done[key.0 := v.0], read);
    }
  }

  /** Whatever float-free value the parser accepts, it accepts again, as an equal value,
      from its printed form in any style. */
  lemma AcceptedIsPrintable(text: Text, style: Style, read: Text -> Json)
    requires ReadsFloats(read) && Parse(text, read).Ok? && T.FloatFree(Parse(text, read).value)
    ensures var j := Parse(text, read).value;
      var again := Parse(Dump(j, style, 0), read); again.Ok? && Equals(again.value, j)
  {
    hide ParseValue, Dump, Scan, T.FloatFree, T.Utf8Strings, ReadsFloats, Canonical;
    ValueUtf8(text, Scan(text, 0), read);
    hide Parse;
    T.TextRoundTrip(Parse(text, read).value, style, read);
  }
}
