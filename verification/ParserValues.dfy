/**
 What the parser makes of the texts it accepts: a syntax tree over the tokens as they
 stand in the text, and its value. Parsing gives a value exactly if such a tree has it.
 */
module ParserValues {
  import opened Bytes
  import opened Json
  import opened Parser
  import opened Results
  import opened Scanner

  /** Each part of a container ends with the token after it: a comma or the closing bracket. */
  datatype Tree =
    | Leaf(t: Scanned)
    | Empty(open: Scanned, close: Scanned)
    | Group(open: Scanned, parts: seq<Part>)

  /** A member begins with its key and a colon, an element with nothing. */
  datatype Part = Part(front: seq<Scanned>, tree: Tree, after: Scanned)

  // ----- well-formed trees

  predicate IsScalar(content: Text, t: Scanned) {
    Fits(content, t) &&
    (t.token in {LiteralNull, LiteralTrue, LiteralFalse, ValueUnsigned, ValueInteger, ValueFloat} ||
     (t.token == ValueString && StringOf(content, t).Ok?))
  }

  predicate IsFront(content: Text, open: Token, front: seq<Scanned>) {
    if open == BeginArray then front == []
    else
      |front| == 2 && Fits(content, front[0]) && front[0].token == ValueString && StringOf(content, front[0]).Ok? &&
      front[1].token == NameSeparator
  }

  predicate Closes(open: Token, close: Token) {
    (open == BeginArray && close == EndArray) || (open == BeginObject && close == EndObject)
  }

  predicate IsTree(content: Text, tree: Tree)
    decreases tree, 0
  {
    match tree
    case Leaf(t) => IsScalar(content, t)
    case Empty(open, close) => Closes(open.token, close.token)
    case Group(open, parts) => open.token in {BeginArray, BeginObject} && parts != [] && AreParts(content, open.token, parts)
  }

  predicate AreParts(content: Text, open: Token, parts: seq<Part>)
    decreases parts, 0
  {
    parts == [] ||
    (IsFront(content, open, parts[0].front) && IsTree(content, parts[0].tree) &&
     (if |parts| == 1 then Closes(open, parts[0].after.token) else parts[0].after.token == ValueSeparator) &&
     AreParts(content, open, parts[1..]))
  }

  function Tokens(tree: Tree): (ts: seq<Scanned>)
    ensures ts != []
    decreases tree, 0
  {
    match tree
    case Leaf(t) => [t]
    case Empty(open, close) => [open, close]
    case Group(open, parts) => [open] + PartTokens(parts)
  }

  function PartTokens(parts: seq<Part>): (ts: seq<Scanned>)
    ensures parts != [] ==> ts != []
    decreases parts, 0
  {
    if parts == [] then []
    else parts[0].front + Tokens(parts[0].tree) + [parts[0].after] + PartTokens(parts[1..])
  }

  // ----- values

  function ValueOf(content: Text, tree: Tree, read: Text -> Json): Json
    requires IsTree(content, tree)
    decreases tree, 0
  {
    match tree
    case Leaf(t) => ScalarValue(content, t, read)
    case Empty(open, _) => if open.token == BeginArray then Array([]) else Object(map[])
    case Group(open, parts) =>
      if open.token == BeginArray then Array(Values(content, parts, read)) else Object(Members(content, parts, read))
  }

  function ScalarValue(content: Text, t: Scanned, read: Text -> Json): Json
    requires IsScalar(content, t)
  {
    if t.token == LiteralNull then Null
    else if t.token == LiteralTrue then Boolean(true)
    else if t.token == LiteralFalse then Boolean(false)
    else if t.token == ValueString then String(StringOf(content, t).value)
    else NumberOf(content[t.start..t.end], t.token, read)
  }

  function Values(content: Text, parts: seq<Part>, read: Text -> Json): seq<Json>
    requires AreParts(content, BeginArray, parts)
    decreases parts, 0
  {
    if parts == [] then [] else [ValueOf(content, parts[0].tree, read)] + Values(content, parts[1..], read)
  }

  /** The last value of a repeated key counts. */
  function Members(content: Text, parts: seq<Part>, read: Text -> Json): map<Text, Json>
    requires AreParts(content, BeginObject, parts)
    decreases parts, 0
  {
    if parts == [] then map[]
    else
      map[StringOf(content, parts[0].front[0]).value := ValueOf(content, parts[0].tree, read)] +
      Members(content, parts[1..], read)
  }

  // ----- tokens that follow each other in the text

  predicate Consecutive(content: Text, ts: seq<Scanned>) {
    (forall i :: 0 <= i < |ts| ==> ts[i].end <= |content| + 1) &&
    forall i :: 0 <= i < |ts| - 1 ==> ts[i].end <= |content| && ts[i + 1] == Scan(content, ts[i].end)
  }

  /** The tokens stand from `t` on, and `next` is the token after them. */
  predicate Stand(content: Text, t: Scanned, ts: seq<Scanned>, next: Scanned)
    requires ts != []
  {
    && ts[0] == t && Consecutive(content, ts)
    && ts[|ts| - 1].end <= |content| && next == Scan(content, ts[|ts| - 1].end)
  }

  lemma StandSplit(content: Text, t: Scanned, a: seq<Scanned>, b: seq<Scanned>, next: Scanned)
    requires a != [] && b != [] && Stand(content, t, a + b, next)
    ensures Stand(content, t, a, b[0]) && Stand(content, b[0], b, next)
  {
    hide Scan, Fits;
    var ts := a + b;
    assert forall i :: 0 <= i < |a| ==> ts[i] == a[i];
    assert forall i :: 0 <= i < |b| ==> ts[|a| + i] == b[i];
    assert ts[|a| - 1 + 1] == b[0];
    forall i | 0 <= i < |b| - 1 ensures b[i].end <= |content| && b[i + 1] == Scan(content, b[i].end) {
      assert ts[|a| + i + 1] == b[i + 1];
    }
  }

  lemma StandJoin(content: Text, t: Scanned, a: seq<Scanned>, b: seq<Scanned>, next: Scanned)
    requires a != [] && b != [] && Stand(content, t, a, b[0]) && Stand(content, b[0], b, next)
    ensures Stand(content, t, a + b, next)
  {
    hide Scan, Fits;
    var ts := a + b;
    forall i | 0 <= i < |ts| - 1 ensures ts[i].end <= |content| && ts[i + 1] == Scan(content, ts[i].end) {
      if i < |a| - 1 {
        assert ts[i] == a[i] && ts[i + 1] == a[i + 1];
      } else if i == |a| - 1 {
        assert ts[i] == a[|a| - 1] && ts[i + 1] == b[0];
      } else {
        assert ts[i] == b[i - |a|] && ts[i + 1] == b[i - |a| + 1];
      }
    }
  }

  lemma StandOne(content: Text, t: Scanned, next: Scanned)
    ensures Stand(content, t, [t], next) <==> t.end <= |content| && next == Scan(content, t.end)
  {
    hide Scan, Fits;
  }

  // ----- trees are parsed as their values

  lemma ScalarParsed(content: Text, t: Scanned, read: Text -> Json)
    requires IsScalar(content, t)
    ensures t.end <= |content| && ParseValue(content, t, read) == Ok((ScalarValue(content, t, read), Scan(content, t.end)))
  {
    hide Scan, ParseElems, ParseMembers, NumberOf;
  }

  /** The tokens of a part: its key and colon, its value, and the token after it. */
  lemma PartStands(content: Text, t: Scanned, open: Token, parts: seq<Part>, next: Scanned)
    requires Fits(content, t) && AreParts(content, open, parts) && parts != [] && Stand(content, t, PartTokens(parts), next)
    requires open in {BeginArray, BeginObject}
    ensures var p := parts[0]; var first := Tokens(p.tree)[0];
      Stand(content, first, Tokens(p.tree), p.after) && Fits(content, first) &&
      (if open == BeginArray then first == t
       else ParseKey(content, t) == Ok((StringOf(content, p.front[0]).value, first))) &&
      (if |parts| == 1 then Stand(content, p.after, [p.after], next)
       else p.after.end <= |content| && Stand(content, Scan(content, p.after.end), PartTokens(parts[1..]), next))
  {
    hide Scan, IsTree, Tokens, StringOf, Consecutive;
    var p := parts[0];
    var a, b, c := p.front, Tokens(p.tree), PartTokens(parts[1..]);
    assert PartTokens(parts) == a + (b + ([p.after] + c));
    if open == BeginObject {
      StandSplit(content, t, a, b + ([p.after] + c), next);
      assert a == [a[0]] + [a[1]];
      StandSplit(content, t, [a[0]], [a[1]], b[0]);
      StandOne(content, a[0], a[1]);
      StandOne(content, a[1], b[0]);
      StandSplit(content, b[0], b, [p.after] + c, next);
    } else {
      assert a + (b + ([p.after] + c)) == b + ([p.after] + c);
      StandSplit(content, t, b, [p.after] + c, next);
    }
    if |parts| == 1 {
      assert parts[1..] == [] && [p.after] + c == [p.after];
    } else {
      StandSplit(content, p.after, [p.after], c, next);
      StandOne(content, p.after, c[0]);
    }
  }

  lemma PartsStep(content: Text, open: Token, parts: seq<Part>)
    requires AreParts(content, open, parts) && parts != []
    ensures IsFront(content, open, parts[0].front) && IsTree(content, parts[0].tree) && AreParts(content, open, parts[1..])
    ensures if |parts| == 1 then Closes(open, parts[0].after.token) else parts[0].after.token == ValueSeparator
  {
  }

  lemma KeyFront(content: Text, front: seq<Scanned>)
    requires IsFront(content, BeginObject, front)
    ensures |front| == 2 && StringToken(content, front[0]) && StringOf(content, front[0]).Ok?
  {
    hide StringOf;
  }

  lemma ScanEnds(content: Text, pos: nat)
    requires pos <= |content|
    ensures Fits(content, Scan(content, pos))
  {
  }

  /** The part is a value that ends before `p.after`, and what follows it. */
  lemma PartFits(content: Text, first: Scanned, ts: seq<Scanned>, next: Scanned)
    requires ts != [] && Stand(content, first, ts, next)
    ensures Fits(content, next)
  {
    hide Scan, Fits;
    ScanEnds(content, ts[|ts| - 1].end);
  }

  lemma {:induction false} ElemsParsed(content: Text, t: Scanned, parts: seq<Part>, next: Scanned, done: seq<Json>, read: Text -> Json)
    requires Fits(content, t) && AreParts(content, BeginArray, parts) && parts != []
    requires Stand(content, t, PartTokens(parts), next)
    ensures ParseElems(content, t, done, read) == Ok((done + Values(content, parts, read), next))
    decreases parts, 0
  {
    hide Scan, Fits, IsTree, Tokens, ParseValue, ValueOf, Stand, PartTokens;
    PartStands(content, t, BeginArray, parts, next);
    PartsStep(content, BeginArray, parts);
    var p := parts[0];
    TreeParsed(content, t, p.tree, p.after, read);
    PartFits(content, t, Tokens(p.tree), p.after);
    var x := ValueOf(content, p.tree, read);
    if |parts| == 1 {
      StandOne(content, p.after, next);
      NoValues(content, read);
      assert parts[1..] == [] && done + [x] == done + ([x] + []);
    } else {
      ScanEnds(content, p.after.end);
      ElemsParsed(content, Scan(content, p.after.end), parts[1..], next, done + [x], read);
      assert done + [x] + Values(content, parts[1..], read) == done + Values(content, parts, read);
    }
  }

  lemma NoValues(content: Text, read: Text -> Json)
    ensures AreParts(content, BeginArray, []) && Values(content, [], read) == []
    ensures AreParts(content, BeginObject, []) && Members(content, [], read) == map[]
  {
  }

  lemma MembersStep(content: Text, parts: seq<Part>, done: map<Text, Json>, read: Text -> Json)
    requires AreParts(content, BeginObject, parts) && parts != []
    ensures IsFront(content, BeginObject, parts[0].front) && IsTree(content, parts[0].tree)
    ensures AreParts(content, BeginObject, parts[1..])
    ensures |parts[0].front| == 2 && StringToken(content, parts[0].front[0]) && StringOf(content, parts[0].front[0]).Ok?
    ensures done + Members(content, parts, read) ==
      done[StringOf(content, parts[0].front[0]).value := ValueOf(content, parts[0].tree, read)] + Members(content, parts[1..], read)
  {
    hide *;
    PartsStep(content, BeginObject, parts);
    KeyFront(content, parts[0].front);
    FirstMember(content, parts, read);
    var key, x := StringOf(content, parts[0].front[0]).value, ValueOf(content, parts[0].tree, read);
    MergeFirst(done, key, x, Members(content, parts[1..], read));
  }

  lemma FirstMember(content: Text, parts: seq<Part>, read: Text -> Json)
    requires AreParts(content, BeginObject, parts) && parts != []
    requires IsTree(content, parts[0].tree) && AreParts(content, BeginObject, parts[1..])
    requires |parts[0].front| == 2 && StringToken(content, parts[0].front[0]) && StringOf(content, parts[0].front[0]).Ok?
    ensures Members(content, parts, read) ==
      map[StringOf(content, parts[0].front[0]).value := ValueOf(content, parts[0].tree, read)] + Members(content, parts[1..], read)
  {
    hide IsTree, ValueOf, StringOf, Fits, AreParts, StringToken;
  }

  lemma MergeFirst(done: map<Text, Json>, key: Text, x: Json, rest: map<Text, Json>)
    ensures done + (map[key := x] + rest) == done[key := x] + rest
  {
  }

  lemma {:induction false} MembersParsed(content: Text, t: Scanned, parts: seq<Part>, next: Scanned, done: map<Text, Json>, read: Text -> Json)
    requires Fits(content, t) && AreParts(content, BeginObject, parts) && parts != []
    requires Stand(content, t, PartTokens(parts), next)
    ensures ParseMembers(content, t, done, read) == Ok((done + Members(content, parts, read), next))
    decreases parts, 0
  {
    hide Scan, Fits, IsTree, Tokens, ParseValue, ParseKey, ValueOf, Stand, PartTokens, StringOf, Members, IsFront;
    PartStands(content, t, BeginObject, parts, next);
    MembersStep(content, parts, done, read);
    var p := parts[0];
    KeyFront(content, p.front);
    PartsStep(content, BeginObject, parts);
    var first := Tokens(p.tree)[0];
    TreeParsed(content, first, p.tree, p.after, read);
    PartFits(content, first, Tokens(p.tree), p.after);
    var more := done[StringOf(content, p.front[0]).value := ValueOf(content, p.tree, read)];
    if |parts| == 1 {
      StandOne(content, p.after, next);
      NoValues(content, read);
      assert parts[1..] == [] && more + map[] == more;
    } else {
      ScanEnds(content, p.after.end);
      MembersParsed(content, Scan(content, p.after.end), parts[1..], next, more, read);
    }
  }

  lemma EmptyParsed(content: Text, t: Scanned, close: Scanned, next: Scanned, read: Text -> Json)
    requires Fits(content, t) && Closes(t.token, close.token) && Stand(content, t, [t, close], next)
    ensures ParseValue(content, t, read) == Ok((ValueOf(content, Empty(t, close), read), next))
  {
    hide Scan, ParseElems, ParseMembers, Stand;
    assert [t, close] == [t] + [close];
    StandSplit(content, t, [t], [close], next);
    StandOne(content, t, close);
    StandOne(content, close, next);
  }

  /** A container is parsed as its parts are, which do not begin with a comma or bracket. */
  lemma GroupParsed(content: Text, t: Scanned, first: Scanned, read: Text -> Json)
    requires Fits(content, t) && t.end <= |content| && first == Scan(content, t.end) && t.token in {BeginArray, BeginObject}
    requires first.token !in {ValueSeparator, EndArray, EndObject}
    ensures ParseValue(content, t, read) ==
      if t.token == BeginArray then
        var r := ParseElems(content, first, [], read);
        if r.Ok? then Ok((Array(r.value.0), r.value.1)) else Err(r.error)
      else
        var r := ParseMembers(content, first, map[], read);
        if r.Ok? then Ok((Object(r.value.0), r.value.1)) else Err(r.error)
  {
    hide Scan, ParseElems, ParseMembers;
  }

  lemma FirstToken(content: Text, tree: Tree)
    requires IsTree(content, tree)
    ensures Tokens(tree)[0].token !in {ValueSeparator, EndArray, EndObject}
  {
    hide Fits;
  }

  lemma FirstPartToken(content: Text, open: Token, parts: seq<Part>)
    requires AreParts(content, open, parts) && parts != []
    ensures PartTokens(parts)[0].token !in {ValueSeparator, EndArray, EndObject}
  {
    hide Fits, IsTree, Tokens, StringOf;
    FirstToken(content, parts[0].tree);
    assert PartTokens(parts) == parts[0].front + (Tokens(parts[0].tree) + ([parts[0].after] + PartTokens(parts[1..])));
  }

  /** Wherever the tokens of a tree stand, the parser gives its value and the token after it. */
  lemma {:induction false} TreeParsed(content: Text, t: Scanned, tree: Tree, next: Scanned, read: Text -> Json)
    requires Fits(content, t) && IsTree(content, tree) && Stand(content, t, Tokens(tree), next)
    ensures ParseValue(content, t, read) == Ok((ValueOf(content, tree, read), next))
    decreases tree, 1
  {
    hide Scan, ParseValue, ParseElems, ParseMembers, Fits, Stand, Values, Members, PartTokens;
    match tree
    case Leaf(u) =>
      StandFirst(content, t, [u], next);
      StandOne(content, t, next);
      ScalarParsed(content, t, read);
    case Empty(open, close) =>
      StandFirst(content, t, [open, close], next);
      EmptyParsed(content, t, close, next, read);
    case Group(open, parts) =>
      StandFirst(content, t, [open] + PartTokens(parts), next);
      StandSplit(content, t, [open], PartTokens(parts), next);
      var first := PartTokens(parts)[0];
      StandOne(content, t, first);
      FirstPartToken(content, open.token, parts);
      ScanEnds(content, t.end);
      GroupParsed(content, t, first, read);
      if open.token == BeginArray {
        ElemsParsed(content, first, parts, next, [], read);
        assert [] + Values(content, parts, read) == Values(content, parts, read);
      } else {
        MembersParsed(content, first, parts, next, map[], read);
        assert map[] + Members(content, parts, read) == Members(content, parts, read);
      }
  }

  lemma StandFirst(content: Text, t: Scanned, ts: seq<Scanned>, next: Scanned)
    requires ts != [] && Stand(content, t, ts, next)
    ensures ts[0] == t
  {
    hide Scan, Fits;
  }

  // ----- and what is parsed has a tree

  /** The tokens of a part in front of those of the parts after it. */
  lemma PartJoin(content: Text, t: Scanned, open: Token, p: Part, rest: seq<Part>, next: Scanned)
    requires open in {BeginArray, BeginObject} && IsFront(content, open, p.front) && IsTree(content, p.tree)
    requires if open == BeginArray then t == Tokens(p.tree)[0] else Stand(content, t, p.front, Tokens(p.tree)[0])
    requires Stand(content, Tokens(p.tree)[0], Tokens(p.tree), p.after)
    requires AreParts(content, open, rest)
    requires rest == [] ==> Closes(open, p.after.token) && Stand(content, p.after, [p.after], next)
    requires rest != [] ==> p.after.token == ValueSeparator && Stand(content, p.after, [p.after], PartTokens(rest)[0])
    requires rest != [] ==> Stand(content, PartTokens(rest)[0], PartTokens(rest), next)
    ensures AreParts(content, open, [p] + rest) && Stand(content, t, PartTokens([p] + rest), next)
  {
    PartsCons(content, open, p, rest);
    FrontLength(content, open, p.front);
    hide *;
    PartTokensFirst(p, rest);
    var ts, tail := Tokens(p.tree), [p.after] + PartTokens(rest);
    if rest == [] {
      NoTokens();
      assert tail == [p.after];
    } else {
      StandJoin(content, p.after, [p.after], PartTokens(rest), next);
    }
    StandJoin(content, ts[0], ts, tail, next);
    if open == BeginObject {
      StandJoin(content, t, p.front, ts + tail, next);
    } else {
      assert p.front + (ts + tail) == ts + tail;
    }
  }

  lemma FrontLength(content: Text, open: Token, front: seq<Scanned>)
    requires IsFront(content, open, front)
    ensures if open == BeginArray then front == [] else front != []
  {
  }

  lemma NoTokens()
    ensures PartTokens([]) == []
  {
  }

  lemma PartTokensFirst(p: Part, rest: seq<Part>)
    ensures PartTokens([p] + rest) == p.front + (Tokens(p.tree) + ([p.after] + PartTokens(rest)))
  {
    assert ([p] + rest)[1..] == rest;
    hide Tokens;
  }

  lemma PartsCons(content: Text, open: Token, p: Part, rest: seq<Part>)
    requires IsFront(content, open, p.front) && IsTree(content, p.tree) && AreParts(content, open, rest)
    requires if rest == [] then Closes(open, p.after.token) else p.after.token == ValueSeparator
    ensures AreParts(content, open, [p] + rest)
  {
    assert ([p] + rest)[1..] == rest;
    hide IsFront, IsTree;
  }

  lemma {:induction false} ElemsFor(content: Text, t: Scanned, done: seq<Json>, read: Text -> Json) returns (parts: seq<Part>)
    requires Fits(content, t) && ParseElems(content, t, done, read).Ok?
    ensures AreParts(content, BeginArray, parts) && parts != []
    ensures Stand(content, t, PartTokens(parts), ParseElems(content, t, done, read).value.1)
    decreases |content| + 1 - t.end, 1
  {
    hide Scan, Fits, IsTree, ParseValue, Tokens, Stand, PartTokens, AreParts;
    var value := ParseValue(content, t, read).value;
    var tree := TreeFor(content, t, read);
    var after := value.1;
    TokenEnd(content, after);
    StandFirst(content, t, Tokens(tree), after);
    StandOne(content, after, Scan(content, after.end));
    var p := Part([], tree, after);
    if after.token == ValueSeparator {
      ScanEnds(content, after.end);
      var rest := ElemsFor(content, Scan(content, after.end), done + [value.0], read);
      var next := ParseElems(content, t, done, read).value.1;
      StandFirst(content, Scan(content, after.end), PartTokens(rest), next);
      PartJoin(content, t, BeginArray, p, rest, next);
      parts := [p] + rest;
    } else {
      NoValues(content, read);
      PartJoin(content, t, BeginArray, p, [], Scan(content, after.end));
      parts := [p] + [];
    }
  }

  lemma TokenEnd(content: Text, t: Scanned)
    requires Fits(content, t)
    ensures t.end <= |content| + 1 && (t.token != EndOfInput ==> t.end <= |content|)
  {
  }

  /** The key and colon that were read stand before the value. */
  lemma KeyStands(content: Text, t: Scanned) returns (front: seq<Scanned>)
    requires Fits(content, t) && ParseKey(content, t).Ok?
    ensures IsFront(content, BeginObject, front) && Stand(content, t, front, ParseKey(content, t).value.1)
  {
    hide Scan, StringOf;
    var colon := Scan(content, t.end);
    ScanEnds(content, t.end);
    front := [t] + [colon];
    StandOne(content, t, colon);
    StandOne(content, colon, Scan(content, colon.end));
    hide Stand;
    StandJoin(content, t, [t], [colon], Scan(content, colon.end));
  }

  lemma {:induction false} MembersFor(content: Text, t: Scanned, done: map<Text, Json>, read: Text -> Json)
    returns (parts: seq<Part>)
    requires Fits(content, t) && ParseMembers(content, t, done, read).Ok?
    ensures AreParts(content, BeginObject, parts) && parts != []
    ensures Stand(content, t, PartTokens(parts), ParseMembers(content, t, done, read).value.1)
    decreases |content| + 1 - t.end, 1
  {
    hide Scan, Fits, IsTree, ParseValue, ParseKey, Tokens, Stand, PartTokens, AreParts, IsFront;
    var key := ParseKey(content, t).value;
    var front := KeyStands(content, t);
    TokenEnd(content, key.1);
    var value := ParseValue(content, key.1, read).value;
    var tree := TreeFor(content, key.1, read);
    var after := value.1;
    TokenEnd(content, after);
    StandFirst(content, key.1, Tokens(tree), after);
    StandOne(content, after, Scan(content, after.end));
    var p := Part(front, tree, after);
    if after.token == ValueSeparator {
      ScanEnds(content, after.end);
      var rest := MembersFor(content, Scan(content, after.end), done[key.0 := value.0], read);
      var next := ParseMembers(content, t, done, read).value.1;
      StandFirst(content, Scan(content, after.end), PartTokens(rest), next);
      PartJoin(content, t, BeginObject, p, rest, next);
      parts := [p] + rest;
    } else {
      NoValues(content, read);
      PartJoin(content, t, BeginObject, p, [], Scan(content, after.end));
      parts := [p] + [];
    }
  }

  /** What the parser has seen of a container it read: its first token, and its parts. */
  lemma ContainerRead(content: Text, t: Scanned, read: Text -> Json)
    requires Fits(content, t) && t.token in {BeginArray, BeginObject} && ParseValue(content, t, read).Ok?
    ensures t.end <= |content|
    ensures var first := Scan(content, t.end); var next := ParseValue(content, t, read).value.1;
      if Closes(t.token, first.token) then first.end <= |content| && next == Scan(content, first.end)
      else if t.token == BeginArray then
        ParseElems(content, first, [], read).Ok? && next == ParseElems(content, first, [], read).value.1
      else ParseMembers(content, first, map[], read).Ok? && next == ParseMembers(content, first, map[], read).value.1
  {
    ScanEnds(content, t.end);
    hide Scan, ParseElems, ParseMembers;
  }

  lemma {:induction false} TreeFor(content: Text, t: Scanned, read: Text -> Json) returns (tree: Tree)
    requires Fits(content, t) && ParseValue(content, t, read).Ok?
    ensures IsTree(content, tree) && Stand(content, t, Tokens(tree), ParseValue(content, t, read).value.1)
    decreases |content| + 1 - t.end, 0
  {
    var next := ParseValue(content, t, read).value.1;
    if t.token in {BeginArray, BeginObject} {
      ContainerRead(content, t, read);
      hide Scan, ParseValue, ParseElems, ParseMembers, Fits, Stand, AreParts, PartTokens;
      var first := Scan(content, t.end);
      ScanEnds(content, t.end);
      StandOne(content, t, first);
      if Closes(t.token, first.token) {
        tree := Empty(t, first);
        StandOne(content, first, next);
        StandJoin(content, t, [t], [first], next);
        assert [t] + [first] == [t, first];
      } else {
        var parts;
        if t.token == BeginArray {
          parts := ElemsFor(content, first, [], read);
        } else {
          parts := MembersFor(content, first, map[], read);
        }
        StandFirst(content, first, PartTokens(parts), next);
        StandJoin(content, t, [t], PartTokens(parts), next);
        tree := Group(t, parts);
      }
    } else {
      hide Stand;
      LeafRead(content, t, read);
      tree := Leaf(t);
      StandOne(content, t, next);
    }
  }

  lemma LeafRead(content: Text, t: Scanned, read: Text -> Json)
    requires Fits(content, t) && t.token !in {BeginArray, BeginObject} && ParseValue(content, t, read).Ok?
    ensures IsScalar(content, t) && t.end <= |content| && ParseValue(content, t, read).value.1 == Scan(content, t.end)
  {
    hide Scan, NumberOf, StringOf;
  }

  /** The tree of a whole text, which ends after it. */
  predicate IsTextTree(content: Text, tree: Tree, end: Scanned) {
    IsTree(content, tree) && Stand(content, Scan(content, 0), Tokens(tree), end) && end.token == EndOfInput
  }

  /** `parse` gives `j` exactly if the tokens of the text, and all of them, are those of a
      tree with the value `j`. */
  lemma ParseIff(content: Text, read: Text -> Json, j: Json)
    ensures Parse(content, read) == Ok(j) <==>
      exists tree, end :: IsTextTree(content, tree, end) && ValueOf(content, tree, read) == j
  {
    hide Scan, ParseValue, Fits, IsTree, Stand, Tokens, ValueOf;
    var t := Scan(content, 0);
    ScanEnds(content, 0);
    forall tree, end | IsTextTree(content, tree, end) && ValueOf(content, tree, read) == j
      ensures Parse(content, read) == Ok(j)
    {
      TreeParsed(content, t, tree, end, read);
    }
    if Parse(content, read) == Ok(j) {
      var tree := TreeFor(content, t, read);
      var end := ParseValue(content, t, read).value.1;
      TreeParsed(content, t, tree, end, read);
      assert IsTextTree(content, tree, end);
    }
  }
}
