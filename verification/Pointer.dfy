/**
 JSON Pointers (`json_pointer`): splitting a string into reference tokens, printing
 tokens, and the escaping of '~' and '/' (sections 3 and 4 of RFC 6901).
 */
module Pointer {
  import opened Bytes
  import opened Results

  const SLASH: byte := 0x2F
  const TILDE: byte := 0x7E
  const ZERO: byte := 0x30
  const ONE: byte := 0x31

  const NPOS: int := -1

  // ----- replace_substring

  predicate OccursAt(s: Text, f: Text, pos: nat) {
    pos + |f| <= |s| && s[pos..pos + |f|] == f
  }

  /** `s.find(f, from)`: the first occurrence at or after `from`, or `NPOS`. */
  method Find(s: Text, f: Text, from: nat) returns (pos: int)
    ensures pos == NPOS || (from <= pos && OccursAt(s, f, pos))
    ensures forall i: nat :: from <= i && (pos == NPOS || i < pos) ==> !OccursAt(s, f, i)
  {
    pos := from;
    while pos + |f| <= |s|
      invariant from <= pos
      invariant forall i: nat :: from <= i < pos ==> !OccursAt(s, f, i)
    {
      if s[pos..pos + |f|] == f {
        return pos;
      }
      pos := pos + 1;
    }
    return NPOS;
  }

  /** Left to right, every occurrence of `f` replaced with `t`. */
  function ReplaceAll(s: Text, f: Text, t: Text): Text
    requires f != []
  {
    if |s| < |f| then s
    else if s[..|f|] == f then t + ReplaceAll(s[|f|..], f, t)
    else [s[0]] + ReplaceAll(s[1..], f, t)
  }

  lemma OccursInSuffix(s: Text, f: Text, from: nat, i: nat)
    requires from <= |s|
    ensures OccursAt(s[from..], f, i) == OccursAt(s, f, from + i)
  {
    if from + i + |f| <= |s| {
      assert s[from..][i..i + |f|] == s[from + i..from + i + |f|];
    }
  }

  lemma {:induction false} ReplaceAllNone(s: Text, f: Text, t: Text)
    requires f != []
    requires forall i: nat :: !OccursAt(s, f, i)
    ensures ReplaceAll(s, f, t) == s
  {
    if |s| >= |f| {
      assert !OccursAt(s, f, 0);
      forall i: nat ensures !OccursAt(s[1..], f, i) {
        OccursInSuffix(s, f, 1, i);
      }
      ReplaceAllNone(s[1..], f, t);
    }
  }

  lemma ReplaceAllHere(s: Text, f: Text, t: Text)
    requires f != [] && OccursAt(s, f, 0)
    ensures ReplaceAll(s, f, t) == s[..0] + t + ReplaceAll(s[|f|..], f, t)
  {
    assert s[0..|f|] == s[..|f|];
    var rest := ReplaceAll(s[|f|..], f, t);
    assert ReplaceAll(s, f, t) == t + rest;
    hide ReplaceAll;
    assert s[..0] + t == t;
  }

  lemma ReplaceAllLater(s: Text, f: Text, t: Text)
    requires f != [] && |s| >= |f| && !OccursAt(s, f, 0)
    ensures ReplaceAll(s, f, t) == [s[0]] + ReplaceAll(s[1..], f, t)
  {
  }

  lemma {:induction false} ReplaceAllFirst(s: Text, f: Text, t: Text, pos: nat)
    requires f != [] && OccursAt(s, f, pos)
    requires forall i: nat :: i < pos ==> !OccursAt(s, f, i)
    ensures ReplaceAll(s, f, t) == s[..pos] + t + ReplaceAll(s[pos + |f|..], f, t)
  {
    hide ReplaceAll;
    if pos == 0 {
      ReplaceAllHere(s, f, t);
    } else {
      ReplaceAllLater(s, f, t);
      forall i: nat | i < pos - 1 ensures !OccursAt(s[1..], f, i) {
        OccursInSuffix(s, f, 1, i);
      }
      OccursInSuffix(s, f, 1, pos - 1);
      ReplaceAllFirst(s[1..], f, t, pos - 1);
      assert s[1..][pos - 1 + |f|..] == s[pos + |f|..];
      assert [s[0]] + s[1..][..pos - 1] == s[..pos];
    }
  }

  /** `replace_substring`: edits the string in place, occurrence by occurrence. */
  method ReplaceSubstring(s0: Text, f: Text, t: Text) returns (s: Text)
    requires f != []
    ensures s == ReplaceAll(s0, f, t)
  {
    hide ReplaceAll;
    s := s0;
    var pos := Find(s, f, 0);
    ghost var done := 0;
    assert s[..0] + ReplaceAll(s[0..], f, t) == ReplaceAll(s0, f, t) by { assert s[0..] == s; }
    while pos != NPOS
      invariant 0 <= done <= |s|
      invariant pos == NPOS || (done <= pos && OccursAt(s, f, pos))
      invariant forall i: nat :: done <= i && (pos == NPOS || i < pos) ==> !OccursAt(s, f, i)
      invariant s[..done] + ReplaceAll(s[done..], f, t) == ReplaceAll(s0, f, t)
      decreases |s| - done
    {
      ghost var before, from := s, done;
      SuffixReplaceFirst(s, f, t, done, pos);
      s := s[..pos] + t + s[pos + |f|..];
      done := pos + |t|;
      assert s[done..] == before[pos + |f|..];
      assert s[..done] == before[..from] + (before[from..pos] + t);
      pos := Find(s, f, pos + |t|);
    }
    forall i: nat ensures !OccursAt(s[done..], f, i) {
      OccursInSuffix(s, f, done, i);
    }
    ReplaceAllNone(s[done..], f, t);
    assert s[..done] + s[done..] == s;
  }

  lemma SuffixReplaceFirst(s: Text, f: Text, t: Text, done: nat, pos: nat)
    requires f != [] && done <= pos && OccursAt(s, f, pos)
    requires forall i: nat :: done <= i < pos ==> !OccursAt(s, f, i)
    ensures ReplaceAll(s[done..], f, t) == s[done..pos] + t + ReplaceAll(s[pos + |f|..], f, t)
  {
    forall i: nat | i < pos - done ensures !OccursAt(s[done..], f, i) {
      OccursInSuffix(s, f, done, i);
    }
    OccursInSuffix(s, f, done, pos - done);
    ReplaceAllFirst(s[done..], f, t, pos - done);
    assert s[done..][..pos - done] == s[done..pos];
    assert s[done..][pos - done + |f|..] == s[pos + |f|..];
  }

  // ----- escaping

  /** `escape`: '~' becomes "~0", then '/' becomes "~1". */
  function Escape(s: Text): Text {
    ReplaceAll(ReplaceAll(s, [TILDE], [TILDE, ZERO]), [SLASH], [TILDE, ONE])
  }

  /** `unescape`: "~1" becomes '/', then "~0" becomes '~'. */
  function Unescape(s: Text): Text {
    ReplaceAll(ReplaceAll(s, [TILDE, ONE], [SLASH]), [TILDE, ZERO], [TILDE])
  }

  method EscapeToken(s0: Text) returns (s: Text)
    ensures s == Escape(s0)
  {
    s := ReplaceSubstring(s0, [TILDE], [TILDE, ZERO]);
    s := ReplaceSubstring(s, [SLASH], [TILDE, ONE]);
  }

  method UnescapeToken(s0: Text) returns (s: Text)
    ensures s == Unescape(s0)
  {
    s := ReplaceSubstring(s0, [TILDE, ONE], [SLASH]);
    s := ReplaceSubstring(s, [TILDE, ZERO], [TILDE]);
  }

  function EscapeByte(c: byte): Text {
    if c == TILDE then [TILDE, ZERO] else if c == SLASH then [TILDE, ONE] else [c]
  }

  /** Every '~' is followed by '0' or '1'. */
  predicate WellEscaped(s: Text) {
    forall i :: 0 <= i < |s| && s[i] == TILDE ==> i + 1 < |s| && (s[i + 1] == ZERO || s[i + 1] == ONE)
  }

  predicate NoSlash(s: Text) {
    forall i :: 0 <= i < |s| ==> s[i] != SLASH
  }

  /** The two passes of `escape` act byte by byte. */
  lemma {:induction false} EscapeStep(c: byte, s: Text)
    ensures Escape([c] + s) == EscapeByte(c) + Escape(s)
  {
    var e := ReplaceAll(s, [TILDE], [TILDE, ZERO]);
    assert ([c] + s)[1..] == s;
    assert ([c] + s)[..1] == [c];
    if c == TILDE {
      var t := [TILDE, ZERO] + e;
      assert t[..1] == [TILDE] && t[1..][..1] == [ZERO] && t[1..][1..] == e;
      assert ReplaceAll(t[1..], [SLASH], [TILDE, ONE]) == [ZERO] + Escape(s);
      assert [TILDE] + ([ZERO] + Escape(s)) == [TILDE, ZERO] + Escape(s);
    } else {
      var t := [c] + e;
      assert t[..1] == [c] && t[1..] == e;
    }
  }

  lemma {:induction false} EscapeShape(s: Text)
    ensures NoSlash(Escape(s)) && WellEscaped(Escape(s))
    ensures Escape(s) == [] <==> s == []
  {
    if s != [] {
      assert s == [s[0]] + s[1..];
      EscapeStep(s[0], s[1..]);
      EscapeShape(s[1..]);
      var e, r := EscapeByte(s[0]), Escape(s[1..]);
      forall i | 0 <= i < |e + r| && (e + r)[i] == TILDE
        ensures i + 1 < |e + r| && ((e + r)[i + 1] == ZERO || (e + r)[i + 1] == ONE)
      {
        if i >= |e| { assert r[i - |e|] == TILDE; }
      }
    }
  }

  /** The two passes of `unescape`, in that order, undo one escaped byte at a time. */
  lemma {:induction false} UnescapeStep(c: byte, s: Text)
    ensures Unescape(EscapeByte(c) + s) == [c] + Unescape(s)
  {
    var p := ReplaceAll(s, [TILDE, ONE], [SLASH]);
    var x := EscapeByte(c) + s;
    if c == TILDE {
      assert x[..2] == [TILDE, ZERO] && x[1..] == [ZERO] + s;
      if |s| > 0 { assert x[1..][..2] == [ZERO, s[0]]; }
      assert x[1..][1..] == s;
      assert ReplaceAll(x[1..], [TILDE, ONE], [SLASH]) == [ZERO] + p;
      var y := [TILDE] + ([ZERO] + p);
      assert y[..2] == [TILDE, ZERO] && y[2..] == p;
    } else if c == SLASH {
      assert x[..2] == [TILDE, ONE] && x[2..] == s;
      PlainUnescape(SLASH, p);
    } else {
      assert x[0] == c && x[1..] == s;
      assert ReplaceAll(x, [TILDE, ONE], [SLASH]) == [c] + p;
      PlainUnescape(c, p);
    }
  }

  lemma PlainUnescape(c: byte, p: Text)
    requires c != TILDE
    ensures ReplaceAll([c] + p, [TILDE, ZERO], [TILDE]) == [c] + ReplaceAll(p, [TILDE, ZERO], [TILDE])
  {
    var y := [c] + p;
    assert y[1..] == p;
    if |y| >= 2 { assert y[..2][0] == c; }
  }

  lemma {:induction false} UnescapeEscape(s: Text)
    ensures Unescape(Escape(s)) == s
  {
    if s != [] {
      assert s == [s[0]] + s[1..];
      EscapeStep(s[0], s[1..]);
      UnescapeStep(s[0], Escape(s[1..]));
      UnescapeEscape(s[1..]);
    }
  }

  lemma {:induction false} EscapeUnescape(s: Text)
    requires WellEscaped(s) && NoSlash(s)
    ensures Escape(Unescape(s)) == s
  {
    if s != [] {
      var k := if s[0] == TILDE then 2 else 1;
      var c := if s[0] != TILDE then s[0] else if s[1] == ZERO then TILDE else SLASH;
      var rest := s[k..];
      assert s == EscapeByte(c) + rest;
      forall i | 0 <= i < |rest| && rest[i] == TILDE
        ensures i + 1 < |rest| && (rest[i + 1] == ZERO || rest[i + 1] == ONE)
      {
        assert s[i + k] == TILDE;
      }
      EscapeUnescape(rest);
      UnescapeStep(c, rest);
      EscapeStep(c, Unescape(rest));
    }
  }

  // ----- printing and splitting

  /** `to_string`: a left fold over the reference tokens. */
  function Print(tokens: seq<Text>): Text {
    if tokens == [] then []
    else Print(tokens[..|tokens| - 1]) + [SLASH] + Escape(tokens[|tokens| - 1])
  }

  lemma PrintSnoc(tokens: seq<Text>, t: Text)
    ensures Print(tokens + [t]) == Print(tokens) + [SLASH] + Escape(t)
  {
    assert (tokens + [t])[..|tokens|] == tokens;
  }

  lemma {:induction false} PrintConcat(a: seq<Text>, b: seq<Text>)
    ensures Print(a + b) == Print(a) + Print(b)
  {
    if b == [] {
      assert a + b == a;
    } else {
      var front, last := b[..|b| - 1], b[|b| - 1];
      assert a + b == (a + front) + [last];
      assert b == front + [last];
      PrintSnoc(a + front, last);
      PrintSnoc(front, last);
      PrintConcat(a, front);
      hide *;
    }
  }

  lemma PrintCons(t: Text, tokens: seq<Text>)
    ensures Print([t] + tokens) == [SLASH] + Escape(t) + Print(tokens)
  {
    PrintConcat([t], tokens);
    PrintSnoc([], t);
    assert [] + [t] == [t];
  }

  /** Index of the first '/', or the length. */
  function FirstSlash(s: Text): (k: nat)
    ensures k <= |s| && NoSlash(s[..k])
    ensures k < |s| ==> s[k] == SLASH
  {
    if s == [] || s[0] == SLASH then 0
    else
      var k := FirstSlash(s[1..]);
      assert forall i :: 0 < i < k + 1 ==> s[i] == s[1..][i - 1];
      1 + k
  }

  lemma {:induction false} FirstSlashUnique(s: Text, k: nat)
    requires k <= |s| && NoSlash(s[..k]) && (k < |s| ==> s[k] == SLASH)
    ensures FirstSlash(s) == k
  {
    if k > 0 {
      assert s[..k][0] != SLASH;
      assert s[1..][..k - 1] == s[..k][1..];
      FirstSlashUnique(s[1..], k - 1);
    }
  }

  /** The tokens of the text after a leading '/'. */
  function SplitTokens(s: Text): Result<seq<Text>> {
    var k := FirstSlash(s);
    if !WellEscaped(s[..k]) then Err(DomainError)
    else if k == |s| then Ok([Unescape(s)])
    else
      var rest :- SplitTokens(s[k + 1..]);
      Ok([Unescape(s[..k])] + rest)
  }

  /** `split`, the constructor of a pointer from a string. */
  function Split(s: Text): Result<seq<Text>> {
    if s == [] then Ok([])
    else if s[0] != SLASH then Err(DomainError)
    else SplitTokens(s[1..])
  }

  lemma OccursTilde(s: Text, from: nat, pos: int)
    requires pos == NPOS || (from <= pos && OccursAt(s, [TILDE], pos))
    requires forall i: nat :: from <= i && (pos == NPOS || i < pos) ==> !OccursAt(s, [TILDE], i)
    ensures pos != NPOS ==> pos < |s| && s[pos] == TILDE
    ensures forall i: nat :: from <= i < |s| && (pos == NPOS || i < pos) ==> s[i] != TILDE
  {
    if pos != NPOS { assert s[pos..pos + 1][0] == s[pos]; }
    forall i: nat | from <= i < |s| && (pos == NPOS || i < pos) ensures s[i] != TILDE {
      assert s[i..i + 1] == [s[i]];
      assert !OccursAt(s, [TILDE], i);
    }
  }

  /** Whether the token is properly escaped, found by looking at every '~' in turn. */
  method CheckEscapes(token: Text) returns (ok: bool)
    ensures ok == WellEscaped(token)
  {
    var pos := Find(token, [TILDE], 0);
    OccursTilde(token, 0, pos);
    while pos != NPOS
      invariant pos == NPOS || (0 <= pos < |token| && token[pos] == TILDE)
      invariant forall i :: 0 <= i < |token| && token[i] == TILDE && (pos == NPOS || i < pos) ==>
        i + 1 < |token| && (token[i + 1] == ZERO || token[i + 1] == ONE)
      decreases if pos == NPOS then 0 else |token| - pos
    {
      if pos == |token| - 1 || (token[pos + 1] != ZERO && token[pos + 1] != ONE) {
        return false;
      }
      var next := Find(token, [TILDE], pos + 1);
      OccursTilde(token, pos + 1, next);
      pos := next;
    }
    return true;
  }

  /** What one round of the loop of `split` does with the token between two slashes. */
  lemma SplitStep(s: Text, start: nat, slash: nat, tokens: seq<Text>)
    requires start <= slash <= |s| && (slash < |s| ==> s[slash] == SLASH)
    requires forall i :: start <= i < slash ==> s[i] != SLASH
    ensures var token := s[start..slash];
            Prepend(tokens, SplitTokens(s[start..])) ==
              if !WellEscaped(token) then Err(DomainError)
              else if slash == |s| then Ok(tokens + [Unescape(token)])
              else Prepend(tokens + [Unescape(token)], SplitTokens(s[slash + 1..]))
  {
    var token, rest := s[start..slash], s[start..];
    assert rest[..slash - start] == token;
    FirstSlashUnique(rest, slash - start);
    if slash == |s| {
      assert token == rest;
    } else {
      assert rest[slash - start + 1..] == s[slash + 1..];
      if SplitTokens(s[slash + 1..]).Ok? {
        var r := SplitTokens(s[slash + 1..]).value;
        assert tokens + ([Unescape(token)] + r) == tokens + [Unescape(token)] + r;
      }
    }
  }

  method SplitPointer(s: Text) returns (r: Result<seq<Text>>)
    ensures r == Split(s)
  {
    var tokens: seq<Text> := [];
    if s == [] {
      return Ok(tokens);
    }
    if s[0] != SLASH {
      return Err(DomainError);
    }
    var start := 1;
    assert Prepend([], SplitTokens(s[1..])) == Split(s) by { PrependNothing(SplitTokens(s[1..])); }
    hide SplitTokens, Split, Unescape, WellEscaped, Prepend;
    while true
      invariant 1 <= start <= |s|
      invariant Split(s) == Prepend(tokens, SplitTokens(s[start..]))
      decreases |s| - start
    {
      var slash := start;
      while slash < |s| && s[slash] != SLASH
        invariant start <= slash <= |s|
        invariant forall i :: start <= i < slash ==> s[i] != SLASH
      {
        slash := slash + 1;
      }
      var token := s[start..slash];
      SplitStep(s, start, slash, tokens);
      var escaped := CheckEscapes(token);
      if !escaped {
        return Err(DomainError);
      }
      var plain := UnescapeToken(token);
      tokens := tokens + [plain];
      if slash == |s| {
        return Ok(tokens);
      }
      start := slash + 1;
    }
  }

  lemma {:induction false} SplitTokensPrint(t: Text, tokens: seq<Text>)
    ensures SplitTokens(Escape(t) + Print(tokens)) == Ok([t] + tokens)
    decreases |tokens|
  {
    var e := Escape(t);
    var s := e + Print(tokens);
    EscapeShape(t);
    UnescapeEscape(t);
    assert s[..|e|] == e;
    if tokens == [] {
      assert s == e;
      FirstSlashUnique(s, |e|);
      assert [t] + tokens == [t];
    } else {
      var head, tail := tokens[0], tokens[1..];
      assert tokens == [head] + tail;
      PrintCons(head, tail);
      assert s[|e|] == SLASH;
      FirstSlashUnique(s, |e|);
      assert s[|e| + 1..] == Escape(head) + Print(tail);
      SplitTokensPrint(head, tail);
    }
  }

  /** Parsing the printed form of any token list gives the list back. */
  lemma SplitPrint(tokens: seq<Text>)
    ensures Split(Print(tokens)) == Ok(tokens)
  {
    if tokens != [] {
      hide Print, Escape, SplitTokens;
      var head, tail := tokens[0], tokens[1..];
      assert tokens == [head] + tail;
      PrintCons(head, tail);
      var s := Print(tokens);
      assert s[1..] == Escape(head) + Print(tail);
      SplitTokensPrint(head, tail);
    }
  }

  lemma PrintUnescaped(h: Text, rest: seq<Text>)
    requires WellEscaped(h) && NoSlash(h)
    ensures Print([Unescape(h)] + rest) == [SLASH] + h + Print(rest)
  {
    EscapeUnescape(h);
    PrintCons(Unescape(h), rest);
  }

  lemma SplitTokensParts(s: Text)
    requires SplitTokens(s).Ok?
    ensures WellEscaped(s[..FirstSlash(s)])
    ensures FirstSlash(s) == |s| ==> SplitTokens(s) == Ok([Unescape(s)])
    ensures FirstSlash(s) < |s| ==> SplitTokens(s[FirstSlash(s) + 1..]).Ok?
    ensures FirstSlash(s) < |s| ==>
      SplitTokens(s).value == [Unescape(s[..FirstSlash(s)])] + SplitTokens(s[FirstSlash(s) + 1..]).value
  {
    hide Unescape, WellEscaped, FirstSlash;
  }

  lemma PrintEmpty()
    ensures Print([]) == []
  {
  }

  lemma {:induction false} PrintSplitTokens(s: Text)
    requires SplitTokens(s).Ok?
    ensures Print(SplitTokens(s).value) == [SLASH] + s
    decreases |s|
  {
    hide Print, Unescape, WellEscaped, SplitTokens, FirstSlash;
    var k := FirstSlash(s);
    SplitTokensParts(s);
    if k == |s| {
      assert s[..k] == s;
      PrintUnescaped(s, []);
      assert [Unescape(s)] + [] == SplitTokens(s).value;
      PrintEmpty();
      assert [SLASH] + s + [] == [SLASH] + s;
    } else {
      var rest := SplitTokens(s[k + 1..]).value;
      PrintSplitTokens(s[k + 1..]);
      PrintUnescaped(s[..k], rest);
      assert [SLASH] + s[..k] + ([SLASH] + s[k + 1..]) == [SLASH] + s;
    }
  }

  /** Printing the tokens of any string that parses gives the string back. */
  lemma PrintSplit(s: Text)
    requires Split(s).Ok?
    ensures Print(Split(s).value) == s
  {
    if s != [] {
      PrintSplitTokens(s[1..]);
      assert s == [SLASH] + s[1..];
    }
  }

  lemma PrintInjective(a: seq<Text>, b: seq<Text>)
    requires Print(a) == Print(b)
    ensures a == b
  {
    SplitPrint(a);
    SplitPrint(b);
  }

  /** A decimal index needs no escaping. */
  lemma {:induction false} EscapeDigits(s: Text)
    requires AllDigits(s)
    ensures Escape(s) == s
  {
    if s != [] {
      assert s == [s[0]] + s[1..];
      EscapeStep(s[0], s[1..]);
      EscapeDigits(s[1..]);
    }
  }
}
