/**
 The layout of printed text: where lines break, and how far each is indented.
 */
module Layout {
  import opened Bytes
  import opened Json
  import opened Printer

  /** Text without a line break, or the place of one inside `depth` containers. */
  datatype Piece = Fixed(text: Text) | Break(depth: nat)

  /** A printed value that stands inside `depth` containers. */
  function Pieces(j: Json, style: Style, depth: nat): seq<Piece>
    decreases j, 1, 0
  {
    match j
    case Array(es) =>
      if es == [] then [Fixed([OPEN_BRACKET, CLOSE_BRACKET])]
      else [Fixed([OPEN_BRACKET])] + ElemPieces(j, 0, style, depth + 1) + [Break(depth), Fixed([CLOSE_BRACKET])]
    case Object(m) =>
      if |m| == 0 then [Fixed([OPEN_BRACE, CLOSE_BRACE])]
      else
        [Fixed([OPEN_BRACE])] + MemberPieces(j, SortedKeys(m.Keys), 0, style, depth + 1) +
        [Break(depth), Fixed([CLOSE_BRACE])]
    case _ => [Fixed(Dump(j, style, 0))]
  }

  /** Each element is on a line of its own; a comma ends the line before. */
  function ElemPieces(j: Json, i: nat, style: Style, depth: nat): seq<Piece>
    requires j.Array? && i <= |j.elems|
    decreases j, 0, |j.elems| - i
  {
    if i == |j.elems| then []
    else
      (if i == 0 then [] else [Fixed([COMMA])]) + [Break(depth)] + Pieces(j.elems[i], style, depth) +
      ElemPieces(j, i + 1, style, depth)
  }

  function MemberPieces(j: Json, ks: seq<Text>, i: nat, style: Style, depth: nat): seq<Piece>
    requires j.Object? && i <= |ks| && forall k :: k in ks ==> k in j.members
    decreases j, 0, |ks| - i
  {
    if i == |ks| then []
    else
      (if i == 0 then [] else [Fixed([COMMA])]) + [Break(depth), Fixed(KeyText(style, ks[i]))] +
      Pieces(j.members[ks[i]], style, depth) + MemberPieces(j, ks, i + 1, style, depth)
  }

  /** The indentation inside `depth` containers, in an `unsigned int`. */
  function Indent(style: Style, depth: nat): uint32 {
    if style.pretty then depth * style.step % TWO_TO_THE_32 else 0
  }

  function PieceText(p: Piece, style: Style): Text {
    match p
    case Fixed(text) => text
    case Break(depth) => if style.pretty then [NEWLINE] + seq(Indent(style, depth), _ => SPACE) else []
  }

  function Render(ps: seq<Piece>, style: Style): Text {
    if ps == [] then [] else PieceText(ps[0], style) + Render(ps[1..], style)
  }

  lemma {:induction false} RenderConcat(a: seq<Piece>, b: seq<Piece>, style: Style)
    ensures Render(a + b, style) == Render(a, style) + Render(b, style)
  {
    hide PieceText;
    if a == [] {
      assert a + b == b;
    } else {
      assert (a + b)[1..] == a[1..] + b;
      RenderConcat(a[1..], b, style);
    }
  }

  lemma RenderOne(p: Piece, style: Style)
    ensures Render([p], style) == PieceText(p, style)
  {
  }

  lemma Deepen(style: Style, depth: nat)
    ensures Deeper(style, Indent(style, depth)) == Indent(style, depth + 1)
  {
    if style.pretty {
      var x: int := depth * style.step;
      assert (depth + 1) * style.step == x + style.step;
      Wrap(x, style.step);
    }
  }

  lemma Wrap(x: int, y: int)
    ensures (x % TWO_TO_THE_32 + y) % TWO_TO_THE_32 == (x + y) % TWO_TO_THE_32
  {
  }

  /** The comma, if any, the line break and the indentation before element number `i`. */
  lemma SeparatorText(style: Style, i: nat, depth: nat)
    ensures var front := (if i == 0 then [] else [Fixed([COMMA])]) + [Break(depth)];
      Render(front, style) == (if i == 0 then LineBreak(style) else []) + Separator(style, i, Indent(style, depth))
  {
    hide Indent;
    RenderOne(Break(depth), style);
    RenderOne(Fixed([COMMA]), style);
    if i > 0 {
      RenderConcat([Fixed([COMMA])], [Break(depth)], style);
    }
    if !style.pretty { assert Indent(style, depth) == 0 by { CompactIndent(style, depth); } }
  }

  lemma CompactIndent(style: Style, depth: nat)
    requires !style.pretty
    ensures Indent(style, depth) == 0
  {
  }

  lemma ClosingText(style: Style, depth: nat, close: byte)
    ensures Render([Break(depth), Fixed([close])], style) == Closing(style, Indent(style, depth), close)
  {
    hide Indent;
    RenderOne(Break(depth), style);
    RenderOne(Fixed([close]), style);
    RenderConcat([Break(depth)], [Fixed([close])], style);
    if !style.pretty { CompactIndent(style, depth); }
  }

  /** Line breaks stand exactly where the pieces say: the line of an element or member
      inside `depth` containers begins with `depth` times the step of spaces, modulo 2^32,
      and the line of a closing bracket with one step less. */
  lemma {:induction false} DumpIsLayout(j: Json, style: Style, depth: nat)
    ensures Dump(j, style, Indent(style, depth)) == Render(Pieces(j, style, depth), style)
    decreases j, 1, 0
  {
    hide Indent, Dump, Separator, Closing, ElemPieces, MemberPieces, Render, SortedKeys;
    var indent := Indent(style, depth);
    match j
    case Array(es) =>
      hide Pieces;
      ElemsAreLayout(j, 0, style, depth + 1);
      ArrayLayout(j, style, depth);
    case Object(m) =>
      hide Pieces;
      MembersAreLayout(j, SortedKeys(m.Keys), 0, style, depth + 1);
      ObjectLayout(j, style, depth);
    case _ =>
      DumpScalar(j, style, indent);
      RenderOne(Fixed(Dump(j, style, 0)), style);
  }

  lemma ArrayLayout(j: Json, style: Style, depth: nat)
    requires j.Array?
    requires (if j.elems != [] then LineBreak(style) else []) + DumpElems(j, 0, style, Indent(style, depth + 1)) ==
      Render(ElemPieces(j, 0, style, depth + 1), style)
    ensures Dump(j, style, Indent(style, depth)) == Render(Pieces(j, style, depth), style)
  {
    hide Indent, Dump, Separator, Closing, ElemPieces, Render, DumpElems, LineBreak;
    Deepen(style, depth);
    DumpArray(j, style, Indent(style, depth));
    if j.elems == [] {
      RenderOne(Fixed([OPEN_BRACKET, CLOSE_BRACKET]), style);
    } else {
      Bracketed(OPEN_BRACKET, ElemPieces(j, 0, style, depth + 1), depth, CLOSE_BRACKET, style);
    }
  }

  lemma ObjectLayout(j: Json, style: Style, depth: nat)
    requires j.Object?
    requires var ks := SortedKeys(j.members.Keys);
      (if ks != [] then LineBreak(style) else []) + DumpMembers(j, ks, 0, style, Indent(style, depth + 1)) ==
      Render(MemberPieces(j, ks, 0, style, depth + 1), style)
    ensures Dump(j, style, Indent(style, depth)) == Render(Pieces(j, style, depth), style)
  {
    hide Indent, Dump, Separator, Closing, MemberPieces, Render, DumpMembers, LineBreak, SortedKeys;
    Deepen(style, depth);
    DumpObject(j, style, Indent(style, depth));
    var ks := SortedKeys(j.members.Keys);
    assert |ks| == |j.members.Keys| == |j.members|;
    if ks == [] {
      RenderOne(Fixed([OPEN_BRACE, CLOSE_BRACE]), style);
    } else {
      Bracketed(OPEN_BRACE, MemberPieces(j, ks, 0, style, depth + 1), depth, CLOSE_BRACE, style);
    }
  }

  lemma DumpScalar(j: Json, style: Style, indent: uint32)
    requires IsPrimitive(j)
    ensures Dump(j, style, indent) == Dump(j, style, 0)
  {
  }

  lemma Bracketed(open: byte, inner: seq<Piece>, depth: nat, close: byte, style: Style)
    ensures Render([Fixed([open])] + inner + [Break(depth), Fixed([close])], style) ==
      [open] + Render(inner, style) + Closing(style, Indent(style, depth), close)
  {
    hide Render, Indent, Closing;
    RenderConcat([Fixed([open])] + inner, [Break(depth), Fixed([close])], style);
    RenderConcat([Fixed([open])], inner, style);
    RenderOne(Fixed([open]), style);
    ClosingText(style, depth, close);
  }

  lemma {:induction false} ElemsAreLayout(j: Json, i: nat, style: Style, depth: nat)
    requires j.Array? && i <= |j.elems|
    ensures (if i == 0 && j.elems != [] then LineBreak(style) else []) + DumpElems(j, i, style, Indent(style, depth)) ==
      Render(ElemPieces(j, i, style, depth), style)
    decreases j, 0, |j.elems| - i
  {
    hide Indent, Dump, Separator, Pieces, Render, LineBreak;
    if i == |j.elems| {
      DumpElemsEnd(j, style, Indent(style, depth));
      RenderNothing(style);
    } else {
      DumpElem(j, i, style, Indent(style, depth));
      DumpIsLayout(j.elems[i], style, depth);
      ElemsAreLayout(j, i + 1, style, depth);
      SeparatorText(style, i, depth);
      var front := (if i == 0 then [] else [Fixed([COMMA])]) + [Break(depth)];
      var x, rest := Pieces(j.elems[i], style, depth), ElemPieces(j, i + 1, style, depth);
      RenderConcat(front + x, rest, style);
      RenderConcat(front, x, style);
    }
  }

  lemma RenderNothing(style: Style)
    ensures Render([], style) == []
  {
  }

  lemma {:induction false} MembersAreLayout(j: Json, ks: seq<Text>, i: nat, style: Style, depth: nat)
    requires j.Object? && i <= |ks| && forall k :: k in ks ==> k in j.members
    ensures (if i == 0 && ks != [] then LineBreak(style) else []) + DumpMembers(j, ks, i, style, Indent(style, depth)) ==
      Render(MemberPieces(j, ks, i, style, depth), style)
    decreases j, 0, |ks| - i
  {
    hide Indent, Dump, Separator, Pieces, Render, LineBreak, KeyText;
    if i == |ks| {
      DumpMembersEnd(j, ks, style, Indent(style, depth));
      RenderNothing(style);
    } else {
      var x := j.members[ks[i]];
      DumpMember(j, ks, i, style, Indent(style, depth));
      DumpIsLayout(x, style, depth);
      MembersAreLayout(j, ks, i + 1, style, depth);
      SeparatorText(style, i, depth);
      var front, key := (if i == 0 then [] else [Fixed([COMMA])]) + [Break(depth)], Fixed(KeyText(style, ks[i]));
      var ps, rest := Pieces(x, style, depth), MemberPieces(j, ks, i + 1, style, depth);
      assert MemberPieces(j, ks, i, style, depth) == front + ([key] + ps) + rest;
      RenderConcat(front + ([key] + ps), rest, style);
      RenderConcat(front, [key] + ps, style);
      RenderConcat([key], ps, style);
      RenderOne(key, style);
    }
  }
}
