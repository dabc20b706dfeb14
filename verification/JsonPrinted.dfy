/** The canonical text, written out member by member. */
module JsonPrinted {
  import opened Numerals
  import opened Json
  import opened JsonText
  import opened CanonicalJson
  import Orders

  // ---- the text of a value -----------------------------------------------------------------

  /** A value as text, with what stands between items and after a key. */
  function Printed(v: Value, comma: string, colon: string, ascii: bool): string {
    match v
    case Null => "null"
    case Bool(b) => if b then "true" else "false"
    case Int(n) => IntText(n)
    case Float(lex) => lex
    case Str(s) => InQuotes(s, ascii)
    case Arr(items) => "[" + PrintedItems(items, comma, colon, ascii) + "]"
    case Obj(fields) => "{" + PrintedMembers(fields, comma, colon, ascii) + "}"
  }

  function InQuotes(s: string, ascii: bool): string { "\"" + Escape(s, ascii) + "\"" }

  function PrintedItems(items: seq<Value>, comma: string, colon: string, ascii: bool): string {
    if items == [] then ""
    else if |items| == 1 then Printed(items[0], comma, colon, ascii)
    else Printed(items[0], comma, colon, ascii) + comma + PrintedItems(items[1..], comma, colon, ascii)
  }

  function PrintedMembers(fields: seq<Member>, comma: string, colon: string, ascii: bool): string {
    if fields == [] then ""
    else
      assert fields[0].val < fields[0];
      var first := InQuotes(fields[0].key, ascii) + colon + Printed(fields[0].val, comma, colon, ascii);
      if |fields| == 1 then first else first + comma + PrintedMembers(fields[1..], comma, colon, ascii)
  }

  /** The text of some tokens, spread. */
  function TextOf(ts: seq<Token>, spaced: bool, ascii: bool): string { Render(Spread(ts, spaced), ascii) }

  lemma {:induction false} TextJoins(a: seq<Token>, b: seq<Token>, spaced: bool, ascii: bool)
    ensures TextOf(a + b, spaced, ascii) == TextOf(a, spaced, ascii) + TextOf(b, spaced, ascii)
  {
    hide TextOf, TokenWithSpace;
    if a == [] {
      assert a + b == b;
      NoTokens(spaced, ascii);
    } else {
      assert (a + b)[0] == a[0] && (a + b)[1..] == a[1..] + b;
      TextJoins(a[1..], b, spaced, ascii);
      OneToken(a, spaced, ascii);
      OneToken(a + b, spaced, ascii);
    }
  }

  lemma NoTokens(spaced: bool, ascii: bool)
    ensures TextOf([], spaced, ascii) == ""
  {
  }

  function TokenWithSpace(t: Token, spaced: bool, ascii: bool): string {
    TokenText(t, ascii) + (if spaced && (t == Comma || t == Colon) then " " else "")
  }

  lemma RenderCons(p: Piece, ps: seq<Piece>, ascii: bool)
    ensures Render([p] + ps, ascii) == PieceText(p, ascii) + Render(ps, ascii)
  {
    assert ([p] + ps)[1..] == ps;
  }

  lemma OneToken(ts: seq<Token>, spaced: bool, ascii: bool)
    requires ts != []
    ensures TextOf(ts, spaced, ascii) == TokenWithSpace(ts[0], spaced, ascii) + TextOf(ts[1..], spaced, ascii)
  {
    hide Render, TokenText;
    var rest := Spread(ts[1..], spaced);
    if spaced && ts[0] in {Comma, Colon} {
      RenderCons(Space(" "), rest, ascii);
      RenderCons(Tok(ts[0]), [Space(" ")] + rest, ascii);
      assert [Tok(ts[0]), Space(" ")] + rest == [Tok(ts[0])] + ([Space(" ")] + rest);
      assert TokenText(ts[0], ascii) + (" " + Render(rest, ascii)) == TokenText(ts[0], ascii) + " " + Render(rest, ascii);
    } else {
      RenderCons(Tok(ts[0]), rest, ascii);
      assert TokenText(ts[0], ascii) + "" == TokenText(ts[0], ascii);
    }
  }

  lemma SingleToken(t: Token, spaced: bool, ascii: bool)
    ensures TextOf([t], spaced, ascii) == TokenWithSpace(t, spaced, ascii)
  {
    hide TextOf;
    OneToken([t], spaced, ascii);
    assert [t][1..] == [];
    NoTokens(spaced, ascii);
  }

  function CommaText(spaced: bool): string { if spaced then ", " else "," }

  function ColonText(spaced: bool): string { if spaced then ": " else ":" }

  lemma Wrapped(open: Token, body: seq<Token>, close: Token, spaced: bool, ascii: bool)
    requires open != Comma && open != Colon && close != Comma && close != Colon
    ensures TextOf([open] + body + [close], spaced, ascii) == TokenText(open, ascii) + TextOf(body, spaced, ascii) + TokenText(close, ascii)
  {
    hide TextOf, TokenText;
    TextJoins([open] + body, [close], spaced, ascii);
    TextJoins([open], body, spaced, ascii);
    SingleToken(open, spaced, ascii);
    SingleToken(close, spaced, ascii);
  }

  lemma WithComma(first: seq<Token>, rest: seq<Token>, spaced: bool, ascii: bool)
    ensures TextOf(first + [Comma] + rest, spaced, ascii)
         == TextOf(first, spaced, ascii) + CommaText(spaced) + TextOf(rest, spaced, ascii)
  {
    hide TextOf;
    TextJoins(first + [Comma], rest, spaced, ascii);
    TextJoins(first, [Comma], spaced, ascii);
    SingleToken(Comma, spaced, ascii);
  }

  lemma {:induction false} ValueText(v: Value, spaced: bool, ascii: bool)
    ensures TextOf(ValueTokens(v), spaced, ascii) == Printed(v, CommaText(spaced), ColonText(spaced), ascii)
    decreases v, 1
  {
    hide TextOf, ItemTokens, MemberTokens, PrintedItems, PrintedMembers, CommaText, ColonText;
    match v
    case Arr(items) =>
      ItemsText(items, spaced, ascii);
      Wrapped(LBrack, ItemTokens(items), RBrack, spaced, ascii);
    case Obj(fields) =>
      MembersText(fields, spaced, ascii);
      Wrapped(LBrace, MemberTokens(fields), RBrace, spaced, ascii);
    case _ =>
      SingleToken(ValueTokens(v)[0], spaced, ascii);
      assert TokenText(ValueTokens(v)[0], ascii) + "" == TokenText(ValueTokens(v)[0], ascii);
  }

  lemma {:induction false} ItemsText(items: seq<Value>, spaced: bool, ascii: bool)
    ensures TextOf(ItemTokens(items), spaced, ascii) == PrintedItems(items, CommaText(spaced), ColonText(spaced), ascii)
    decreases items, 0
  {
    hide TextOf, ValueTokens, Printed, CommaText, ColonText;
    if items == [] {
      NoTokens(spaced, ascii);
    } else {
      ValueText(items[0], spaced, ascii);
      if |items| == 1 {
      } else {
        ItemsText(items[1..], spaced, ascii);
        WithComma(ValueTokens(items[0]), ItemTokens(items[1..]), spaced, ascii);
      }
    }
  }

  lemma {:induction false} MembersText(fields: seq<Member>, spaced: bool, ascii: bool)
    ensures TextOf(MemberTokens(fields), spaced, ascii) == PrintedMembers(fields, CommaText(spaced), ColonText(spaced), ascii)
    decreases fields, 0
  {
    hide TextOf, ValueTokens, Printed, InQuotes, CommaText, ColonText;
    if fields == [] {
      NoTokens(spaced, ascii);
    } else {
      assert fields[0].val < fields[0];
      ValueText(fields[0].val, spaced, ascii);
      HeadText(fields[0], spaced, ascii);
      if |fields| == 1 {
      } else {
        MembersText(fields[1..], spaced, ascii);
        WithComma([Quoted(fields[0].key), Colon] + ValueTokens(fields[0].val), MemberTokens(fields[1..]), spaced, ascii);
      }
    }
  }

  lemma HeadText(m: Member, spaced: bool, ascii: bool)
    ensures TextOf([Quoted(m.key), Colon] + ValueTokens(m.val), spaced, ascii)
         == InQuotes(m.key, ascii) + ColonText(spaced) + TextOf(ValueTokens(m.val), spaced, ascii)
  {
    hide TextOf, ColonText, InQuotes, ValueTokens;
    TextJoins([Quoted(m.key), Colon], ValueTokens(m.val), spaced, ascii);
    TextJoins([Quoted(m.key)], [Colon], spaced, ascii);
    assert [Quoted(m.key)] + [Colon] == [Quoted(m.key), Colon];
    KeyAndColon(m.key, spaced, ascii);
  }

  lemma KeyAndColon(key: string, spaced: bool, ascii: bool)
    ensures TextOf([Quoted(key)], spaced, ascii) == InQuotes(key, ascii)
    ensures TextOf([Colon], spaced, ascii) == ColonText(spaced)
  {
    hide TextOf;
    SingleToken(Quoted(key), spaced, ascii);
    SingleToken(Colon, spaced, ascii);
  }

  // ---- the order of keys ----------------------------------------------------------------------

  /** In every object, at every depth, the keys stand in code-point order. */
  predicate KeysAscend(v: Value) {
    match v
    case Arr(items) => forall i | 0 <= i < |items| :: KeysAscend(items[i])
    case Obj(fields) =>
      && (forall i, j | 0 <= i < j < |fields| :: Orders.Leq(fields[i].key, fields[j].key))
      && forall i | 0 <= i < |fields| :: KeysAscend(fields[i].val)
    case _ => true
  }

  lemma {:induction false} NormAscends(v: Value)
    ensures KeysAscend(Norm(v))
  {
    match v
    case Arr(items) =>
      forall i | 0 <= i < |items| ensures KeysAscend(Norm(items[i])) { NormAscends(items[i]); }
    case Obj(fields) =>
      var t := NormFields(fields);
      var sorted := Orders.SortBy(KeyLeq, t);
      KeyLeqIsOrder();
      Orders.SortBySorted(KeyLeq, t);
      Orders.SortByMultiset(KeyLeq, t);
      Orders.SameElements(t, sorted);
      forall i, j | 0 <= i < j < |sorted| ensures Orders.Leq(sorted[i].key, sorted[j].key) {
        assert KeyLeq(sorted[i], sorted[j]);
      }
      forall i | 0 <= i < |sorted| ensures KeysAscend(sorted[i].val) {
        assert sorted[i] in t;
        var k :| 0 <= k < |t| && t[k] == sorted[i];
        NormAscends(fields[k].val);
      }
    case _ =>
  }

  /** `json.dumps(v, sort_keys=True, …)` is the document with its keys in code-point order, printed with
      nothing but the separators between its parts: `,` and `:`, or `, ` and `: `. */
  lemma DumpsIsPrinted(v: Value, spaced: bool, ascii: bool)
    requires WellFormed(v)
    ensures Dumps(v, spaced, ascii) == Printed(Norm(v), if spaced then ", " else ",", if spaced then ": " else ":", ascii)
    ensures KeysAscend(Norm(v)) && SameJson(v, Norm(v))
  {
    ValueText(Norm(v), spaced, ascii);
    NormAscends(v);
    NormIsSame(v);
  }

  // ---- the indented file ---------------------------------------------------------------------

  function NewLine(pad: string): string { "\n" + pad }

  /** A value over several lines, two more spaces in at every level. */
  function PrintedOver(v: Value, pad: string, ascii: bool): string {
    match v
    case Arr(items) =>
      if items == [] then "[]"
      else "[" + NewLine(pad + "  ") + ItemsOver(items, pad + "  ", ascii) + NewLine(pad) + "]"
    case Obj(fields) =>
      if fields == [] then "{}"
      else "{" + NewLine(pad + "  ") + MembersOver(fields, pad + "  ", ascii) + NewLine(pad) + "}"
    case _ => Printed(v, ",", ": ", ascii)
  }

  function ItemsOver(items: seq<Value>, pad: string, ascii: bool): string {
    if items == [] then ""
    else if |items| == 1 then PrintedOver(items[0], pad, ascii)
    else PrintedOver(items[0], pad, ascii) + "," + NewLine(pad) + ItemsOver(items[1..], pad, ascii)
  }

  function MembersOver(fields: seq<Member>, pad: string, ascii: bool): string {
    if fields == [] then ""
    else
      assert fields[0].val < fields[0];
      var first := InQuotes(fields[0].key, ascii) + ": " + PrintedOver(fields[0].val, pad, ascii);
      if |fields| == 1 then first else first + "," + NewLine(pad) + MembersOver(fields[1..], pad, ascii)
  }

  lemma {:induction false} RenderJoins(a: seq<Piece>, b: seq<Piece>, ascii: bool)
    ensures Render(a + b, ascii) == Render(a, ascii) + Render(b, ascii)
  {
    if a == [] {
      assert a + b == b;
    } else {
      RenderJoins(a[1..], b, ascii);
      assert (a + b)[0] == a[0] && (a + b)[1..] == a[1..] + b;
    }
  }

  lemma RenderTwo(p: Piece, q: Piece, ascii: bool)
    ensures Render([p, q], ascii) == PieceText(p, ascii) + PieceText(q, ascii)
  {
    RenderOne(q, ascii);
    RenderCons(p, [q], ascii);
    assert [p] + [q] == [p, q];
  }

  lemma RenderOne(p: Piece, ascii: bool)
    ensures Render([p], ascii) == PieceText(p, ascii)
  {
    assert [p][1..] == [];
  }

  lemma Bracketed(open: Token, body: seq<Piece>, close: Token, pad: string, ascii: bool)
    ensures Render([Tok(open), Line(pad + "  ")] + body + [Line(pad), Tok(close)], ascii)
         == TokenText(open, ascii) + NewLine(pad + "  ") + Render(body, ascii) + NewLine(pad) + TokenText(close, ascii)
  {
    hide Render, TokenText;
    var head, tail := [Tok(open), Line(pad + "  ")], [Line(pad), Tok(close)];
    RenderJoins(head + body, tail, ascii);
    RenderJoins(head, body, ascii);
    RenderTwo(Tok(open), Line(pad + "  "), ascii);
    RenderTwo(Line(pad), Tok(close), ascii);
  }

  lemma Next(first: seq<Piece>, rest: seq<Piece>, pad: string, ascii: bool)
    ensures Render(first + [Tok(Comma), Line(pad)] + rest, ascii)
         == Render(first, ascii) + "," + NewLine(pad) + Render(rest, ascii)
  {
    hide Render;
    RenderJoins(first + [Tok(Comma), Line(pad)], rest, ascii);
    RenderJoins(first, [Tok(Comma), Line(pad)], ascii);
    RenderTwo(Tok(Comma), Line(pad), ascii);
  }

  lemma KeyBefore(key: string, value: seq<Piece>, ascii: bool)
    ensures Render([Tok(Quoted(key)), Tok(Colon), Space(" ")] + value, ascii) == InQuotes(key, ascii) + ": " + Render(value, ascii)
  {
    hide Render;
    var head := [Tok(Quoted(key)), Tok(Colon), Space(" ")];
    RenderJoins(head, value, ascii);
    RenderTwo(Tok(Colon), Space(" "), ascii);
    RenderCons(Tok(Quoted(key)), [Tok(Colon), Space(" ")], ascii);
    assert [Tok(Quoted(key))] + [Tok(Colon), Space(" ")] == head && ":" + " " == ": ";
  }

  lemma {:induction false} PrettyText(v: Value, pad: string, ascii: bool)
    ensures Render(Pretty(v, pad), ascii) == PrintedOver(v, pad, ascii)
    decreases v, 1
  {
    hide Render, PrettyItems, PrettyMembers, ItemsOver, MembersOver, NewLine, Line;
    match v
    case Arr(items) =>
      if items == [] {
        RenderTwo(Tok(LBrack), Tok(RBrack), ascii);
      } else {
        PrettyItemsText(items, pad + "  ", ascii);
        Bracketed(LBrack, PrettyItems(items, pad + "  "), RBrack, pad, ascii);
      }
    case Obj(fields) =>
      if fields == [] {
        RenderTwo(Tok(LBrace), Tok(RBrace), ascii);
      } else {
        PrettyMembersText(fields, pad + "  ", ascii);
        Bracketed(LBrace, PrettyMembers(fields, pad + "  "), RBrace, pad, ascii);
      }
    case _ =>
      RenderOne(Tok(ValueTokens(v)[0]), ascii);
  }

  lemma {:induction false} PrettyItemsText(items: seq<Value>, pad: string, ascii: bool)
    requires items != []
    ensures Render(PrettyItems(items, pad), ascii) == ItemsOver(items, pad, ascii)
    decreases items, 0
  {
    hide Render, Pretty, PrintedOver, NewLine, Line;
    PrettyText(items[0], pad, ascii);
    if |items| > 1 {
      PrettyItemsText(items[1..], pad, ascii);
      Next(Pretty(items[0], pad), PrettyItems(items[1..], pad), pad, ascii);
    }
  }

  lemma {:induction false} PrettyMembersText(fields: seq<Member>, pad: string, ascii: bool)
    requires fields != []
    ensures Render(PrettyMembers(fields, pad), ascii) == MembersOver(fields, pad, ascii)
    decreases fields, 0
  {
    hide Render, Pretty, PrintedOver, NewLine, Line, InQuotes;
    assert fields[0].val < fields[0];
    PrettyText(fields[0].val, pad, ascii);
    KeyBefore(fields[0].key, Pretty(fields[0].val, pad), ascii);
    if |fields| > 1 {
      PrettyMembersText(fields[1..], pad, ascii);
      Next([Tok(Quoted(fields[0].key)), Tok(Colon), Space(" ")] + Pretty(fields[0].val, pad), PrettyMembers(fields[1..], pad), pad, ascii);
    }
  }

  /** The indented text is the same document with its keys ascending, over several lines, and a new line. */
  lemma DumpsPrettyIsPrinted(v: Value, ascii: bool)
    requires WellFormed(v)
    ensures DumpsPretty(v, ascii) == PrintedOver(Norm(v), "", ascii) + "\n"
    ensures KeysAscend(Norm(v)) && SameJson(v, Norm(v))
  {
    hide Render, Pretty, PrintedOver;
    PrettyText(Norm(v), "", ascii);
    RenderJoins(Pretty(Norm(v), ""), [Space("\n")], ascii);
    RenderOne(Space("\n"), ascii);
    NormAscends(v);
    NormIsSame(v);
  }

  // ---- the escapes -----------------------------------------------------------------------------

  /** Only quotes, backslashes and control characters are escaped, and with `ensure_ascii` everything
      outside printable ASCII; two quotes and five control characters by a letter, the others in four
      hexadecimal digits. */
  lemma EscapesAre(c: char)
    ensures EscapeChar(c, false) == [c] <==> c != '"' && c != '\\' && 0x20 <= c as int
    ensures EscapeChar(c, true) == [c] <==> c != '"' && c != '\\' && 0x20 <= c as int <= 0x7e
    ensures |EscapeChar(c, false)| == 2 <==> c as int in {0x22, 0x5c, 8, 9, 10, 12, 13}
  {
    hide Hex4;
  }

  lemma HexIsLowerCase(d: nat)
    requires d < 16
    ensures HexDigit(d) == "0123456789abcdef"[d]
  {
  }
}
