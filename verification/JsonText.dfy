/** JSON text: what `json.dumps` writes and `json.loads` reads.

    A text is a run of pieces, each a token or whitespace, so the compact form that is hashed, the
    indented form that is written to disk and any other layout are all the same kind of thing. */
module JsonText {
  import opened Options
  import opened Numerals

  datatype Token =
    | LBrace | RBrace | LBrack | RBrack | Comma | Colon
    | Word(w: string)
    | Quoted(s: string)

  datatype Piece = Tok(t: Token) | Space(w: string)

  predicate Blank(c: char) { c in {' ', '\n', '\r', '\t'} }

  // ---- string escapes --------------------------------------------------------

  function HexDigit(d: nat): char
    requires d < 16
  {
    if d < 10 then (d + '0' as int) as char else (d - 10 + 'a' as int) as char
  }

  function HexValue(c: char): Option<nat> {
    if '0' <= c <= '9' then Some(c as int - '0' as int)
    else if 'a' <= c <= 'f' then Some(c as int - 'a' as int + 10)
    else if 'A' <= c <= 'F' then Some(c as int - 'A' as int + 10)
    else None
  }

  function Hex4(n: nat): (r: string)
    requires n < 0x1_0000
    ensures |r| == 4
  {
    [HexDigit(n / 4096), HexDigit(n / 256 % 16), HexDigit(n / 16 % 16), HexDigit(n % 16)]
  }

  /** The value of the four hex digits `s` starts with. */
  function ReadHex4(s: string): (r: Option<nat>)
    ensures r.Some? ==> |s| >= 4 && r.value < 0x1_0000
  {
    if |s| < 4 then None
    else
      match (HexValue(s[0]), HexValue(s[1]), HexValue(s[2]), HexValue(s[3]))
      case (Some(a), Some(b), Some(c), Some(d)) =>
        if a < 16 && b < 16 && c < 16 && d < 16 then Some(a * 4096 + b * 256 + c * 16 + d) else None
      case _ => None
  }

  lemma HexDigitValue(d: nat)
    requires d < 16
    ensures HexValue(HexDigit(d)) == Some(d)
  {
  }

  lemma HexDigitsAddUp(n: nat)
    requires n < 0x1_0000
    ensures n / 4096 < 16
    ensures n / 4096 * 4096 + n / 256 % 16 * 256 + n / 16 % 16 * 16 + n % 16 == n
  {
    var m, k := n / 16, n / 256;
    assert n == m * 16 + n % 16;
    assert m == k * 16 + m % 16;
    assert k == k / 16 * 16 + k % 16;
    assert k / 16 == n / 4096;
  }

  lemma HexRoundTrip(n: nat, rest: string)
    requires n < 0x1_0000
    ensures ReadHex4(Hex4(n) + rest) == Some(n)
  {
    var a, b, c, d := n / 4096, n / 256 % 16, n / 16 % 16, n % 16;
    HexDigitsAddUp(n);
    HexDigitValue(a);
    HexDigitValue(b);
    HexDigitValue(c);
    HexDigitValue(d);
    var s := Hex4(n) + rest;
    assert s[0] == HexDigit(a) && s[1] == HexDigit(b) && s[2] == HexDigit(c) && s[3] == HexDigit(d);
  }

  /** One character as `json.dumps` writes it; `ascii` is `ensure_ascii`. */
  function EscapeChar(c: char, ascii: bool): string {
    var n := c as int;
    if c == '"' then "\\\""
    else if c == '\\' then "\\\\"
    else if c == '\n' then "\\n"
    else if c == '\r' then "\\r"
    else if c == '\t' then "\\t"
    else if n == 8 then "\\b"
    else if n == 12 then "\\f"
    else if n < 0x20 || (ascii && 0x7e < n < 0x1_0000) then "\\u" + Hex4(n)
    else if ascii && n >= 0x1_0000 then
      "\\u" + Hex4(0xD800 + (n - 0x1_0000) / 0x400) + "\\u" + Hex4(0xDC00 + (n - 0x1_0000) % 0x400)
    else [c]
  }

  function Escape(s: string, ascii: bool): string {
    if s == "" then "" else EscapeChar(s[0], ascii) + Escape(s[1..], ascii)
  }

  /** The character an escape sequence at the start of `t` stands for, and its length. */
  function ReadEscape(t: string): (r: Option<(char, nat)>)
    requires t != ""
    ensures r.Some? ==> 0 < r.value.1 <= |t|
  {
    if |t| < 2 then None
    else if t[1] in {'"', '\\', '/'} then Some((t[1], 2))
    else if t[1] == 'n' then Some(('\n', 2))
    else if t[1] == 'r' then Some(('\r', 2))
    else if t[1] == 't' then Some(('\t', 2))
    else if t[1] == 'b' then Some((8 as char, 2))
    else if t[1] == 'f' then Some((12 as char, 2))
    else if t[1] != 'u' then None
    else
      match ReadHex4(t[2..])
      case None => None
      case Some(n) =>
        if n < 0xD800 || 0xE000 <= n then Some((n as char, 6))
        else if n < 0xDC00 && |t| >= 8 && t[6] == '\\' && t[7] == 'u' then
          match ReadHex4(t[8..])
          case None => None
          case Some(low) =>
            if 0xDC00 <= low < 0xE000
            then Some(((0x1_0000 + (n - 0xD800) * 0x400 + (low - 0xDC00)) as char, 12)) else None
        else None
  }

  /** The string that ends at the first unescaped quote of `t`, and what follows it. */
  function ReadString(t: string): (r: Option<(string, string)>)
    ensures r.Some? ==> |r.value.1| < |t|
  {
    if t == "" then None
    else if t[0] == '"' then Some(("", t[1..]))
    else if t[0] == '\\' then
      match ReadEscape(t)
      case None => None
      case Some((c, k)) =>
        match ReadString(t[k..])
        case None => None
        case Some((s, rest)) => Some(([c] + s, rest))
    else if t[0] as int < 0x20 then None
    else
      match ReadString(t[1..])
      case None => None
      case Some((s, rest)) => Some(([t[0]] + s, rest))
  }

  lemma ReadSurrogates(hi: nat, lo: nat, rest: string)
    requires 0xD800 <= hi < 0xDC00 <= lo < 0xE000
    ensures ReadEscape("\\u" + Hex4(hi) + "\\u" + Hex4(lo) + rest)
         == Some(((0x1_0000 + (hi - 0xD800) * 0x400 + (lo - 0xDC00)) as char, 12))
  {
    hide Hex4, ReadHex4;
    var second := "\\u" + Hex4(lo) + rest;
    var t := "\\u" + Hex4(hi) + "\\u" + Hex4(lo) + rest;
    assert t == "\\u" + Hex4(hi) + second;
    assert t[2..] == Hex4(hi) + second && t[6..] == second && t[8..] == second[2..] == Hex4(lo) + rest;
    assert t[6] == t[6..][0] && t[7] == t[6..][1];
    HexRoundTrip(hi, second);
    HexRoundTrip(lo, rest);
  }

  lemma ReadUnicodeEscape(n: nat, rest: string)
    requires n < 0xD800 || 0xE000 <= n < 0x1_0000
    ensures ReadEscape("\\u" + Hex4(n) + rest) == Some((n as char, 6))
  {
    var t := "\\u" + Hex4(n) + rest;
    assert t[1] == 'u' && t[2..] == Hex4(n) + rest;
    HexRoundTrip(n, rest);
  }

  lemma ReadEscaped(c: char, ascii: bool, rest: string)
    requires var e := EscapeChar(c, ascii); |e| > 1
    ensures var e := EscapeChar(c, ascii); e[0] == '\\' && ReadEscape(e + rest) == Some((c, |e|))
  {
    hide Hex4, ReadHex4;
    var e := EscapeChar(c, ascii);
    var n := c as int;
    if e[1] == 'u' {
      if n < 0x1_0000 {
        ReadUnicodeEscape(n, rest);
      } else {
        ReadSurrogates(0xD800 + (n - 0x1_0000) / 0x400, 0xDC00 + (n - 0x1_0000) % 0x400, rest);
      }
    }
  }

  lemma ReadPlain(c: char, t: string, s: string, rest: string)
    requires c != '"' && c != '\\' && c as int >= 0x20 && ReadString(t) == Some((s, rest))
    ensures ReadString([c] + t) == Some(([c] + s, rest))
  {
    assert ([c] + t)[1..] == t;
  }

  lemma ReadAfterEscape(e: string, c: char, t: string, s: string, rest: string)
    requires e != "" && e[0] == '\\' && ReadEscape(e + t) == Some((c, |e|)) && ReadString(t) == Some((s, rest))
    ensures ReadString(e + t) == Some(([c] + s, rest))
  {
    assert (e + t)[|e|..] == t;
  }

  /** Escaping then reading gives the string back, in both `ensure_ascii` modes. */
  lemma {:induction false} StringRoundTrip(s: string, ascii: bool, rest: string)
    ensures ReadString(Escape(s, ascii) + "\"" + rest) == Some((s, rest))
  {
    hide ReadString, ReadEscape;
    if s == "" {
      EndQuote(rest);
      assert Escape(s, ascii) + "\"" + rest == "\"" + rest;
    } else {
      var e := EscapeChar(s[0], ascii);
      var tail := Escape(s[1..], ascii) + "\"" + rest;
      assert Escape(s, ascii) + "\"" + rest == e + tail;
      StringRoundTrip(s[1..], ascii, rest);
      if |e| > 1 {
        ReadEscaped(s[0], ascii, tail);
        ReadAfterEscape(e, s[0], tail, s[1..], rest);
      } else {
        ReadPlain(s[0], tail, s[1..], rest);
      }
      assert s == [s[0]] + s[1..];
    }
  }

  lemma EndQuote(rest: string)
    ensures ReadString("\"" + rest) == Some(("", rest))
  {
    assert ("\"" + rest)[1..] == rest;
  }

  // ---- lexing ----------------------------------------------------------------

  function TokenText(t: Token, ascii: bool): string {
    match t
    case LBrace => "{"
    case RBrace => "}"
    case LBrack => "["
    case RBrack => "]"
    case Comma => ","
    case Colon => ":"
    case Word(w) => w
    case Quoted(s) => "\"" + Escape(s, ascii) + "\""
  }

  function PieceText(p: Piece, ascii: bool): string {
    match p
    case Tok(t) => TokenText(t, ascii)
    case Space(w) => w
  }

  function Render(ps: seq<Piece>, ascii: bool): string {
    if ps == [] then "" else PieceText(ps[0], ascii) + Render(ps[1..], ascii)
  }

  function Tokens(ps: seq<Piece>): seq<Token> {
    if ps == [] then [] else (if ps[0].Tok? then [ps[0].t] else []) + Tokens(ps[1..])
  }

  predicate ValidPiece(p: Piece) {
    match p
    case Tok(Word(w)) => w != "" && forall i | 0 <= i < |w| :: WordChar(w[i])
    case Tok(_) => true
    case Space(w) => w != "" && forall i | 0 <= i < |w| :: Blank(w[i])
  }

  predicate ValidPieces(ps: seq<Piece>) {
    forall i | 0 <= i < |ps| :: ValidPiece(ps[i])
  }

  /** No two words touch, so the lexer cannot run one into the next. */
  predicate NoWordsTouch(ts: seq<Token>) {
    forall i | 0 <= i < |ts| - 1 :: ts[i].Word? ==> !ts[i + 1].Word?
  }

  function WordLength(t: string): (k: nat)
    ensures k <= |t|
    ensures t != "" && WordChar(t[0]) ==> k > 0
  {
    if t == "" || !WordChar(t[0]) then 0 else 1 + WordLength(t[1..])
  }

  function Punctuation(c: char): Option<Token> {
    if c == '{' then Some(LBrace)
    else if c == '}' then Some(RBrace)
    else if c == '[' then Some(LBrack)
    else if c == ']' then Some(RBrack)
    else if c == ',' then Some(Comma)
    else if c == ':' then Some(Colon)
    else None
  }

  function Cons(t: Token, r: Option<seq<Token>>): Option<seq<Token>> {
    match r
    case None => None
    case Some(ts) => Some([t] + ts)
  }

  function Lex(text: string): Option<seq<Token>>
    decreases |text|
  {
    if text == "" then Some([])
    else if Blank(text[0]) then Lex(text[1..])
    else if Punctuation(text[0]).Some? then Cons(Punctuation(text[0]).value, Lex(text[1..]))
    else if text[0] == '"' then
      match ReadString(text[1..])
      case None => None
      case Some((s, rest)) => Cons(Quoted(s), Lex(rest))
    else if WordChar(text[0]) then
      var k := WordLength(text);
      Cons(Word(text[..k]), Lex(text[k..]))
    else None
  }

  lemma {:induction false} LexSpace(w: string, rest: string)
    requires forall i | 0 <= i < |w| :: Blank(w[i])
    ensures Lex(w + rest) == Lex(rest)
  {
    if w == "" {
      assert w + rest == rest;
    } else {
      assert (w + rest)[1..] == w[1..] + rest;
      LexSpace(w[1..], rest);
    }
  }

  lemma {:induction false} WordLengthIs(w: string, rest: string)
    requires forall i | 0 <= i < |w| :: WordChar(w[i])
    requires rest == "" || !WordChar(rest[0])
    ensures WordLength(w + rest) == |w|
  {
    if w == "" {
      assert w + rest == rest;
    } else {
      assert (w + rest)[1..] == w[1..] + rest;
      WordLengthIs(w[1..], rest);
    }
  }

  lemma LexWord(w: string, rest: string)
    requires w != "" && forall i | 0 <= i < |w| :: WordChar(w[i])
    requires rest == "" || !WordChar(rest[0])
    ensures Lex(w + rest) == Cons(Word(w), Lex(rest))
  {
    hide WordLength, ReadString;
    var text := w + rest;
    WordLengthIs(w, rest);
    assert text[0] == w[0] && WordChar(text[0]);
    assert text[..|w|] == w && text[|w|..] == rest;
  }

  lemma LexQuoted(s: string, ascii: bool, rest: string)
    ensures Lex("\"" + Escape(s, ascii) + "\"" + rest) == Cons(Quoted(s), Lex(rest))
  {
    var text := "\"" + Escape(s, ascii) + "\"" + rest;
    StringRoundTrip(s, ascii, rest);
    assert text[1..] == Escape(s, ascii) + "\"" + rest;
  }

  lemma LexToken(t: Token, ascii: bool, rest: string)
    requires ValidPiece(Tok(t))
    requires t.Word? ==> rest == "" || !WordChar(rest[0])
    ensures Lex(TokenText(t, ascii) + rest) == Cons(t, Lex(rest))
  {
    match t
    case Word(w) => LexWord(w, rest);
    case Quoted(s) => LexQuoted(s, ascii, rest);
    case _ =>
      var text := TokenText(t, ascii) + rest;
      assert text[1..] == rest;
      assert Punctuation(text[0]) == Some(t);
  }

  /** After a word comes the end, whitespace, or a token that is not a word. */
  lemma WordStops(ps: seq<Piece>, ascii: bool)
    requires ValidPieces(ps) && ps != [] && !(ps[0].Tok? && ps[0].t.Word?)
    ensures Render(ps, ascii) != "" && !WordChar(Render(ps, ascii)[0])
  {
  }

  lemma TailNoWordsTouch(t: Token, ts: seq<Token>)
    requires NoWordsTouch([t] + ts)
    ensures NoWordsTouch(ts)
    ensures t.Word? && ts != [] ==> !ts[0].Word?
  {
    var all := [t] + ts;
    assert forall i | 0 <= i < |ts| :: ts[i] == all[i + 1];
    assert all[0] == t;
  }

  /** Lexing any layout gives back its tokens: whitespace never matters. */
  lemma {:induction false} LexRender(ps: seq<Piece>, ascii: bool)
    requires ValidPieces(ps) && NoWordsTouch(Tokens(ps))
    ensures Lex(Render(ps, ascii)) == Some(Tokens(ps))
  {
    if ps == [] {
    } else {
      var rest := Render(ps[1..], ascii);
      assert Tokens(ps) == (if ps[0].Tok? then [ps[0].t] else []) + Tokens(ps[1..]);
      if ps[0].Space? {
        assert Tokens(ps) == Tokens(ps[1..]);
        LexRender(ps[1..], ascii);
        LexSpace(ps[0].w, rest);
      } else {
        TailNoWordsTouch(ps[0].t, Tokens(ps[1..]));
        LexRender(ps[1..], ascii);
        if ps[0].t.Word? && ps[1..] != [] {
          assert ps[1].Tok? ==> ps[1].t == Tokens(ps[1..])[0];
          WordStops(ps[1..], ascii);
        }
        LexToken(ps[0].t, ascii, rest);
      }
    }
  }
}
