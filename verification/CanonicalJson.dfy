/** `json.dumps(v, sort_keys=True)` determines `v`, and `json.loads` reads it back from any layout. */
module CanonicalJson {
  import opened Options
  import opened Numerals
  import opened Json
  import opened JsonText
  import Orders

  // ---- the tokens of a value, and reading them back --------------------------

  function ValueTokens(v: Value): seq<Token> {
    match v
    case Null => [Word("null")]
    case Bool(b) => [Word(if b then "true" else "false")]
    case Int(n) => [Word(IntText(n))]
    case Float(lex) => [Word(lex)]
    case Str(s) => [Quoted(s)]
    case Arr(items) => [LBrack] + ItemTokens(items) + [RBrack]
    case Obj(fields) => [LBrace] + MemberTokens(fields) + [RBrace]
  }

  function ItemTokens(items: seq<Value>): seq<Token> {
    if items == [] then []
    else if |items| == 1 then ValueTokens(items[0])
    else ValueTokens(items[0]) + [Comma] + ItemTokens(items[1..])
  }

  function MemberTokens(fields: seq<Member>): seq<Token> {
    if fields == [] then []
    else if |fields| == 1 then [Quoted(fields[0].key), Colon] + ValueTokens(fields[0].val)
    else [Quoted(fields[0].key), Colon] + ValueTokens(fields[0].val) + [Comma] + MemberTokens(fields[1..])
  }

  function WordValue(w: string): Option<Value> {
    if w == "null" then Some(Null)
    else if w == "true" then Some(Bool(true))
    else if w == "false" then Some(Bool(false))
    else if IntLex(w) then Some(Int(IntValue(w)))
    else if FloatLex(w) then Some(Float(w))
    else None
  }

  function ParseValue(ts: seq<Token>): (r: Option<(Value, seq<Token>)>)
    ensures r.Some? ==> |r.value.1| < |ts|
    decreases |ts|, 0
  {
    if ts == [] then None
    else
      match ts[0]
      case Quoted(s) => Some((Str(s), ts[1..]))
      case Word(w) => (match WordValue(w) case None => None case Some(v) => Some((v, ts[1..])))
      case LBrack =>
        if |ts| > 1 && ts[1] == RBrack then Some((Arr([]), ts[2..]))
        else (match ParseItems(ts[1..]) case None => None case Some((vs, rest)) => Some((Arr(vs), rest)))
      case LBrace =>
        if |ts| > 1 && ts[1] == RBrace then Some((Obj([]), ts[2..]))
        else (match ParseMembers([], ts[1..]) case None => None case Some((fs, rest)) => Some((Obj(fs), rest)))
      case _ => None
  }

  /** `value (, value)* ]` */
  function ParseItems(ts: seq<Token>): (r: Option<(seq<Value>, seq<Token>)>)
    ensures r.Some? ==> |r.value.1| < |ts|
    decreases |ts|, 1
  {
    match ParseValue(ts)
    case None => None
    case Some((v, rest)) =>
      if rest == [] then None
      else if rest[0] == RBrack then Some(([v], rest[1..]))
      else if rest[0] == Comma then
        (match ParseItems(rest[1..]) case None => None case Some((vs, r2)) => Some(([v] + vs, r2)))
      else None
  }

  /** `"key" : value (, "key" : value)* }`, assigned into the dict one by one. */
  function ParseMembers(dict: seq<Member>, ts: seq<Token>): (r: Option<(seq<Member>, seq<Token>)>)
    ensures r.Some? ==> |r.value.1| < |ts|
    decreases |ts|, 1
  {
    if |ts| < 2 || !ts[0].Quoted? || ts[1] != Colon then None
    else
      match ParseValue(ts[2..])
      case None => None
      case Some((v, rest)) =>
        var d := Put(dict, ts[0].s, v);
        if rest == [] then None
        else if rest[0] == RBrace then Some((d, rest[1..]))
        else if rest[0] == Comma then ParseMembers(d, rest[1..])
        else None
  }

  /** `json.loads`. */
  function Loads(text: string): Option<Value> {
    match Lex(text)
    case None => None
    case Some(ts) =>
      match ParseValue(ts)
      case None => None
      case Some((v, rest)) => if rest == [] then Some(v) else None
  }

  // ---- the parser inverts the printer ----------------------------------------

  lemma FirstToken(v: Value)
    ensures ValueTokens(v) != [] && ValueTokens(v)[0] !in {RBrack, RBrace, Comma, Colon}
  {
  }

  lemma WordInverts(v: Value)
    requires WellFormed(v) && v.Int?
    ensures WordValue(IntText(v.n)) == Some(v)
  {
    IntRoundTrip(v.n);
    assert Unsigned("null") == "null" && Unsigned("true") == "true" && Unsigned("false") == "false";
    assert "null"[0] == 'n' && "true"[0] == 't' && "false"[0] == 'f';
  }

  lemma ParseWord(w: string, v: Value, rest: seq<Token>)
    requires WordValue(w) == Some(v)
    ensures ParseValue([Word(w)] + rest) == Some((v, rest))
  {
    assert ([Word(w)] + rest)[1..] == rest;
  }

  lemma ParseEmpty(rest: seq<Token>)
    ensures ParseValue([LBrack, RBrack] + rest) == Some((Arr([]), rest))
    ensures ParseValue([LBrace, RBrace] + rest) == Some((Obj([]), rest))
  {
    assert ([LBrack, RBrack] + rest)[2..] == rest && ([LBrace, RBrace] + rest)[2..] == rest;
  }

  lemma ParseArr(ts: seq<Token>, items: seq<Value>, rest: seq<Token>)
    requires ts != [] && ts[0] != RBrack && ParseItems(ts) == Some((items, rest))
    ensures ParseValue([LBrack] + ts) == Some((Arr(items), rest))
  {
    assert ([LBrack] + ts)[1..] == ts;
  }

  lemma ParseObj(ts: seq<Token>, fields: seq<Member>, rest: seq<Token>)
    requires ts != [] && ts[0] != RBrace && ParseMembers([], ts) == Some((fields, rest))
    ensures ParseValue([LBrace] + ts) == Some((Obj(fields), rest))
  {
    assert ([LBrace] + ts)[1..] == ts;
  }

  lemma FirstItemToken(items: seq<Value>)
    requires items != []
    ensures ItemTokens(items) != [] && ItemTokens(items)[0] != RBrack
  {
    FirstToken(items[0]);
  }

  lemma FirstMemberToken(fields: seq<Member>)
    requires fields != []
    ensures MemberTokens(fields) != [] && MemberTokens(fields)[0] == Quoted(fields[0].key)
  {
  }

  lemma {:induction false} ParseInverts(v: Value, rest: seq<Token>)
    requires WellFormed(v)
    ensures ParseValue(ValueTokens(v) + rest) == Some((v, rest))
    decreases v, 0
  {
    hide ParseItems, ParseMembers;
    match v
    case Null => ParseWord("null", v, rest);
    case Bool(b) => ParseWord(if b then "true" else "false", v, rest);
    case Int(n) =>
      WordInverts(v);
      ParseWord(IntText(n), v, rest);
    case Float(lex) =>
      FloatIsNotInt(lex);
      ParseWord(lex, v, rest);
    case Str(s) => assert ([Quoted(s)] + rest)[1..] == rest;
    case Arr(items) => ParseArrInverts(items, rest);
    case Obj(fields) => ParseObjInverts(fields, rest);
  }

  lemma NoTokens()
    ensures ValueTokens(Arr([])) == [LBrack, RBrack] && ValueTokens(Obj([])) == [LBrace, RBrace]
  {
  }

  lemma {:induction false} ParseArrInverts(items: seq<Value>, rest: seq<Token>)
    requires WellFormed(Arr(items))
    ensures ParseValue(ValueTokens(Arr(items)) + rest) == Some((Arr(items), rest))
    decreases items, 2
  {
    hide ParseItems, ParseMembers, ParseValue, ItemTokens;
    if items == [] {
      ParseEmpty(rest);
      NoTokens();
    } else {
      ParseItemsInverts(items, rest);
      FirstItemToken(items);
      var ts := ItemTokens(items) + [RBrack] + rest;
      ParseArr(ts, items, rest);
      assert ValueTokens(Arr(items)) + rest == [LBrack] + ts;
    }
  }

  lemma {:induction false} ParseObjInverts(fields: seq<Member>, rest: seq<Token>)
    requires WellFormed(Obj(fields))
    ensures ParseValue(ValueTokens(Obj(fields)) + rest) == Some((Obj(fields), rest))
    decreases fields, 2
  {
    hide ParseItems, ParseMembers, ParseValue, MemberTokens;
    if fields == [] {
      ParseEmpty(rest);
      NoTokens();
    } else {
      assert [] + fields == fields;
      ParseMembersInverts([], fields, rest);
      FirstMemberToken(fields);
      var ts := MemberTokens(fields) + [RBrace] + rest;
      ParseObj(ts, fields, rest);
      assert ValueTokens(Obj(fields)) + rest == [LBrace] + ts;
    }
  }

  lemma ItemsEnd(ts: seq<Token>, v: Value, after: seq<Token>)
    requires ParseValue(ts) == Some((v, after)) && after != [] && after[0] == RBrack
    ensures ParseItems(ts) == Some(([v], after[1..]))
  {
  }

  lemma ItemsGoOn(ts: seq<Token>, v: Value, after: seq<Token>, vs: seq<Value>, rest: seq<Token>)
    requires ParseValue(ts) == Some((v, after)) && after != [] && after[0] == Comma
    requires ParseItems(after[1..]) == Some((vs, rest))
    ensures ParseItems(ts) == Some(([v] + vs, rest))
  {
  }

  lemma {:induction false} ParseItemsInverts(items: seq<Value>, rest: seq<Token>)
    requires items != [] && forall i | 0 <= i < |items| :: WellFormed(items[i])
    ensures ParseItems(ItemTokens(items) + [RBrack] + rest) == Some((items, rest))
    decreases items, 1
  {
    hide ParseItems, ParseValue, ItemTokens;
    var ts := ItemTokens(items) + [RBrack] + rest;
    var after := AfterItem(items, rest);
    ItemsShape(items, rest);
    ParseInverts(items[0], after);
    if |items| == 1 {
      ItemsEnd(ts, items[0], after);
      assert items == [items[0]];
    } else {
      ParseItemsInverts(items[1..], rest);
      ItemsGoOn(ts, items[0], after, items[1..], rest);
      assert items == [items[0]] + items[1..];
    }
  }

  /** What follows the first element, up to and past the closing bracket. */
  function AfterItem(items: seq<Value>, rest: seq<Token>): seq<Token>
    requires items != []
  {
    if |items| == 1 then [RBrack] + rest else [Comma] + (ItemTokens(items[1..]) + [RBrack] + rest)
  }

  lemma ItemsShape(items: seq<Value>, rest: seq<Token>)
    requires items != []
    ensures
      var after := AfterItem(items, rest);
      && ItemTokens(items) + [RBrack] + rest == ValueTokens(items[0]) + after
      && after != [] && after[0] == (if |items| == 1 then RBrack else Comma)
      && after[1..] == if |items| == 1 then rest else ItemTokens(items[1..]) + [RBrack] + rest
  {
    hide ValueTokens;
    var v := ValueTokens(items[0]);
    if |items| == 1 {
      assert ItemTokens(items) == v;
      assert v + [RBrack] + rest == v + ([RBrack] + rest);
    } else {
      var tail := ItemTokens(items[1..]);
      assert ItemTokens(items) == v + [Comma] + tail;
      assert v + [Comma] + tail + [RBrack] == v + [Comma] + (tail + [RBrack]);
      Regroup(v, [Comma], tail + [RBrack], rest);
    }
  }

  lemma MembersEnd(dict: seq<Member>, ts: seq<Token>, key: string, v: Value, after: seq<Token>)
    requires |ts| >= 2 && ts[0] == Quoted(key) && ts[1] == Colon
    requires ParseValue(ts[2..]) == Some((v, after)) && after != [] && after[0] == RBrace
    ensures ParseMembers(dict, ts) == Some((Put(dict, key, v), after[1..]))
  {
  }

  lemma MembersGoOn(dict: seq<Member>, ts: seq<Token>, key: string, v: Value, after: seq<Token>)
    requires |ts| >= 2 && ts[0] == Quoted(key) && ts[1] == Colon
    requires ParseValue(ts[2..]) == Some((v, after)) && after != [] && after[0] == Comma
    ensures ParseMembers(dict, ts) == ParseMembers(Put(dict, key, v), after[1..])
  {
  }

  lemma PutNext(dict: seq<Member>, fields: seq<Member>)
    requires fields != [] && UniqueKeys(dict + fields)
    ensures Put(dict, fields[0].key, fields[0].val) == dict + [fields[0]]
    ensures dict + [fields[0]] + fields[1..] == dict + fields
  {
    HasIff(dict, fields[0].key);
    assert (dict + fields)[|dict|] == fields[0];
    assert forall i | 0 <= i < |dict| :: (dict + fields)[i] == dict[i];
    PutFresh(dict, fields[0].key, fields[0].val);
    assert fields[0] == Member(fields[0].key, fields[0].val);
  }

  lemma {:induction false} ParseMembersInverts(dict: seq<Member>, fields: seq<Member>, rest: seq<Token>)
    requires fields != [] && UniqueKeys(dict + fields)
    requires forall i | 0 <= i < |fields| :: WellFormed(fields[i].val)
    ensures ParseMembers(dict, MemberTokens(fields) + [RBrace] + rest) == Some((dict + fields, rest))
    decreases fields, 1
  {
    hide ParseMembers, ParseValue, MemberTokens;
    var ts := MemberTokens(fields) + [RBrace] + rest;
    var m := fields[0];
    var after := AfterMember(fields, rest);
    MembersShape(fields, rest);
    ParseInverts(m.val, after);
    PutNext(dict, fields);
    if |fields| == 1 {
      MembersEnd(dict, ts, m.key, m.val, after);
      assert dict + fields == dict + [m];
    } else {
      MembersGoOn(dict, ts, m.key, m.val, after);
      ParseMembersInverts(dict + [m], fields[1..], rest);
    }
  }

  /** What follows the first member's value, up to and past the closing brace. */
  function AfterMember(fields: seq<Member>, rest: seq<Token>): seq<Token>
    requires fields != []
  {
    if |fields| == 1 then [RBrace] + rest else [Comma] + (MemberTokens(fields[1..]) + [RBrace] + rest)
  }

  lemma MembersShape(fields: seq<Member>, rest: seq<Token>)
    requires fields != []
    ensures
      var ts := MemberTokens(fields) + [RBrace] + rest;
      var after := AfterMember(fields, rest);
      && |ts| >= 2 && ts[0] == Quoted(fields[0].key) && ts[1] == Colon
      && ts[2..] == ValueTokens(fields[0].val) + after
      && after != [] && after[0] == (if |fields| == 1 then RBrace else Comma)
      && after[1..] == if |fields| == 1 then rest else MemberTokens(fields[1..]) + [RBrace] + rest
  {
    var head, v := [Quoted(fields[0].key), Colon], ValueTokens(fields[0].val);
    if |fields| == 1 {
      Regroup(head + v, [], [RBrace], rest);
    } else {
      Regroup(head + v, [Comma], MemberTokens(fields[1..]) + [RBrace], rest);
      assert head + v + [Comma] + MemberTokens(fields[1..]) + [RBrace]
          == head + v + [Comma] + (MemberTokens(fields[1..]) + [RBrace]);
    }
    HeadAndTail(head, v, AfterMember(fields, rest));
  }

  lemma Regroup<T>(a: seq<T>, b: seq<T>, c: seq<T>, d: seq<T>)
    ensures a + b + c + d == a + (b + (c + d))
  {
  }

  lemma HeadAndTail<T>(head: seq<T>, v: seq<T>, after: seq<T>)
    requires |head| == 2
    ensures head + v + after == head + (v + after)
    ensures (head + v + after)[2..] == v + after
  {
  }

  // ---- any layout of a value -------------------------------------------------

  predicate SafeWords(ts: seq<Token>) {
    && NoWordsTouch(ts)
    && forall i | 0 <= i < |ts| :: ValidPiece(Tok(ts[i]))
  }

  lemma SafeJoin(a: seq<Token>, b: seq<Token>)
    requires SafeWords(a) && SafeWords(b)
    requires a != [] && b != [] ==> !a[|a| - 1].Word? || !b[0].Word?
    ensures SafeWords(a + b)
  {
  }

  lemma {:induction false} ValueTokensSafe(v: Value)
    requires WellFormed(v)
    ensures SafeWords(ValueTokens(v))
    decreases v, 0
  {
    match v
    case Int(n) => IntRoundTrip(n);
    case Float(lex) => FloatIsNotInt(lex);
    case Arr(items) =>
      ItemTokensSafe(items);
      SafeJoin([LBrack], ItemTokens(items));
      SafeJoin([LBrack] + ItemTokens(items), [RBrack]);
    case Obj(fields) =>
      MemberTokensSafe(fields);
      SafeJoin([LBrace], MemberTokens(fields));
      SafeJoin([LBrace] + MemberTokens(fields), [RBrace]);
    case _ =>
  }

  lemma {:induction false} ItemTokensSafe(items: seq<Value>)
    requires forall i | 0 <= i < |items| :: WellFormed(items[i])
    ensures SafeWords(ItemTokens(items))
    decreases items, 1
  {
    if items == [] {
    } else {
      ValueTokensSafe(items[0]);
      if |items| > 1 {
        ItemTokensSafe(items[1..]);
        SafeJoin(ValueTokens(items[0]), [Comma]);
        SafeJoin(ValueTokens(items[0]) + [Comma], ItemTokens(items[1..]));
      }
    }
  }

  lemma {:induction false} MemberTokensSafe(fields: seq<Member>)
    requires forall i | 0 <= i < |fields| :: WellFormed(fields[i].val)
    ensures SafeWords(MemberTokens(fields))
    decreases fields, 1
  {
    if fields == [] {
    } else {
      var head := [Quoted(fields[0].key), Colon];
      assert fields[0].val < fields[0];
      ValueTokensSafe(fields[0].val);
      SafeJoin(head, ValueTokens(fields[0].val));
      if |fields| > 1 {
        MemberTokensSafe(fields[1..]);
        SafeJoin(head + ValueTokens(fields[0].val), [Comma]);
        SafeJoin(head + ValueTokens(fields[0].val) + [Comma], MemberTokens(fields[1..]));
      }
    }
  }

  /** `text` is some layout of exactly the document `v`: the same members in the same order, with any
      whitespace between tokens and any way of writing each character of a string. */
  predicate LayoutOf(text: string, v: Value) {
    Lex(text) == Some(ValueTokens(v))
  }

  /** Printing the tokens with any whitespace, in either escape mode, is a layout. */
  lemma RenderedIsLayout(ps: seq<Piece>, ascii: bool, v: Value)
    requires WellFormed(v) && ValidPieces(ps) && Tokens(ps) == ValueTokens(v)
    ensures LayoutOf(Render(ps, ascii), v)
  {
    ValueTokensSafe(v);
    LexRender(ps, ascii);
  }

  /** So is text that escapes some characters and not others: `"\/é"` with the solidus escaped and the
      accent not, which no mode of `json.dumps` prints. */
  lemma MixedEscapesAreLayout()
    ensures LayoutOf("\"\\/\U{E9}\"", Str("/\U{E9}"))
  {
    var t := "\\/\U{E9}\"";
    assert "\"\\/\U{E9}\""[1..] == t;
    assert t[2..] == "\U{E9}\"" && t[2..][1..] == "\"" && t[2..][1..][1..] == "";
    assert ReadEscape(t) == Some(('/', 2));
    assert ReadString(t[2..][1..]) == Some(("", ""));
    assert ReadString(t[2..]) == Some((['\U{E9}'] + "", ""));
    assert ReadString(t) == Some((['/'] + (['\U{E9}'] + ""), ""));
    assert ['/'] + (['\U{E9}'] + "") == "/\U{E9}";
    assert Lex("") == Some([]) && Lex("\"\\/\U{E9}\"") == Cons(Quoted("/\U{E9}"), Lex(""));
    assert ValueTokens(Str("/\U{E9}")) == [Quoted("/\U{E9}")] + [];
  }

  /** `json.loads` recovers a document from every layout of it. */
  lemma LoadsAnyLayout(text: string, v: Value)
    requires WellFormed(v) && LayoutOf(text, v)
    ensures Loads(text) == Some(v)
  {
    ParseInverts(v, []);
    assert ValueTokens(v) + [] == ValueTokens(v);
  }

  // ---- sorted keys -----------------------------------------------------------

  predicate KeyLeq(a: Member, b: Member) { Orders.Leq(a.key, b.key) }

  /** The value with the members of every object in key order. */
  function Norm(v: Value): Value {
    match v
    case Arr(items) => Arr(seq(|items|, i requires 0 <= i < |items| => Norm(items[i])))
    case Obj(fields) => Obj(Orders.SortBy(KeyLeq, NormFields(fields)))
    case _ => v
  }

  function NormFields(fields: seq<Member>): (r: seq<Member>)
    ensures |r| == |fields|
    ensures forall i | 0 <= i < |r| :: r[i] == Member(fields[i].key, Norm(fields[i].val))
  {
    if fields == [] then []
    else
      assert fields[0].val < fields[0];
      [Member(fields[0].key, Norm(fields[0].val))] + NormFields(fields[1..])
  }

  lemma KeyLeqIsOrder()
    ensures Orders.TotalPreorder(KeyLeq)
    ensures forall a, b :: KeyLeq(a, b) && KeyLeq(b, a) ==> a.key == b.key
  {
    Orders.KeyOrder((m: Member) => m.key, KeyLeq);
  }

  lemma UniqueNoTies(fields: seq<Member>)
    requires UniqueKeys(fields)
    ensures Orders.NoTies(KeyLeq, fields)
  {
    KeyLeqIsOrder();
  }

  lemma {:induction false} NoDuplicates(s: seq<Member>)
    requires UniqueKeys(s)
    ensures forall m :: multiset(s)[m] == if m in s then 1 else 0
  {
    if s == [] {
    } else {
      NoDuplicates(s[1..]);
      assert s == [s[0]] + s[1..];
      assert s[0] !in s[1..];
    }
  }

  lemma SameMultiset(s: seq<Member>, t: seq<Member>)
    requires UniqueKeys(s) && UniqueKeys(t)
    requires forall m :: m in s <==> m in t
    ensures multiset(s) == multiset(t)
  {
    NoDuplicates(s);
    NoDuplicates(t);
  }

  /** With as many members and every member of `s` in `t`, no member of `t` is left over. */
  lemma {:induction false} Covers(s: seq<Member>, t: seq<Member>)
    requires UniqueKeys(s) && UniqueKeys(t) && |s| == |t|
    requires forall m | m in s :: m in t
    ensures multiset(s) == multiset(t)
  {
    NoDuplicates(s);
    NoDuplicates(t);
    assert multiset(s) <= multiset(t);
    assert |multiset(t) - multiset(s)| == 0;
    assert multiset(t) == multiset(s) + (multiset(t) - multiset(s));
  }

  lemma OnceMeansApart(t: seq<Member>, i: nat, j: nat)
    requires i < j < |t| && multiset(t)[t[i]] == 1
    ensures t[i] != t[j]
  {
    assert t == t[..j] + t[j..];
    assert multiset(t) == multiset(t[..j]) + multiset(t[j..]);
    assert t[i] in t[..j] && t[j] in t[j..];
    assert multiset(t[..j])[t[i]] >= 1 && multiset(t[j..])[t[j]] >= 1;
  }

  lemma UniqueFromMultiset(s: seq<Member>, t: seq<Member>)
    requires UniqueKeys(s) && multiset(s) == multiset(t)
    ensures UniqueKeys(t)
  {
    Orders.SameElements(s, t);
    NoDuplicates(s);
    forall i, j | 0 <= i < j < |t| ensures t[i].key != t[j].key {
      assert t[i] in s && t[j] in s;
      OnceMeansApart(t, i, j);
    }
  }

  lemma NormFieldsUnique(fields: seq<Member>)
    requires UniqueKeys(fields)
    ensures UniqueKeys(NormFields(fields))
    ensures UniqueKeys(Orders.SortBy(KeyLeq, NormFields(fields)))
  {
    Orders.SortByMultiset(KeyLeq, NormFields(fields));
    UniqueFromMultiset(NormFields(fields), Orders.SortBy(KeyLeq, NormFields(fields)));
  }

  lemma {:induction false} NormWellFormed(v: Value)
    requires WellFormed(v)
    ensures WellFormed(Norm(v))
  {
    match v
    case Arr(items) =>
      forall i | 0 <= i < |items| ensures WellFormed(Norm(items[i])) { NormWellFormed(items[i]); }
    case Obj(fields) =>
      var t := NormFields(fields);
      var sorted := Orders.SortBy(KeyLeq, t);
      NormFieldsUnique(fields);
      Orders.SortByMultiset(KeyLeq, t);
      Orders.SameElements(t, sorted);
      forall m | m in t ensures WellFormed(m.val) {
        var i :| 0 <= i < |t| && t[i] == m;
        NormWellFormed(fields[i].val);
      }
    case _ =>
  }

  /** Sorting the keys of two documents makes them equal exactly when they are the same document. */
  lemma {:induction false} NormIffSame(a: Value, b: Value)
    requires WellFormed(a) && WellFormed(b)
    ensures Norm(a) == Norm(b) <==> SameJson(a, b)
    decreases a
  {
    if !(a.Arr? && b.Arr?) && !(a.Obj? && b.Obj?) {
    } else if a.Arr? {
      var x, y := a.items, b.items;
      assert Norm(a).items == Norm(b).items ==> |x| == |y|;
      forall i | 0 <= i < |x| && i < |y| ensures Norm(x[i]) == Norm(y[i]) <==> SameJson(x[i], y[i]) {
        NormIffSame(x[i], y[i]);
      }
      assert forall i | 0 <= i < |x| :: Norm(a).items[i] == Norm(x[i]);
      assert forall i | 0 <= i < |y| :: Norm(b).items[i] == Norm(y[i]);
    } else {
      var f, g := a.fields, b.fields;
      forall i, j | 0 <= i < |f| && 0 <= j < |g|
        ensures Norm(f[i].val) == Norm(g[j].val) <==> SameJson(f[i].val, g[j].val)
      {
        NormIffSame(f[i].val, g[j].val);
      }
      if Norm(a) == Norm(b) {
        NormEqualObjects(f, g);
      }
      if SameJson(a, b) {
        SameObjects(f, g);
      }
    }
  }

  lemma NormEqualMembers(f: seq<Member>, g: seq<Member>)
    requires Norm(Obj(f)) == Norm(Obj(g))
    ensures |f| == |g| && forall m :: m in NormFields(f) <==> m in NormFields(g)
  {
    Orders.SortByMultiset(KeyLeq, NormFields(f));
    Orders.SortByMultiset(KeyLeq, NormFields(g));
    Orders.SameElements(NormFields(f), NormFields(g));
  }

  lemma SameByLookup(f: seq<Member>, g: seq<Member>)
    requires |f| == |g|
    requires forall i | 0 <= i < |f| :: Has(g, f[i].key) && SameJson(f[i].val, Get(g, f[i].key).value)
    ensures SameJson(Obj(f), Obj(g))
  {
  }

  lemma NormEqualObjects(f: seq<Member>, g: seq<Member>)
    requires UniqueKeys(f) && UniqueKeys(g)
    requires Norm(Obj(f)) == Norm(Obj(g))
    requires forall i, j | 0 <= i < |f| && 0 <= j < |g| ::
               Norm(f[i].val) == Norm(g[j].val) <==> SameJson(f[i].val, g[j].val)
    ensures SameJson(Obj(f), Obj(g))
  {
    NormEqualMembers(f, g);
    hide Norm, SameJson, UniqueKeys;
    forall i | 0 <= i < |f| ensures Has(g, f[i].key) && SameJson(f[i].val, Get(g, f[i].key).value) {
      NormFieldsAt(f, i);
      assert NormFields(f)[i] in NormFields(g);
      var j :| 0 <= j < |g| && NormFields(g)[j] == NormFields(f)[i];
      NormFieldsAt(g, j);
      GetUnique(g, j);
    }
    SameByLookup(f, g);
  }

  lemma NormFieldsAt(fields: seq<Member>, i: nat)
    requires i < |fields|
    ensures NormFields(fields)[i] == Member(fields[i].key, Norm(fields[i].val))
  {
    hide Norm;
  }

  lemma SameObjects(f: seq<Member>, g: seq<Member>)
    requires UniqueKeys(f) && UniqueKeys(g)
    requires SameJson(Obj(f), Obj(g))
    requires forall i, j | 0 <= i < |f| && 0 <= j < |g| ::
               Norm(f[i].val) == Norm(g[j].val) <==> SameJson(f[i].val, g[j].val)
    ensures Norm(Obj(f)) == Norm(Obj(g))
  {
    var s, t := NormFields(f), NormFields(g);
    NormFieldsUnique(f);
    NormFieldsUnique(g);
    forall m | m in s ensures m in t {
      var i :| 0 <= i < |s| && s[i] == m;
      var w := Member(f[i].key, Get(g, f[i].key).value);
      var j :| 0 <= j < |g| && g[j] == w;
      assert t[j] == m;
    }
    Covers(s, t);
    KeyLeqIsOrder();
    UniqueNoTies(s);
    Orders.SortForgetsOrder(KeyLeq, s, t);
  }

  // ---- json.dumps ------------------------------------------------------------

  /** Separators: `(",", ":")`, or Python's default `(", ", ": ")` when `spaced`. */
  function Spread(ts: seq<Token>, spaced: bool): seq<Piece> {
    if ts == [] then []
    else if spaced && ts[0] in {Comma, Colon} then [Tok(ts[0]), Space(" ")] + Spread(ts[1..], spaced)
    else [Tok(ts[0])] + Spread(ts[1..], spaced)
  }

  lemma {:induction false} SpreadTokens(ts: seq<Token>, spaced: bool)
    requires forall i | 0 <= i < |ts| :: ValidPiece(Tok(ts[i]))
    ensures Tokens(Spread(ts, spaced)) == ts && ValidPieces(Spread(ts, spaced))
  {
    if ts == [] {
    } else {
      SpreadTokens(ts[1..], spaced);
      var rest := Spread(ts[1..], spaced);
      if spaced && ts[0] in {Comma, Colon} {
        assert Spread(ts, spaced)[1..][1..] == rest;
        assert Tokens(Spread(ts, spaced)[1..]) == ts[1..];
      } else {
        assert Spread(ts, spaced)[1..] == rest;
      }
    }
  }

  /** `json.dumps(v, sort_keys=True, separators=…, ensure_ascii=ascii)`. */
  function Dumps(v: Value, spaced: bool, ascii: bool): string {
    Render(Spread(ValueTokens(Norm(v)), spaced), ascii)
  }

  /** Reading back what was dumped gives the document with its keys sorted. */
  lemma LoadsDumps(v: Value, spaced: bool, ascii: bool)
    requires WellFormed(v)
    ensures Loads(Dumps(v, spaced, ascii)) == Some(Norm(v))
  {
    NormWellFormed(v);
    ValueTokensSafe(Norm(v));
    SpreadTokens(ValueTokens(Norm(v)), spaced);
    RenderedIsLayout(Spread(ValueTokens(Norm(v)), spaced), ascii, Norm(v));
    LoadsAnyLayout(Dumps(v, spaced, ascii), Norm(v));
  }

  /** The canonical text determines the document, and the document the text. */
  lemma DumpsDeterminesValue(a: Value, b: Value, spaced: bool, ascii: bool)
    requires WellFormed(a) && WellFormed(b)
    ensures Dumps(a, spaced, ascii) == Dumps(b, spaced, ascii) <==> SameJson(a, b)
  {
    LoadsDumps(a, spaced, ascii);
    LoadsDumps(b, spaced, ascii);
    NormIffSame(a, b);
  }

  /** Sorting sorted keys changes nothing. */
  lemma NormTwice(v: Value)
    requires WellFormed(v)
    ensures Norm(Norm(v)) == Norm(v)
  {
    NormWellFormed(v);
    LoadsDumps(v, false, false);
    NormIsSame(v);
    NormIffSame(v, Norm(v));
  }

  lemma {:induction false} NormIsSame(v: Value)
    requires WellFormed(v)
    ensures SameJson(v, Norm(v))
  {
    match v
    case Arr(items) =>
      forall i | 0 <= i < |items| ensures SameJson(items[i], Norm(items[i])) { NormIsSame(items[i]); }
    case Obj(fields) =>
      forall i | 0 <= i < |fields| ensures SameJson(fields[i].val, Norm(fields[i].val)) {
        NormIsSame(fields[i].val);
      }
      SortedFieldsAreSame(fields);
    case _ =>
  }

  lemma FieldInSorted(fields: seq<Member>, i: nat)
    requires UniqueKeys(fields) && i < |fields|
    ensures Get(Orders.SortBy(KeyLeq, NormFields(fields)), fields[i].key) == Some(Norm(fields[i].val))
  {
    hide Norm;
    var t := NormFields(fields);
    var sorted := Orders.SortBy(KeyLeq, t);
    NormFieldsUnique(fields);
    Orders.SortByMultiset(KeyLeq, t);
    Orders.SameElements(t, sorted);
    assert t[i] in sorted;
    var j :| 0 <= j < |sorted| && sorted[j] == t[i];
    GetUnique(sorted, j);
  }

  lemma SortedFieldsAreSame(fields: seq<Member>)
    requires UniqueKeys(fields)
    requires forall i | 0 <= i < |fields| :: SameJson(fields[i].val, Norm(fields[i].val))
    ensures SameJson(Obj(fields), Obj(Orders.SortBy(KeyLeq, NormFields(fields))))
  {
    hide Norm, SameJson, NormFields;
    var sorted := Orders.SortBy(KeyLeq, NormFields(fields));
    Orders.SortByMultiset(KeyLeq, NormFields(fields));
    forall i | 0 <= i < |fields|
      ensures Has(sorted, fields[i].key) && SameJson(fields[i].val, Get(sorted, fields[i].key).value)
    {
      FieldInSorted(fields, i);
    }
    SameByLookup(fields, sorted);
  }

  // ---- json.dumps(indent=2) --------------------------------------------------

  function Line(indent: string): Piece { Space("\n" + indent) }

  function Pretty(v: Value, indent: string): seq<Piece> {
    match v
    case Arr(items) =>
      if items == [] then [Tok(LBrack), Tok(RBrack)]
      else [Tok(LBrack), Line(indent + "  ")] + PrettyItems(items, indent + "  ") + [Line(indent), Tok(RBrack)]
    case Obj(fields) =>
      if fields == [] then [Tok(LBrace), Tok(RBrace)]
      else [Tok(LBrace), Line(indent + "  ")] + PrettyMembers(fields, indent + "  ") + [Line(indent), Tok(RBrace)]
    case _ => [Tok(ValueTokens(v)[0])]
  }

  function PrettyItems(items: seq<Value>, indent: string): seq<Piece>
    requires items != []
  {
    if |items| == 1 then Pretty(items[0], indent)
    else Pretty(items[0], indent) + [Tok(Comma), Line(indent)] + PrettyItems(items[1..], indent)
  }

  function PrettyMembers(fields: seq<Member>, indent: string): seq<Piece>
    requires fields != []
  {
    var head := [Tok(Quoted(fields[0].key)), Tok(Colon), Space(" ")];
    assert fields[0].val < fields[0];
    if |fields| == 1 then head + Pretty(fields[0].val, indent)
    else head + Pretty(fields[0].val, indent) + [Tok(Comma), Line(indent)] + PrettyMembers(fields[1..], indent)
  }

  /** `json.dumps(v, indent=2, sort_keys=True)`, then a newline. */
  function DumpsPretty(v: Value, ascii: bool): string {
    Render(Pretty(Norm(v), "") + [Space("\n")], ascii)
  }

  lemma {:induction false} TokensJoin(a: seq<Piece>, b: seq<Piece>)
    ensures Tokens(a + b) == Tokens(a) + Tokens(b)
  {
    if a == [] {
      assert a + b == b;
    } else {
      var head := if a[0].Tok? then [a[0].t] else [];
      assert (a + b)[0] == a[0] && (a + b)[1..] == a[1..] + b;
      assert Tokens(a + b) == head + Tokens(a[1..] + b);
      TokensJoin(a[1..], b);
      assert head + (Tokens(a[1..]) + Tokens(b)) == (head + Tokens(a[1..])) + Tokens(b);
    }
  }

  lemma TokensOfPair(p: Piece, q: Piece)
    ensures Tokens([p, q]) == (if p.Tok? then [p.t] else []) + (if q.Tok? then [q.t] else [])
  {
    assert [p, q][1..] == [q];
    assert [q][1..] == [];
    assert Tokens([q]) == if q.Tok? then [q.t] else [];
  }

  predicate BlankIndent(indent: string) { forall i | 0 <= i < |indent| :: Blank(indent[i]) }

  lemma Bracketed(open: Token, body: seq<Piece>, close: Token, deeper: string, indent: string)
    requires ValidPieces(body) && ValidPiece(Tok(open)) && ValidPiece(Tok(close))
    requires BlankIndent(deeper) && BlankIndent(indent)
    ensures
      var ps := [Tok(open), Line(deeper)] + body + [Line(indent), Tok(close)];
      Tokens(ps) == [open] + Tokens(body) + [close] && ValidPieces(ps)
  {
    TokensJoin([Tok(open), Line(deeper)] + body, [Line(indent), Tok(close)]);
    TokensJoin([Tok(open), Line(deeper)], body);
    TokensOfPair(Tok(open), Line(deeper));
    TokensOfPair(Line(indent), Tok(close));
  }

  lemma Separated(first: seq<Piece>, indent: string, rest: seq<Piece>)
    requires ValidPieces(first) && ValidPieces(rest) && BlankIndent(indent)
    ensures
      var ps := first + [Tok(Comma), Line(indent)] + rest;
      Tokens(ps) == Tokens(first) + [Comma] + Tokens(rest) && ValidPieces(ps)
  {
    TokensJoin(first + [Tok(Comma), Line(indent)], rest);
    TokensJoin(first, [Tok(Comma), Line(indent)]);
    TokensOfPair(Tok(Comma), Line(indent));
  }

  lemma Keyed(key: string, val: seq<Piece>)
    requires ValidPieces(val)
    ensures
      var ps := [Tok(Quoted(key)), Tok(Colon), Space(" ")] + val;
      Tokens(ps) == [Quoted(key), Colon] + Tokens(val) && ValidPieces(ps)
  {
    var head := [Tok(Quoted(key)), Tok(Colon), Space(" ")];
    TokensJoin(head, val);
    assert head[1..] == [Tok(Colon), Space(" ")];
    TokensOfPair(Tok(Colon), Space(" "));
  }

  lemma {:induction false} PrettyIsLayout(v: Value, indent: string)
    requires WellFormed(v) && BlankIndent(indent)
    ensures Tokens(Pretty(v, indent)) == ValueTokens(v) && ValidPieces(Pretty(v, indent))
    decreases v, 0
  {
    ValueTokensSafe(v);
    var deeper := indent + "  ";
    match v
    case Arr(items) =>
      if items == [] {
        TokensOfPair(Tok(LBrack), Tok(RBrack));
      } else {
        PrettyItemsLayout(items, deeper);
        Bracketed(LBrack, PrettyItems(items, deeper), RBrack, deeper, indent);
      }
    case Obj(fields) =>
      if fields == [] {
        TokensOfPair(Tok(LBrace), Tok(RBrace));
      } else {
        PrettyMembersLayout(fields, deeper);
        Bracketed(LBrace, PrettyMembers(fields, deeper), RBrace, deeper, indent);
      }
    case _ =>
  }

  lemma {:induction false} PrettyItemsLayout(items: seq<Value>, indent: string)
    requires items != [] && BlankIndent(indent)
    requires forall i | 0 <= i < |items| :: WellFormed(items[i])
    ensures Tokens(PrettyItems(items, indent)) == ItemTokens(items) && ValidPieces(PrettyItems(items, indent))
    decreases items, 1
  {
    PrettyIsLayout(items[0], indent);
    if |items| <= 1 {
    } else {
      PrettyItemsLayout(items[1..], indent);
      Separated(Pretty(items[0], indent), indent, PrettyItems(items[1..], indent));
    }
  }

  lemma {:induction false} PrettyMembersLayout(fields: seq<Member>, indent: string)
    requires fields != [] && BlankIndent(indent)
    requires forall i | 0 <= i < |fields| :: WellFormed(fields[i].val)
    ensures Tokens(PrettyMembers(fields, indent)) == MemberTokens(fields)
    ensures ValidPieces(PrettyMembers(fields, indent))
    decreases fields, 1
  {
    var key, val := fields[0].key, fields[0].val;
    assert val < fields[0];
    PrettyIsLayout(val, indent);
    Keyed(key, Pretty(val, indent));
    if |fields| <= 1 {
    } else {
      PrettyMembersLayout(fields[1..], indent);
      Separated([Tok(Quoted(key)), Tok(Colon), Space(" ")] + Pretty(val, indent), indent,
                PrettyMembers(fields[1..], indent));
    }
  }

  lemma FinalNewline(ps: seq<Piece>)
    requires ValidPieces(ps)
    ensures Tokens(ps + [Space("\n")]) == Tokens(ps) && ValidPieces(ps + [Space("\n")])
  {
    TokensJoin(ps, [Space("\n")]);
    assert [Space("\n")][1..] == [];
    assert Tokens([Space("\n")]) == [];
  }

  /** The indented file is a layout of the key-sorted document. */
  lemma DumpsPrettyIsLayout(v: Value, ascii: bool)
    requires WellFormed(v)
    ensures LayoutOf(DumpsPretty(v, ascii), Norm(v)) && WellFormed(Norm(v))
  {
    hide Norm, LayoutOf, WellFormed, Render, Pretty, Tokens, ValidPieces;
    NormWellFormed(v);
    PrettyIsLayout(Norm(v), "");
    FinalNewline(Pretty(Norm(v), ""));
    RenderedIsLayout(Pretty(Norm(v), "") + [Space("\n")], ascii, Norm(v));
  }
}
