/** JSON pointers (RFC 6901) as `json_pointer` and `SchemaStore.resolve` walk them, and the paths
    the schema evaluator puts in its findings. */
module Pointers {
  import opened Options
  import opened Numerals
  import opened Json

  /** `s.split(sep)`. */
  function Split(s: string, sep: char): (parts: seq<string>)
    ensures parts != []
  {
    if s == "" then [""]
    else if s[0] == sep then [""] + Split(s[1..], sep)
    else
      var rest := Split(s[1..], sep);
      [[s[0]] + rest[0]] + rest[1..]
  }

  /** `s.replace(a + b, c)` for two one-character strings `a` and `b`. */
  function Replace(s: string, a: char, b: char, c: char): string
    decreases |s|
  {
    if |s| < 2 then s
    else if s[0] == a && s[1] == b then [c] + Replace(s[2..], a, b, c)
    else [s[0]] + Replace(s[1..], a, b, c)
  }

  /** `token.replace("~1", "/").replace("~0", "~")`. */
  function Unescape(token: string): string {
    Replace(Replace(token, '~', '1', '/'), '~', '0', '~')
  }

  /** RFC 6901 section 4: `~` is written `~0` and `/` is written `~1`. */
  function EscapeKey(key: string): string {
    if key == "" then ""
    else (if key[0] == '~' then "~0" else if key[0] == '/' then "~1" else [key[0]]) + EscapeKey(key[1..])
  }

  /** `EscapeKey` with only the tilde escaped: what is left after the first replacement. */
  function EscapeTilde(key: string): string {
    if key == "" then ""
    else (if key[0] == '~' then "~0" else [key[0]]) + EscapeTilde(key[1..])
  }

  lemma PassOver(c: char, rest: string)
    requires c != '~'
    ensures Replace([c] + rest, '~', '1', '/') == [c] + Replace(rest, '~', '1', '/')
  {
    assert ([c] + rest)[1..] == rest;
  }

  lemma PassOverTilde(rest: string)
    ensures Replace("~0" + rest, '~', '1', '/') == "~0" + Replace(rest, '~', '1', '/')
  {
    assert ("~0" + rest)[1..] == ['0'] + rest;
    PassOver('0', rest);
    assert ['~'] + (['0'] + Replace(rest, '~', '1', '/')) == "~0" + Replace(rest, '~', '1', '/');
  }

  lemma PassSlash(rest: string)
    ensures Replace("~1" + rest, '~', '1', '/') == "/" + Replace(rest, '~', '1', '/')
  {
    assert ("~1" + rest)[2..] == rest;
  }

  lemma {:induction false} FirstPass(key: string)
    ensures Replace(EscapeKey(key), '~', '1', '/') == EscapeTilde(key)
  {
    hide Replace;
    if key == "" {
      NothingToReplace();
    } else {
      FirstPass(key[1..]);
      var rest := EscapeKey(key[1..]);
      if key[0] == '~' {
        PassOverTilde(rest);
      } else if key[0] == '/' {
        PassSlash(rest);
      } else {
        PassOver(key[0], rest);
      }
    }
  }

  lemma NothingToReplace()
    ensures Replace("", '~', '1', '/') == ""
  {
  }

  lemma {:induction false} SecondPass(key: string)
    ensures Replace(EscapeTilde(key), '~', '0', '~') == key
  {
    if key == "" {
    } else {
      SecondPass(key[1..]);
      var rest := EscapeTilde(key[1..]);
      var s := EscapeTilde(key);
      if key[0] == '~' {
        assert s[2..] == rest;
      } else {
        assert s == [key[0]] + rest && s[1..] == rest;
      }
    }
  }

  /** The two replacements, in the order the code makes them, undo the RFC's escaping of any key. */
  lemma UnescapeInvertsEscape(key: string)
    ensures Unescape(EscapeKey(key)) == key
  {
    FirstPass(key);
    SecondPass(key);
  }

  // ---- keys a path can carry unescaped ---------------------------------------

  predicate Contains2(s: string, a: char, b: char) {
    exists i | 0 <= i < |s| - 1 :: s[i] == a && s[i + 1] == b
  }

  /** The key reads back as itself: no `/`, and no `~0` or `~1` inside. */
  predicate PlainKey(key: string) {
    '/' !in key && !Contains2(key, '~', '0') && !Contains2(key, '~', '1')
  }

  lemma {:induction false} ReplaceShrinks(s: string, a: char, b: char, c: char)
    ensures |Replace(s, a, b, c)| <= |s|
    ensures Contains2(s, a, b) ==> |Replace(s, a, b, c)| < |s|
    ensures !Contains2(s, a, b) ==> Replace(s, a, b, c) == s
    decreases |s|
  {
    if |s| < 2 {
    } else if s[0] == a && s[1] == b {
      ReplaceShrinks(s[2..], a, b, c);
    } else {
      var t := s[1..];
      ReplaceShrinks(t, a, b, c);
      if Contains2(s, a, b) {
        var i :| 0 <= i < |s| - 1 && s[i] == a && s[i + 1] == b;
        assert t[i - 1] == a && t[i - 1 + 1] == b;
      }
      if Contains2(t, a, b) {
        var i :| 0 <= i < |t| - 1 && t[i] == a && t[i + 1] == b;
        assert s[i + 1] == a && s[i + 1 + 1] == b;
      }
    }
  }

  /** A token is read as itself exactly when it holds neither escape. */
  lemma UnescapeFixes(t: string)
    ensures Unescape(t) == t <==> !Contains2(t, '~', '0') && !Contains2(t, '~', '1')
  {
    ReplaceShrinks(t, '~', '1', '/');
    ReplaceShrinks(Replace(t, '~', '1', '/'), '~', '0', '~');
  }

  // ---- walking a document ----------------------------------------------------

  function Tokens(pointer: string): seq<string> {
    UnescapeAll(Split(pointer, '/')[1..])
  }

  function UnescapeAll(parts: seq<string>): (r: seq<string>)
    ensures |r| == |parts| && forall i | 0 <= i < |r| :: r[i] == Unescape(parts[i])
  {
    seq(|parts|, i requires 0 <= i < |parts| => Unescape(parts[i]))
  }

  /** One step of `json_pointer`: a member of an object, or a decimal index into a list. */
  function Child(node: Value, token: string): Option<Value> {
    if node.Obj? && Has(node.fields, token) then Get(node.fields, token)
    else if node.Arr? && token != "" && AllDigits(token) && NatValue(token) < |node.items|
      then Some(node.items[NatValue(token)])
    else None
  }

  function Walk(node: Value, tokens: seq<string>): Option<Value> {
    if tokens == [] then Some(node)
    else
      match Child(node, tokens[0])
      case None => None
      case Some(next) => Walk(next, tokens[1..])
  }

  /** `json_pointer`: does the pointer name anything in the document? */
  method JsonPointer(doc: Value, pointer: string) returns (found: bool)
    ensures found <==> Walk(doc, Tokens(pointer)).Some?
  {
    var node := doc;
    var parts := Split(pointer, '/')[1..];
    var i := 0;
    while i < |parts|
      invariant 0 <= i <= |parts|
      invariant Walk(doc, Tokens(pointer)) == Walk(node, Tokens(pointer)[i..])
    {
      var token := Unescape(parts[i]);
      assert Tokens(pointer)[i..][0] == token && Tokens(pointer)[i..][1..] == Tokens(pointer)[i + 1..];
      if node.Obj? && Has(node.fields, token) {
        node := Get(node.fields, token).value;
      } else if node.Arr? && token != "" && AllDigits(token) && NatValue(token) < |node.items| {
        node := node.items[NatValue(token)];
      } else {
        return false;
      }
      i := i + 1;
    }
    return true;
  }

  // ---- the paths in findings -------------------------------------------------

  datatype Step = Key(name: string) | Index(i: nat)

  function StepText(s: Step): string {
    match s case Key(name) => name case Index(i) => NatText(i)
  }

  function StepTexts(steps: seq<Step>): (r: seq<string>)
    ensures |r| == |steps| && forall i | 0 <= i < |r| :: r[i] == StepText(steps[i])
  {
    seq(|steps|, i requires 0 <= i < |steps| => StepText(steps[i]))
  }

  /** The path text the evaluator builds: `f"{path}/{name}"`, nothing escaped. */
  function PathText(steps: seq<Step>): string {
    JoinPath(StepTexts(steps))
  }

  function JoinPath(texts: seq<string>): string {
    if texts == [] then "" else "/" + texts[0] + JoinPath(texts[1..])
  }

  /** The value the steps lead to. */
  function Locate(v: Value, steps: seq<Step>): Option<Value> {
    if steps == [] then Some(v)
    else
      match steps[0]
      case Key(name) =>
        if v.Obj? && Has(v.fields, name) then Locate(Get(v.fields, name).value, steps[1..]) else None
      case Index(i) =>
        if v.Arr? && i < |v.items| then Locate(v.items[i], steps[1..]) else None
  }

  lemma {:induction false} SplitAtSeparator(a: string, rest: string, sep: char)
    requires sep !in a
    ensures Split(a + [sep] + rest, sep) == [a] + Split(rest, sep)
  {
    var s := a + [sep] + rest;
    if a == "" {
      assert s[1..] == rest;
    } else {
      assert s[1..] == a[1..] + [sep] + rest;
      SplitAtSeparator(a[1..], rest, sep);
      assert [s[0]] + a[1..] == a;
    }
  }

  lemma {:induction false} SplitWhole(a: string, sep: char)
    requires sep !in a
    ensures Split(a, sep) == [a]
  {
    if a == "" {
    } else {
      SplitWhole(a[1..], sep);
      assert a == [a[0]] + a[1..];
    }
  }

  lemma {:induction false} SplitJoined(first: string, texts: seq<string>)
    requires '/' !in first && forall t | t in texts :: '/' !in t
    ensures Split(first + JoinPath(texts), '/') == [first] + texts
    decreases texts
  {
    if texts == [] {
      assert first + JoinPath(texts) == first;
      SplitWhole(first, '/');
    } else {
      assert first + JoinPath(texts) == first + ['/'] + (texts[0] + JoinPath(texts[1..]));
      SplitAtSeparator(first, texts[0] + JoinPath(texts[1..]), '/');
      SplitJoined(texts[0], texts[1..]);
      assert texts == [texts[0]] + texts[1..];
    }
  }

  function Slashes(s: string): nat {
    if s == "" then 0 else (if s[0] == '/' then 1 else 0) + Slashes(s[1..])
  }

  lemma {:induction false} SplitCounts(s: string)
    ensures |Split(s, '/')| == 1 + Slashes(s)
  {
    if s == "" {
    } else {
      SplitCounts(s[1..]);
    }
  }

  lemma {:induction false} SlashesJoin(a: string, b: string)
    ensures Slashes(a + b) == Slashes(a) + Slashes(b)
    ensures '/' in a ==> Slashes(a) > 0
  {
    if a == "" {
      assert a + b == b;
    } else {
      assert (a + b)[1..] == a[1..] + b;
      SlashesJoin(a[1..], b);
    }
  }

  lemma {:induction false} SlashesJoinPath(texts: seq<string>)
    ensures Slashes(JoinPath(texts)) >= |texts|
    ensures (exists t | t in texts :: '/' in t) ==> Slashes(JoinPath(texts)) > |texts|
  {
    if texts == [] {
    } else {
      SlashesJoinPath(texts[1..]);
      SlashesJoin("/" + texts[0], JoinPath(texts[1..]));
      SlashesJoin("/", texts[0]);
      SlashesJoin(texts[0], "");
      assert Slashes("/") == 1;
      assert texts == [texts[0]] + texts[1..];
    }
  }

  /** Reading a path as a pointer gives back the keys it was built from exactly when every key is
      plain; one `/`, `~0` or `~1` in one key and it does not. */
  lemma PathReadsBack(texts: seq<string>)
    ensures Tokens(JoinPath(texts)) == texts <==> forall t | t in texts :: PlainKey(t)
  {
    forall t ensures Unescape(t) == t <==> !Contains2(t, '~', '0') && !Contains2(t, '~', '1') {
      UnescapeFixes(t);
    }
    if forall t | t in texts :: '/' !in t {
      SplitJoined("", texts);
      assert "" + JoinPath(texts) == JoinPath(texts);
      assert Split(JoinPath(texts), '/')[1..] == texts;
      if forall t | t in texts :: PlainKey(t) {
        forall i | 0 <= i < |texts| ensures Unescape(texts[i]) == texts[i] {
          assert texts[i] in texts;
          UnescapeFixes(texts[i]);
        }
      }
      if Tokens(JoinPath(texts)) == texts {
        forall t | t in texts ensures PlainKey(t) {
          var i :| 0 <= i < |texts| && texts[i] == t;
          assert Unescape(texts[i]) == texts[i];
        }
      }
    } else {
      SlashesJoinPath(texts);
      SplitCounts(JoinPath(texts));
    }
  }

  lemma {:induction false} WalkFollowsSteps(v: Value, steps: seq<Step>)
    requires Locate(v, steps).Some?
    ensures Walk(v, StepTexts(steps)) == Locate(v, steps)
  {
    if steps == [] {
    } else {
      var texts := StepTexts(steps);
      assert texts[1..] == StepTexts(steps[1..]);
      match steps[0] {
        case Key(name) => WalkFollowsSteps(Get(v.fields, name).value, steps[1..]);
        case Index(i) =>
          NatRoundTrip(i);
          WalkFollowsSteps(v.items[i], steps[1..]);
      }
    }
  }

  predicate PlainSteps(steps: seq<Step>) {
    forall i | 0 <= i < |steps| :: steps[i].Key? ==> PlainKey(steps[i].name)
  }

  lemma DigitsArePlain(t: string)
    requires AllDigits(t)
    ensures PlainKey(t)
  {
  }

  /** A path made of plain keys resolves, as a pointer, to the very value the steps lead to. */
  lemma PlainPathResolves(v: Value, steps: seq<Step>)
    requires Locate(v, steps).Some? && PlainSteps(steps)
    ensures Walk(v, Tokens(PathText(steps))) == Locate(v, steps)
  {
    forall t | t in StepTexts(steps) ensures PlainKey(t) {
      var i :| 0 <= i < |steps| && StepTexts(steps)[i] == t;
      if steps[i].Index? {
        NatRoundTrip(steps[i].i);
        DigitsArePlain(t);
      }
    }
    PathReadsBack(StepTexts(steps));
    WalkFollowsSteps(v, steps);
  }
}
