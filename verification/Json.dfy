/** Decimal numerals: how Python prints an `int`, and the JSON grammar of numbers. */
module Numerals {

  predicate Digit(c: char) { '0' <= c <= '9' }

  predicate AllDigits(s: string) { forall i | 0 <= i < |s| :: Digit(s[i]) }

  function DigitText(d: nat): char
    requires d < 10
  {
    (d + '0' as int) as char
  }

  function NatText(n: nat): string {
    if n < 10 then [DigitText(n)] else NatText(n / 10) + [DigitText(n % 10)]
  }

  function NatValue(s: string): nat
    requires AllDigits(s)
  {
    if s == "" then 0
    else NatValue(s[..|s| - 1]) * 10 + (s[|s| - 1] as int - '0' as int)
  }

  /** Reading a printed number gives it back; the text has digits only and no leading zero. */
  lemma {:induction false} NatRoundTrip(n: nat)
    ensures AllDigits(NatText(n)) && NatText(n) != ""
    ensures NatText(n)[0] == '0' ==> n == 0
    ensures NatValue(NatText(n)) == n
  {
    if n < 10 {
    } else {
      NatRoundTrip(n / 10);
      var t := NatText(n / 10);
      assert NatText(n)[..|NatText(n)| - 1] == t;
    }
  }

  function IntText(n: int): string {
    if n < 0 then "-" + NatText(-n) else NatText(n)
  }

  function Unsigned(w: string): string {
    if w != "" && w[0] == '-' then w[1..] else w
  }

  /** The JSON grammar of an integer: an optional minus, no leading zero. */
  predicate IntLex(w: string) {
    var b := Unsigned(w);
    b == "0" || (b != "" && AllDigits(b) && b[0] != '0')
  }

  function IntValue(w: string): int
    requires IntLex(w)
  {
    var b := Unsigned(w);
    if |b| < |w| then 0 - NatValue(b) else NatValue(b)
  }

  lemma IntRoundTrip(n: int)
    ensures IntLex(IntText(n)) && IntValue(IntText(n)) == n
    ensures forall c | c in IntText(n) :: WordChar(c)
  {
    NatRoundTrip(if n < 0 then -n else n);
    if n < 0 {
      assert Unsigned(IntText(n)) == NatText(-n);
    }
  }

  /** The characters a number or a literal name is made of. */
  predicate WordChar(c: char) {
    Digit(c) || 'a' <= c <= 'z' || 'A' <= c <= 'Z' || c == '+' || c == '-' || c == '.'
  }

  function LeadingDigits(s: string): (k: nat)
    ensures k <= |s| && AllDigits(s[..k])
    ensures AllDigits(s) ==> k == |s|
  {
    if s == "" || !Digit(s[0]) then 0
    else
      var k := 1 + LeadingDigits(s[1..]);
      assert s[..k] == [s[0]] + s[1..][..k - 1];
      assert AllDigits(s) ==> AllDigits(s[1..]);
      k
  }

  predicate Exponent(r: string) {
    r != "" && r[0] in {'e', 'E'} &&
    var t := r[1..];
    var d := if t != "" && t[0] in {'+', '-'} then t[1..] else t;
    d != "" && AllDigits(d)
  }

  /** The JSON grammar of a number that is not an integer. */
  predicate FloatLex(w: string) {
    var b := Unsigned(w);
    var k := LeadingDigits(b);
    && (forall c | c in w :: WordChar(c))
    && 0 < k < |b|
    && (b[0] != '0' || k == 1)
    && if b[k] == '.' then
         var m := LeadingDigits(b[k + 1..]);
         0 < m && (k + 1 + m == |b| || Exponent(b[k + 1 + m..]))
       else Exponent(b[k..])
  }

  lemma FloatIsNotInt(w: string)
    requires FloatLex(w)
    ensures !IntLex(w) && w != "" && w !in {"true", "false", "null"}
  {
  }
}

/** A JSON document as Python holds it after `json.loads`: objects keep insertion order, integers
    and floats are different types, and a float is the text `repr` gives it. */
module Json {
  import opened Options
  import opened Numerals

  datatype Member = Member(key: string, val: Value)

  datatype Value =
    | Null
    | Bool(b: bool)
    | Int(n: int)
    | Float(lex: string)
    | Str(s: string)
    | Arr(items: seq<Value>)
    | Obj(fields: seq<Member>)

  function Get(fields: seq<Member>, key: string): (r: Option<Value>)
    ensures r.Some? ==> Member(key, r.value) in fields
    ensures r.None? ==> forall i | 0 <= i < |fields| :: fields[i].key != key
  {
    if fields == [] then None
    else if fields[0].key == key then Some(fields[0].val)
    else Get(fields[1..], key)
  }

  predicate Has(fields: seq<Member>, key: string) {
    Get(fields, key).Some?
  }

  /** `d[key] = val`: a key already present keeps its place. */
  function Put(fields: seq<Member>, key: string, val: Value): seq<Member> {
    if fields == [] then [Member(key, val)]
    else if fields[0].key == key then [Member(key, val)] + fields[1..]
    else [fields[0]] + Put(fields[1..], key, val)
  }

  /** `{k: v for k, v in d.items() if k != key}`. */
  function Without(fields: seq<Member>, key: string): seq<Member> {
    if fields == [] then []
    else if fields[0].key == key then Without(fields[1..], key)
    else [fields[0]] + Without(fields[1..], key)
  }

  predicate UniqueKeys(fields: seq<Member>) {
    forall i, j | 0 <= i < j < |fields| :: fields[i].key != fields[j].key
  }

  /** What `json.loads` can return: no key twice in an object, every float a number. */
  predicate WellFormed(v: Value) {
    match v
    case Float(lex) => FloatLex(lex)
    case Arr(items) => forall i | 0 <= i < |items| :: WellFormed(items[i])
    case Obj(fields) => UniqueKeys(fields) && forall i | 0 <= i < |fields| :: WellFormed(fields[i].val)
    case _ => true
  }

  lemma {:induction false} GetUnique(fields: seq<Member>, i: nat)
    requires UniqueKeys(fields) && i < |fields|
    ensures Get(fields, fields[i].key) == Some(fields[i].val)
  {
    if i == 0 {
    } else {
      GetUnique(fields[1..], i - 1);
    }
  }

  lemma {:induction false} PutFresh(fields: seq<Member>, key: string, val: Value)
    requires !Has(fields, key)
    ensures Put(fields, key, val) == fields + [Member(key, val)]
  {
    if fields == [] {
    } else {
      PutFresh(fields[1..], key, val);
    }
  }

  lemma {:induction false} HasIff(fields: seq<Member>, key: string)
    ensures Has(fields, key) <==> exists i | 0 <= i < |fields| :: fields[i].key == key
  {
    if Has(fields, key) {
      var m := Member(key, Get(fields, key).value);
      var i :| 0 <= i < |fields| && fields[i] == m;
      assert fields[i].key == key;
    }
  }

  function Keys(fields: seq<Member>): set<string> {
    set i | 0 <= i < |fields| :: fields[i].key
  }

  lemma {:induction false} KeyCount(fields: seq<Member>)
    requires UniqueKeys(fields)
    ensures |Keys(fields)| == |fields|
  {
    if fields == [] {
    } else {
      var rest := fields[1..];
      KeyCount(rest);
      assert forall i | 1 <= i < |fields| :: fields[i] == rest[i - 1];
      assert forall i | 0 <= i < |rest| :: rest[i] == fields[i + 1];
      assert Keys(fields) == {fields[0].key} + Keys(rest);
      assert fields[0].key !in Keys(rest);
    }
  }

  lemma KeysAre(fields: seq<Member>, key: string)
    ensures key in Keys(fields) <==> Has(fields, key)
  {
    HasIff(fields, key);
  }

  /** The same document: member order does not count, everything else does, and `1`, `1.0` and
      `true` are three different values. */
  predicate SameJson(a: Value, b: Value) {
    match (a, b)
    case (Arr(x), Arr(y)) => |x| == |y| && forall i | 0 <= i < |x| :: SameJson(x[i], y[i])
    case (Obj(f), Obj(g)) =>
      && |f| == |g|
      && forall i | 0 <= i < |f| :: Has(g, f[i].key) && SameJson(f[i].val, Get(g, f[i].key).value)
    case _ => a == b
  }
}
