/** What each keyword asks of a value, before any recursion: Python's equality, types and bounds,
    next to what JSON Schema 2020-12 says where the two differ. */
module SchemaMeaning {
  import opened Options
  import opened Json
  import opened Numerals
  import opened SchemaGraph
  import CanonicalJson
  import Orders

  // ---- equality --------------------------------------------------------------

  predicate Numeric(v: Value) { v.Bool? || v.Int? || v.Float? }

  function Number(num: string -> real, v: Value): real
    requires Numeric(v)
  {
    match v
    case Bool(b) => if b then 1.0 else 0.0
    case Int(n) => n as real
    case Float(lex) => num(lex)
  }

  /** Python's `==`: a `bool` is the number 0 or 1, and `1 == 1.0`. */
  predicate PyEq(num: string -> real, a: Value, b: Value)
    decreases a
  {
    if Numeric(a) || Numeric(b) then Numeric(a) && Numeric(b) && Number(num, a) == Number(num, b)
    else
      match (a, b)
      case (Arr(x), Arr(y)) => |x| == |y| && forall i | 0 <= i < |x| :: PyEq(num, x[i], y[i])
      case (Obj(f), Obj(g)) =>
        && |f| == |g|
        && forall i | 0 <= i < |f| :: Has(g, f[i].key) && PyEq(num, f[i].val, Get(g, f[i].key).value)
      case _ => a == b
  }

  /** Instance equality of JSON Schema Core section 4.2.2: numbers by value, and a boolean is never
      a number. */
  predicate DataEq(num: string -> real, a: Value, b: Value)
    decreases a
  {
    match (a, b)
    case (Int(m), Float(y)) => m as real == num(y)
    case (Float(x), Int(n)) => num(x) == n as real
    case (Float(x), Float(y)) => num(x) == num(y)
    case (Arr(x), Arr(y)) => |x| == |y| && forall i | 0 <= i < |x| :: DataEq(num, x[i], y[i])
    case (Obj(f), Obj(g)) =>
      && |f| == |g|
      && forall i | 0 <= i < |f| :: Has(g, f[i].key) && DataEq(num, f[i].val, Get(g, f[i].key).value)
    case _ => a == b
  }

  /** Nowhere in the two does a boolean stand where the other has a number. */
  predicate BooleansAlign(a: Value, b: Value)
    decreases a
  {
    match (a, b)
    case (Arr(x), Arr(y)) => forall i | 0 <= i < |x| && i < |y| :: BooleansAlign(x[i], y[i])
    case (Obj(f), Obj(g)) =>
      forall i | 0 <= i < |f| && Has(g, f[i].key) :: BooleansAlign(f[i].val, Get(g, f[i].key).value)
    case _ => Numeric(a) && Numeric(b) ==> a.Bool? == b.Bool?
  }

  /** The code's `const` and `enum` equality is the standard's exactly where booleans align. */
  lemma {:induction false} PyEqVersusStandard(num: string -> real, a: Value, b: Value)
    ensures DataEq(num, a, b) <==> PyEq(num, a, b) && BooleansAlign(a, b)
    decreases a
  {
    if !(a.Arr? && b.Arr?) && !(a.Obj? && b.Obj?) {
    } else if a.Arr? {
      forall i | 0 <= i < |a.items| && i < |b.items|
        ensures DataEq(num, a.items[i], b.items[i]) <==>
                PyEq(num, a.items[i], b.items[i]) && BooleansAlign(a.items[i], b.items[i])
      {
        PyEqVersusStandard(num, a.items[i], b.items[i]);
      }
    } else {
      forall i | 0 <= i < |a.fields| && Has(b.fields, a.fields[i].key)
        ensures
          var x, y := a.fields[i].val, Get(b.fields, a.fields[i].key).value;
          DataEq(num, x, y) <==> PyEq(num, x, y) && BooleansAlign(x, y)
      {
        PyEqVersusStandard(num, a.fields[i].val, Get(b.fields, a.fields[i].key).value);
      }
    }
  }

  /** `{"const": 1}` accepts `true` here and not under the standard. */
  lemma TrueEqualsOne(num: string -> real)
    ensures PyEq(num, Bool(true), Int(1)) && !DataEq(num, Bool(true), Int(1))
    ensures !BooleansAlign(Bool(true), Int(1))
  {
  }

  /** Nowhere in the two does an integer stand against a float, or a float against another spelling of
      its value. */
  predicate NumbersAlign(num: string -> real, a: Value, b: Value)
    decreases a
  {
    match (a, b)
    case (Arr(x), Arr(y)) => forall i | 0 <= i < |x| && i < |y| :: NumbersAlign(num, x[i], y[i])
    case (Obj(f), Obj(g)) =>
      forall i | 0 <= i < |f| && Has(g, f[i].key) :: NumbersAlign(num, f[i].val, Get(g, f[i].key).value)
    case (Float(x), Float(y)) => num(x) == num(y) ==> x == y
    case _ => !(a.Int? && b.Float?) && !(a.Float? && b.Int?)
  }

  /** Two items print alike, which is how `uniqueItems` compares them, exactly when the standard calls
      them equal and their numbers are written alike. */
  lemma {:induction false} SameJsonVersusStandard(num: string -> real, a: Value, b: Value)
    ensures SameJson(a, b) <==> DataEq(num, a, b) && NumbersAlign(num, a, b)
    decreases a
  {
    if !(a.Arr? && b.Arr?) && !(a.Obj? && b.Obj?) {
    } else if a.Arr? {
      forall i | 0 <= i < |a.items| && i < |b.items|
        ensures SameJson(a.items[i], b.items[i]) <==>
                DataEq(num, a.items[i], b.items[i]) && NumbersAlign(num, a.items[i], b.items[i])
      {
        SameJsonVersusStandard(num, a.items[i], b.items[i]);
      }
    } else {
      forall i | 0 <= i < |a.fields| && Has(b.fields, a.fields[i].key)
        ensures
          var x, y := a.fields[i].val, Get(b.fields, a.fields[i].key).value;
          SameJson(x, y) <==> DataEq(num, x, y) && NumbersAlign(num, x, y)
      {
        SameJsonVersusStandard(num, a.fields[i].val, Get(b.fields, a.fields[i].key).value);
      }
    }
  }

  // ---- keyword values --------------------------------------------------------

  const SUPPORTED: set<string> := {
    "$schema", "$id", "$comment", "$defs", "$ref", "title", "description",
    "type", "enum", "const", "properties", "required", "additionalProperties",
    "items", "minItems", "uniqueItems", "minLength", "maxLength", "pattern",
    "minimum", "maximum", "exclusiveMinimum", "exclusiveMaximum",
    "allOf", "if", "then", "else"
  }

  predicate AllSupported(fields: seq<Member>) {
    forall i | 0 <= i < |fields| :: fields[i].key in SUPPORTED
  }

  predicate KnownType(t: Value) {
    t.Str? && t.s in {"object", "array", "string", "boolean", "null", "integer", "number"}
  }

  /** `_type_ok`: `1.0` is not an integer, and a boolean is not a number. */
  predicate HasType(v: Value, t: string) {
    match t
    case "object" => v.Obj?
    case "array" => v.Arr?
    case "string" => v.Str?
    case "boolean" => v.Bool?
    case "null" => v.Null?
    case "integer" => v.Int?
    case "number" => v.Int? || v.Float?
    case _ => false
  }

  /** Validation section 6.1.1: a number with a zero fractional part is an integer. */
  predicate StandardInteger(num: string -> real, v: Value) {
    v.Int? || (v.Float? && num(v.lex) == num(v.lex).Floor as real)
  }

  /** The code's `integer` is the standard's for every value but a float of whole value. */
  lemma IntegerVersusStandard(num: string -> real, v: Value)
    ensures (HasType(v, "integer") <==> StandardInteger(num, v))
       <==> !(v.Float? && num(v.lex) == num(v.lex).Floor as real)
  {
  }

  /** `1.0` is an integer to the standard and not here. */
  lemma WholeFloatIsNoInteger(num: string -> real)
    requires num("1.0") == 1.0
    ensures StandardInteger(num, Float("1.0")) && !HasType(Float("1.0"), "integer")
  {
  }

  function TypeNames(t: Value): seq<Value> {
    if t.Arr? then t.items else [t]
  }

  predicate Truthy(num: string -> real, v: Value) {
    match v
    case Null => false
    case Str(s) => s != ""
    case Arr(items) => items != []
    case Obj(fields) => fields != []
    case _ => Number(num, v) != 0.0
  }

  function Properties(f: seq<Member>): seq<Member> {
    match Get(f, "properties") case Some(Obj(props)) => props case _ => []
  }

  // ---- what the keywords ask, apart from how they are checked -----------------------

  const ASSERTIONS: set<string> := {
    "type", "enum", "const", "minLength", "maxLength", "pattern", "minimum", "maximum",
    "exclusiveMinimum", "exclusiveMaximum", "minItems", "uniqueItems", "required"
  }
  const APPLICATORS: set<string> := {
    "$ref", "properties", "additionalProperties", "items", "allOf", "if", "then", "else"
  }
  const ANNOTATIONS: set<string> := {"$schema", "$id", "$comment", "$defs", "title", "description"}

  /** Every keyword of the schema asserts something, applies a schema or annotates. */
  predicate Understood(f: seq<Member>) {
    forall i | 0 <= i < |f| :: f[i].key in ASSERTIONS + APPLICATORS + ANNOTATIONS
  }

  lemma SupportedIsUnderstood(f: seq<Member>)
    ensures AllSupported(f) <==> Understood(f)
  {
    assert SUPPORTED == ASSERTIONS + APPLICATORS + ANNOTATIONS;
  }

  /** The names of a value's types; a float is no integer here. */
  function TypesOf(v: Value): set<string> {
    match v
    case Null => {"null"}
    case Bool(_) => {"boolean"}
    case Int(_) => {"integer", "number"}
    case Float(_) => {"number"}
    case Str(_) => {"string"}
    case Arr(_) => {"array"}
    case Obj(_) => {"object"}
  }

  /** A type name is one that some value has. */
  ghost predicate IsTypeName(t: Value) {
    t.Str? && exists w: Value :: t.s in TypesOf(w)
  }

  /** Some name fits, and up to it all are type names. */
  ghost predicate OneFits(v: Value, names: seq<Value>) {
    exists i | 0 <= i < |names| :: names[i].Str? && names[i].s in TypesOf(v) && forall j | 0 <= j < i :: IsTypeName(names[j])
  }

  ghost predicate NoneFits(v: Value, names: seq<Value>) {
    forall i | 0 <= i < |names| :: IsTypeName(names[i]) && names[i].s !in TypesOf(v)
  }

  ghost predicate TypeHolds(v: Value, f: seq<Member>) {
    match Get(f, "type") case None => true case Some(Arr(names)) => OneFits(v, names) case Some(t) => OneFits(v, [t])
  }

  ghost predicate TypeFails(v: Value, f: seq<Member>) {
    match Get(f, "type") case None => false case Some(Arr(names)) => NoneFits(v, names) case Some(t) => NoneFits(v, [t])
  }

  predicate ConstHolds(env: Env, v: Value, f: seq<Member>) {
    match Get(f, "const") case None => true case Some(c) => PyEq(env.num, v, c)
  }

  predicate EnumHolds(env: Env, v: Value, f: seq<Member>) {
    match Get(f, "enum")
    case Some(Arr(choices)) => exists c | c in choices :: PyEq(env.num, v, c)
    case _ => true
  }

  /** The bound a numeric keyword states; to Python a boolean is a number. */
  function Bound(env: Env, f: seq<Member>, key: string): Option<real> {
    match Get(f, key)
    case Some(Int(n)) => Some(n as real)
    case Some(Float(lex)) => Some(env.num(lex))
    case Some(Bool(b)) => Some(if b then 1.0 else 0.0)
    case _ => None
  }

  predicate LengthHolds(env: Env, v: Value, f: seq<Member>) {
    v.Str? ==>
      && (Bound(env, f, "minLength").Some? ==> Bound(env, f, "minLength").value <= |v.s| as real)
      && (Bound(env, f, "maxLength").Some? ==> |v.s| as real <= Bound(env, f, "maxLength").value)
  }

  predicate PatternHolds(env: Env, v: Value, f: seq<Member>) {
    v.Str? ==> match Get(f, "pattern") case Some(Str(p)) => env.search(p, v.s) case _ => true
  }

  predicate InRange(env: Env, x: real, f: seq<Member>) {
    && (Bound(env, f, "minimum").Some? ==> Bound(env, f, "minimum").value <= x)
    && (Bound(env, f, "maximum").Some? ==> x <= Bound(env, f, "maximum").value)
    && (Bound(env, f, "exclusiveMinimum").Some? ==> Bound(env, f, "exclusiveMinimum").value < x)
    && (Bound(env, f, "exclusiveMaximum").Some? ==> x < Bound(env, f, "exclusiveMaximum").value)
  }

  predicate RangeHolds(env: Env, v: Value, f: seq<Member>) {
    match v case Int(n) => InRange(env, n as real, f) case Float(lex) => InRange(env, env.num(lex), f) case _ => true
  }

  predicate RequiredHolds(v: Value, f: seq<Member>) {
    v.Obj? ==>
      match Get(f, "required")
      case Some(Arr(names)) => forall name | name in names && name.Str? :: exists m | m in v.fields :: m.key == name.s
      case _ => true
  }

  predicate CountHolds(env: Env, v: Value, f: seq<Member>) {
    v.Arr? && Bound(env, f, "minItems").Some? ==> Bound(env, f, "minItems").value <= |v.items| as real
  }

  /** What Python takes for false. */
  predicate Falsy(num: string -> real, k: Value) {
    k in {Null, Bool(false), Int(0), Str(""), Arr([]), Obj([])} || (k.Float? && num(k.lex) == 0.0)
  }

  /** No two items are the same document. */
  predicate UniqueHolds(env: Env, v: Value, f: seq<Member>) {
    v.Arr? && Get(f, "uniqueItems").Some? && !Falsy(env.num, Get(f, "uniqueItems").value) ==>
      forall i, j | 0 <= i < j < |v.items| :: !SameJson(v.items[i], v.items[j])
  }

  // ---- where a keyword makes sense -----------------------------------------------

  predicate IsNumber(f: seq<Member>, key: string) {
    match Get(f, key) case None => true case Some(b) => b.Int? || b.Float? || b.Bool?
  }

  /** The keywords about a value of this kind have values one can check it against. */
  predicate ScalarsSensible(v: Value, f: seq<Member>) {
    && (match Get(f, "enum") case None => true case Some(e) => e.Arr?)
    && (v.Str? ==> IsNumber(f, "minLength") && IsNumber(f, "maxLength") && match Get(f, "pattern") case None => true case Some(p) => p.Str?)
    && (v.Int? || v.Float? ==>
          IsNumber(f, "minimum") && IsNumber(f, "maximum") && IsNumber(f, "exclusiveMinimum") && IsNumber(f, "exclusiveMaximum"))
  }

  predicate RequiredSensible(f: seq<Member>) {
    match Get(f, "required") case None => true case Some(Arr(names)) => (forall name | name in names :: name.Str?) case _ => false
  }

  // ---- uniqueness by printed text --------------------------------------------

  function Texts(items: seq<Value>): (r: seq<string>)
    ensures |r| == |items|
    ensures forall i | 0 <= i < |r| :: r[i] == CanonicalJson.Dumps(items[i], true, true)
  {
    seq(|items|, i requires 0 <= i < |items| => CanonicalJson.Dumps(items[i], true, true))
  }

  /** `len(seen) != len(set(seen))`. */
  predicate AnyRepeated(texts: seq<string>) {
    |set t | t in texts| != |texts|
  }

  /** Comparing printed texts finds exactly the repeated documents: `1` and `1.0` are different
      items, two objects that differ in member order are not. */
  lemma TextsFindRepeats(items: seq<Value>)
    requires forall i | 0 <= i < |items| :: WellFormed(items[i])
    ensures AnyRepeated(Texts(items)) <==>
            exists i, j :: 0 <= i < j < |items| && SameJson(items[i], items[j])
  {
    Orders.RepeatsShrinkTheSet(Texts(items));
    forall i, j | 0 <= i < j < |items|
      ensures Texts(items)[i] == Texts(items)[j] <==> SameJson(items[i], items[j])
    {
      CanonicalJson.DumpsDeterminesValue(items[i], items[j], true, true);
    }
  }

  /** `uniqueItems` against the standard: the code reports a repeat exactly when two items are equal by
      the standard and write their numbers alike. */
  lemma UniqueVersusStandard(num: string -> real, items: seq<Value>)
    requires forall i | 0 <= i < |items| :: WellFormed(items[i])
    ensures AnyRepeated(Texts(items)) <==>
            exists i, j :: 0 <= i < j < |items| && DataEq(num, items[i], items[j]) && NumbersAlign(num, items[i], items[j])
  {
    TextsFindRepeats(items);
    forall i, j | 0 <= i < j < |items|
      ensures SameJson(items[i], items[j]) <==> DataEq(num, items[i], items[j]) && NumbersAlign(num, items[i], items[j])
    {
      SameJsonVersusStandard(num, items[i], items[j]);
    }
  }

  /** `[1, 1.0]` repeats an item by the standard and not here. */
  lemma OneAndOnePointZeroAreUnique(num: string -> real)
    requires num("1.0") == 1.0
    ensures DataEq(num, Int(1), Float("1.0")) && !AnyRepeated(Texts([Int(1), Float("1.0")]))
  {
    var items := [Int(1), Float("1.0")];
    OnePointZeroIsFloat();
    TextsFindRepeats(items);
  }

  lemma OnePointZeroIsFloat()
    ensures FloatLex("1.0")
  {
    assert LeadingDigits("0") == 1 + LeadingDigits("0"[1..]);
    assert "1.0"[1..] == ".0" && "1.0"[1 + 1..] == "0";
    assert LeadingDigits(".0") == 0;
    assert LeadingDigits("1.0") == 1;
    assert Unsigned("1.0") == "1.0";
  }
}
