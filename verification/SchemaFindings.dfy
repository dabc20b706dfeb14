/** What the evaluator reports is so: every finding names a keyword that fails, at a value inside the
    document, and every exception names a fault of the schema. */
module SchemaFindings {
  import opened Options
  import opened Json
  import opened Numerals
  import opened Pointers
  import opened SchemaGraph
  import opened SchemaMeaning
  import opened SchemaEval
  import opened SchemaTheorems

  // ---- where evaluation can get to -------------------------------------------------

  /** A node `validate` may recurse into from `n`. */
  ghost predicate SubSchema(env: Env, n: Node, c: Node) {
    || Edge(env, n, c)
    || (n.schema.Obj? && c.doc == n.doc &&
        (|| (match Get(n.schema.fields, "properties") case Some(Obj(props)) => (exists name :: Get(props, name) == Some(c.schema)) case _ => false)
         || (c.schema.Obj? && Get(n.schema.fields, "additionalProperties") == Some(c.schema))
         || Get(n.schema.fields, "items") == Some(c.schema)))
  }

  ghost predicate IsTrail(env: Env, p: seq<Node>) {
    p != [] && forall i | 0 <= i < |p| - 1 :: SubSchema(env, p[i], p[i + 1])
  }

  /** Evaluation at `a` can get to `b`. */
  ghost predicate Visits(env: Env, a: Node, b: Node) {
    exists p: seq<Node> :: IsTrail(env, p) && p[0] == a && p[|p| - 1] == b
  }

  lemma VisitsCons(env: Env, a: Node, b: Node, m: Node)
    requires SubSchema(env, a, b) && Visits(env, b, m)
    ensures Visits(env, a, m)
  {
    hide SubSchema;
    var p: seq<Node> :| IsTrail(env, p) && p[0] == b && p[|p| - 1] == m;
    var q := [a] + p;
    forall i | 0 <= i < |q| - 1 ensures SubSchema(env, q[i], q[i + 1]) {
      if i > 0 {
        assert q[i] == p[i - 1] && q[i + 1] == p[i];
        assert SubSchema(env, p[i - 1], p[i - 1 + 1]);
      }
    }
    assert IsTrail(env, q) && q[0] == a && q[|q| - 1] == m;
  }

  lemma VisitsItself(env: Env, n: Node)
    ensures Visits(env, n, n)
  {
    assert IsTrail(env, [n]);
  }

  lemma EdgeIsSub(env: Env, n: Node, c: Node)
    requires Edge(env, n, c)
    ensures SubSchema(env, n, c)
  {
  }

  lemma MemberIsSub(env: Env, n: Node, key: string)
    requires n.schema.Obj? && MemberSchema(n, key).Some?
    ensures SubSchema(env, n, MemberSchema(n, key).value)
  {
  }

  // ---- what a finding and what an exception say ------------------------------------

  function Worth(env: Env, v: Value): Option<real> {
    match v case Int(n) => Some(n as real) case Float(lex) => Some(env.num(lex)) case _ => None
  }

  /** Both are there and `x` is less than `y`. */
  predicate Less(x: Option<real>, y: Option<real>) { x.Some? && y.Some? && x.value < y.value }

  predicate AtMost(x: Option<real>, y: Option<real>) { x.Some? && y.Some? && x.value <= y.value }

  /** The value breaks the very rule of the schema that the finding names. */
  ghost predicate Breaks(env: Env, v: Value, schema: Value, rule: Rule) {
    schema.Obj? &&
    var f := schema.fields;
    match rule
    case WrongType => TypeFails(v, f)
    case NotConst => !ConstHolds(env, v, f)
    case NotInEnum => !EnumHolds(env, v, f)
    case TooShort => v.Str? && Less(Some(|v.s| as real), Bound(env, f, "minLength"))
    case TooLong => v.Str? && Less(Bound(env, f, "maxLength"), Some(|v.s| as real))
    case NoPatternMatch => !PatternHolds(env, v, f)
    case BelowMinimum => Less(Worth(env, v), Bound(env, f, "minimum"))
    case AboveMaximum => Less(Bound(env, f, "maximum"), Worth(env, v))
    case NotAboveMinimum => AtMost(Worth(env, v), Bound(env, f, "exclusiveMinimum"))
    case NotBelowMaximum => AtMost(Bound(env, f, "exclusiveMaximum"), Worth(env, v))
    case Missing(name) =>
      && v.Obj? && (forall m | m in v.fields :: m.key != name)
      && (match Get(f, "required") case Some(Arr(names)) => Str(name) in names case _ => false)
    case Unexpected(name) =>
      && v.Obj? && (exists m | m in v.fields :: m.key == name) && Get(f, "additionalProperties") == Some(Bool(false))
      && (match Get(f, "properties") case Some(Obj(props)) => (forall p | p in props :: p.key != name) case _ => true)
    case TooFewItems => v.Arr? && Less(Some(|v.items| as real), Bound(env, f, "minItems"))
    case NotUnique => !UniqueHolds(env, v, f)
  }

  predicate IsBound(key: string) {
    key in {"minLength", "maxLength", "minimum", "maximum", "exclusiveMinimum", "exclusiveMaximum", "minItems"}
  }

  /** Some keyword has a value of a shape the evaluator cannot use. */
  ghost predicate Misshapen(f: seq<Member>) {
    || (match Get(f, "$ref") case None => false case Some(ref) => !ref.Str?)
    || (match Get(f, "enum") case None => false case Some(e) => !e.Arr?)
    || (match Get(f, "pattern") case None => false case Some(p) => !p.Str?)
    || (exists key | IsBound(key) :: !IsNumber(f, key))
    || !RequiredSensible(f) || !MembersSensible(f)
    || (match Get(f, "allOf") case None => false case Some(subs) => !subs.Arr?)
  }

  /** What is wrong with the schema node, said by the exception. */
  ghost predicate Faulty(env: Env, m: Node, why: Refusal) {
    match why
    case UnsupportedKeyword => m.schema.Obj? && !Understood(m.schema.fields)
    case UnknownType =>
      m.schema.Obj? && (match Get(m.schema.fields, "type")
                        case None => false
                        case Some(Arr(names)) => (exists t | t in names :: !IsTypeName(t))
                        case Some(t) => !IsTypeName(t))
    case BadKeyword => m.schema.Obj? && Misshapen(m.schema.fields)
    case TooDeep => false
    case _ =>
      || (why.NotASchema? && !m.schema.Obj?)
      || (m.schema.Obj? && (match Get(m.schema.fields, "$ref")
                            case Some(Str(ref)) => Resolve(env.files, ref, m.doc) == NoTarget(why)
                            case _ => false))
  }

  /** The node has no fault of its own. */
  ghost predicate WellShaped(env: Env, n: Node) { forall why :: !Faulty(env, n, why) }

  /** The finding is about the value at `steps` and a rule of the node `m`. */
  ghost predicate BlamesAt(env: Env, v: Value, n: Node, base: string, e: Violation, steps: seq<Step>, m: Node) {
    && e.path == base + PathText(steps) && Locate(v, steps).Some?
    && Visits(env, n, m) && Breaks(env, Locate(v, steps).value, m.schema, e.rule)
  }

  ghost predicate Blames(env: Env, v: Value, n: Node, base: string, e: Violation) {
    exists steps: seq<Step>, m: Node :: BlamesAt(env, v, n, base, e, steps, m)
  }

  ghost predicate HasFault(env: Env, n: Node, why: Refusal) {
    exists m :: Visits(env, n, m) && Faulty(env, m, why)
  }

  /** Every finding about a JSON value extends `base` by steps to a value inside it that breaks the named
      rule of a node evaluation visits; an exception other than for want of stack is a fault of such a node. */
  ghost predicate Explained(env: Env, v: Value, n: Node, base: string, out: Outcome) {
    && (out.Checked? && WellFormed(v) ==> forall e | e in out.errors :: Blames(env, v, n, base, e))
    && (out.Refused? && out.why != TooDeep ==> HasFault(env, n, out.why))
  }

  // ---- the keywords about the value itself ------------------------------------------

  /** Findings and faults of the node's own, about `v` itself. */
  ghost predicate Own(env: Env, v: Value, n: Node, base: string, out: Outcome) {
    && (out.Checked? && WellFormed(v) ==> forall e | e in out.errors :: e.path == base && Breaks(env, v, n.schema, e.rule))
    && (out.Refused? ==> Faulty(env, n, out.why))
  }

  lemma OwnExplained(env: Env, v: Value, n: Node, base: string, out: Outcome)
    requires Own(env, v, n, base, out)
    ensures Explained(env, v, n, base, out)
  {
    hide Breaks, Faulty, Visits;
    VisitsItself(env, n);
    if out.Checked? && WellFormed(v) {
      forall e | e in out.errors ensures Blames(env, v, n, base, e) {
        assert base == base + PathText([]) && Locate(v, []) == Some(v);
        assert BlamesAt(env, v, n, base, e, [], n);
      }
    }
  }

  lemma AndOwn(env: Env, v: Value, n: Node, base: string, a: Outcome, b: Outcome)
    requires Own(env, v, n, base, a) && Own(env, v, n, base, b)
    ensures Own(env, v, n, base, And(a, b))
  {
    hide Breaks, Faulty;
  }

  lemma TypeOwn(env: Env, v: Value, n: Node, path: string)
    requires n.schema.Obj?
    ensures Own(env, v, n, path, CheckType(v, n.schema.fields, path))
  {
    hide TypeHolds, TypeFails, OneFits, NoneFits, AnyType;
    var f := n.schema.fields;
    TypeDecides(v, f, path);
    if CheckType(v, f, path).Refused? {
      var t := Get(f, "type").value;
      SomeUnknown(v, TypeNames(t));
    }
  }

  lemma {:induction false} SomeUnknown(v: Value, names: seq<Value>)
    requires AnyType(v, names).None?
    ensures exists t | t in names :: !IsTypeName(t)
  {
    hide HasType, IsTypeName;
    KnownIsTypeName(names[0]);
    if !KnownType(names[0]) {
      assert names[0] in names;
    } else {
      SomeUnknown(v, names[1..]);
    }
  }

  /** A bound that is broken, or is no number. */
  lemma CompareOwn(env: Env, v: Value, n: Node, key: string, breaks: real -> bool, path: string, rule: Rule)
    requires n.schema.Obj?
    requires IsBound(key)
    requires forall x | Bound(env, n.schema.fields, key) == Some(x) && breaks(x) :: Breaks(env, v, n.schema, rule)
    ensures Own(env, v, n, path, Compare(env, n.schema.fields, key, breaks, path, rule))
  {
    hide Breaks, Bound, IsNumber, Faulty, IsBound;
    BoundIsNumber(env, n.schema.fields, key);
    if !IsNumber(n.schema.fields, key) {
      BadBoundIsFault(env, n, key);
    }
  }

  lemma BadBoundIsFault(env: Env, n: Node, key: string)
    requires n.schema.Obj? && !IsNumber(n.schema.fields, key)
    requires IsBound(key)
    ensures Faulty(env, n, BadKeyword)
  {
    hide IsNumber, IsBound;
  }

  lemma ConstEnumOwn(env: Env, v: Value, n: Node, path: string)
    requires n.schema.Obj?
    ensures Own(env, v, n, path, CheckConstEnum(env, v, n.schema.fields, path))
  {
    hide PyEq, WellFormed;
    var f := n.schema.fields;
    var exact := When(Has(f, "const") && !PyEq(env.num, v, Get(f, "const").value), path, NotConst);
    assert Own(env, v, n, path, exact);
    EnumOwn(env, v, n, path);
  }

  lemma EnumOwn(env: Env, v: Value, n: Node, path: string)
    requires n.schema.Obj?
    ensures
      var f := n.schema.fields;
      Own(env, v, n, path,
          if !Has(f, "enum") then Checked([])
          else if !Get(f, "enum").value.Arr? then Refused(BadKeyword)
          else When(!exists c | c in Get(f, "enum").value.items :: PyEq(env.num, v, c), path, NotInEnum))
  {
    hide PyEq, WellFormed;
  }

  lemma StringOwn(env: Env, v: Value, n: Node, path: string)
    requires n.schema.Obj?
    ensures Own(env, v, n, path, CheckString(env, v, n.schema.fields, path))
  {
    hide Compare;
    if v.Str? {
      var f, size := n.schema.fields, |v.s| as real;
      CompareOwn(env, v, n, "minLength", x => size < x, path, TooShort);
      CompareOwn(env, v, n, "maxLength", x => size > x, path, TooLong);
      PatternOwn(env, v, n, path);
    }
  }

  lemma PatternOwn(env: Env, v: Value, n: Node, path: string)
    requires n.schema.Obj? && v.Str?
    ensures
      var f := n.schema.fields;
      Own(env, v, n, path,
          if !Has(f, "pattern") then Checked([])
          else if !Get(f, "pattern").value.Str? then Refused(BadKeyword)
          else When(!env.search(Get(f, "pattern").value.s, v.s), path, NoPatternMatch))
  {
  }

  lemma NumberOwn(env: Env, v: Value, n: Node, path: string)
    requires n.schema.Obj?
    ensures Own(env, v, n, path, CheckNumber(env, v, n.schema.fields, path))
  {
    hide Compare, Bound, Own;
    if v.Int? || v.Float? {
      var f, x := n.schema.fields, Number(env.num, v);
      assert Worth(env, v) == Some(x);
      var a := Compare(env, f, "minimum", y => x < y, path, BelowMinimum);
      var b := Compare(env, f, "maximum", y => x > y, path, AboveMaximum);
      var c := Compare(env, f, "exclusiveMinimum", y => x <= y, path, NotAboveMinimum);
      var d := Compare(env, f, "exclusiveMaximum", y => x >= y, path, NotBelowMaximum);
      CompareOwn(env, v, n, "minimum", y => x < y, path, BelowMinimum);
      CompareOwn(env, v, n, "maximum", y => x > y, path, AboveMaximum);
      CompareOwn(env, v, n, "exclusiveMinimum", y => x <= y, path, NotAboveMinimum);
      CompareOwn(env, v, n, "exclusiveMaximum", y => x >= y, path, NotBelowMaximum);
      AndOwn(env, v, n, path, c, d);
      AndOwn(env, v, n, path, b, And(c, d));
      AndOwn(env, v, n, path, a, And(b, And(c, d)));
    } else {
      NothingOwn(env, v, n, path);
    }
  }

  lemma NothingOwn(env: Env, v: Value, n: Node, path: string)
    ensures Own(env, v, n, path, Checked([]))
  {
  }

  lemma ScalarsOwn(env: Env, v: Value, n: Node, path: string)
    requires n.schema.Obj?
    ensures Own(env, v, n, path, CheckScalars(env, v, n.schema.fields, path))
  {
    hide Own, CheckConstEnum, CheckString, CheckNumber, And;
    var f := n.schema.fields;
    ConstEnumOwn(env, v, n, path);
    StringOwn(env, v, n, path);
    NumberOwn(env, v, n, path);
    AndOwn(env, v, n, path, CheckString(env, v, f, path), CheckNumber(env, v, f, path));
    AndOwn(env, v, n, path, CheckConstEnum(env, v, f, path), And(CheckString(env, v, f, path), CheckNumber(env, v, f, path)));
  }

  lemma {:induction false} NamesOwn(env: Env, v: Value, n: Node, names: seq<Value>, path: string)
    requires n.schema.Obj? && v.Obj?
    requires match Get(n.schema.fields, "required") case Some(Arr(all)) => (forall t | t in names :: t in all) case _ => false
    ensures Own(env, v, n, path, CheckNames(names, v.fields, path))
  {
    if names == [] {
    } else if names[0].Str? {
      NamesOwn(env, v, n, names[1..], path);
      HasMember(v.fields, names[0].s);
      assert names[0] in names && Str(names[0].s) == names[0];
    } else {
      assert names[0] in names;
    }
  }

  lemma RequiredOwn(env: Env, v: Value, n: Node, path: string)
    requires n.schema.Obj? && v.Obj?
    ensures Own(env, v, n, path, CheckRequired(v, n.schema.fields, path))
  {
    hide CheckNames, Breaks;
    var f := n.schema.fields;
    if Has(f, "required") && Get(f, "required").value.Arr? {
      NamesOwn(env, v, n, Get(f, "required").value.items, path);
    }
  }

  lemma ListOwn(env: Env, v: Value, n: Node, path: string)
    requires n.schema.Obj? && v.Arr?
    ensures Own(env, v, n, path, CheckList(env, v, n.schema.fields, path))
  {
    hide Compare, AnyRepeated, Truthy, UniqueHolds, WellFormed;
    var size := |v.items| as real;
    CompareOwn(env, v, n, "minItems", x => size < x, path, TooFewItems);
    if WellFormed(v) {
      UniqueDecides(env, v, n.schema.fields);
    }
  }

  // ---- from a node to the ones it hands on to ------------------------------------------

  lemma AndExplained(env: Env, v: Value, n: Node, base: string, a: Outcome, b: Outcome)
    requires Explained(env, v, n, base, a) && Explained(env, v, n, base, b)
    ensures Explained(env, v, n, base, And(a, b))
  {
    hide Blames, HasFault;
  }

  lemma {:induction false} AndAllExplained(env: Env, v: Value, n: Node, base: string, outs: seq<Outcome>)
    requires forall i | 0 <= i < |outs| :: Explained(env, v, n, base, outs[i])
    ensures Explained(env, v, n, base, AndAll(outs))
  {
    hide Explained;
    if outs == [] {
      NothingExplained(env, v, n, base);
    } else {
      AndAllExplained(env, v, n, base, outs[1..]);
      AndExplained(env, v, n, base, outs[0], AndAll(outs[1..]));
    }
  }

  lemma NothingExplained(env: Env, v: Value, n: Node, base: string)
    ensures Explained(env, v, n, base, Checked([]))
  {
  }

  /** At a node the evaluator goes on to with the same value. */
  lemma InPlace(env: Env, v: Value, n: Node, c: Node, base: string, out: Outcome)
    requires SubSchema(env, n, c) && Explained(env, v, c, base, out)
    ensures Explained(env, v, n, base, out)
  {
    hide SubSchema, Visits, Breaks, Faulty, WellFormed;
    forall m | Visits(env, c, m) ensures Visits(env, n, m) {
      VisitsCons(env, n, c, m);
    }
    if out.Checked? && WellFormed(v) {
      forall e | e in out.errors ensures Blames(env, v, n, base, e) {
        var steps: seq<Step>, m: Node :| BlamesAt(env, v, c, base, e, steps, m);
        assert BlamesAt(env, v, n, base, e, steps, m);
      }
    }
  }

  lemma PathStep(step: Step, steps: seq<Step>)
    ensures PathText([step] + steps) == "/" + StepText(step) + PathText(steps)
  {
    assert StepTexts([step] + steps)[1..] == StepTexts(steps);
  }

  lemma LocateStep(v: Value, step: Step, steps: seq<Step>)
    requires Locate(v, [step]).Some?
    ensures Locate(v, [step] + steps) == Locate(Locate(v, [step]).value, steps)
  {
    assert ([step] + steps)[1..] == steps && [step][1..] == [];
  }

  /** At a node it goes on to with a value one step inside. */
  lemma Inside(env: Env, v: Value, step: Step, n: Node, c: Node, base: string, out: Outcome)
    requires SubSchema(env, n, c) && Locate(v, [step]).Some? && (WellFormed(v) ==> WellFormed(Locate(v, [step]).value))
    requires Explained(env, Locate(v, [step]).value, c, base + "/" + StepText(step), out)
    ensures Explained(env, v, n, base, out)
  {
    hide SubSchema, Visits, Breaks, Faulty, PathText, Locate, StepText, WellFormed;
    forall m | Visits(env, c, m) ensures Visits(env, n, m) {
      VisitsCons(env, n, c, m);
    }
    if out.Checked? && WellFormed(v) {
      forall e | e in out.errors ensures Blames(env, v, n, base, e) {
        var steps: seq<Step>, m: Node :| BlamesAt(env, Locate(v, [step]).value, c, base + "/" + StepText(step), e, steps, m);
        PathStep(step, steps);
        LocateStep(v, step, steps);
        assert base + "/" + StepText(step) + PathText(steps) == base + ("/" + StepText(step) + PathText(steps));
        assert BlamesAt(env, v, n, base, e, [step] + steps, m);
      }
    }
  }

  /** Of a value that is no JSON only the exceptions are explained. */
  lemma FaultBelow(env: Env, v: Value, w: Value, n: Node, c: Node, base: string, path: string, out: Outcome)
    requires SubSchema(env, n, c) && !WellFormed(v) && Explained(env, w, c, path, out)
    ensures Explained(env, v, n, base, out)
  {
    hide SubSchema, Visits, Faulty, WellFormed, Blames;
    forall m | Visits(env, c, m) ensures Visits(env, n, m) {
      VisitsCons(env, n, c, m);
    }
  }

  /** Everything `validate` reports is so: each finding points at a value inside the document that breaks
      the rule it names, of a schema node evaluation visits, and an exception has its cause in such a
      node. */
  lemma {:induction false} FindingsAreSo(depth: nat, env: Env, v: Value, n: Node, path: string)
    ensures Explained(env, v, n, path, Check(depth, env, v, n, path))
    decreases depth, 0, 0
  {
    hide Check, CheckRef, CheckTyped, Explained, AllSupported, Understood, WellFormed;
    if depth == 0 || !n.schema.Obj? || !AllSupported(n.schema.fields) {
      NotStarted(depth, env, v, n, path);
    } else {
      CheckUnfolds(depth, env, v, n, path);
      RefExplained(depth - 1, env, v, n, path);
      TypedExplained(depth - 1, env, v, n, path);
      AndExplained(env, v, n, path, CheckRef(depth - 1, env, v, n, path), CheckTyped(depth - 1, env, v, n, path));
    }
  }

  lemma NotStarted(depth: nat, env: Env, v: Value, n: Node, path: string)
    requires depth == 0 || !n.schema.Obj? || !AllSupported(n.schema.fields)
    ensures Explained(env, v, n, path, Check(depth, env, v, n, path))
  {
    hide AllSupported, Understood, Explained;
    var out := Check(depth, env, v, n, path);
    if n.schema.Obj? {
      SupportedIsUnderstood(n.schema.fields);
    }
    if depth > 0 {
      OwnExplained(env, v, n, path, out);
    } else {
      NoStack(env, v, n, path);
    }
  }

  lemma NoStack(env: Env, v: Value, n: Node, path: string)
    ensures Explained(env, v, n, path, Refused(TooDeep))
  {
  }

  lemma {:induction false} TypedExplained(depth: nat, env: Env, v: Value, n: Node, path: string)
    requires n.schema.Obj?
    ensures Explained(env, v, n, path, CheckTyped(depth, env, v, n, path))
    decreases depth, 4, 1
  {
    hide CheckRest, CheckType, Explained, Own;
    TypeOwn(env, v, n, path);
    OwnExplained(env, v, n, path, CheckType(v, n.schema.fields, path));
    RestExplained(depth, env, v, n, path);
  }

  lemma {:induction false} RefExplained(depth: nat, env: Env, v: Value, n: Node, path: string)
    requires n.schema.Obj?
    ensures Explained(env, v, n, path, CheckRef(depth, env, v, n, path))
    decreases depth, 4, 0
  {
    hide Check, Explained, SubSchema;
    if HasRef(n.schema) && Referred(env, n).Target? {
      var t := Referred(env, n).node;
      FindingsAreSo(depth, env, v, t, path);
      assert Edge(env, n, t);
      EdgeIsSub(env, n, t);
      InPlace(env, v, n, t, path, Check(depth, env, v, t, path));
    } else {
      OwnExplained(env, v, n, path, CheckRef(depth, env, v, n, path));
    }
  }

  lemma {:induction false} RestExplained(depth: nat, env: Env, v: Value, n: Node, path: string)
    requires n.schema.Obj?
    ensures Explained(env, v, n, path, CheckRest(depth, env, v, n, path))
    decreases depth, 4, 0
  {
    hide CheckScalars, CheckObject, CheckArray, CheckAllOf, CheckIf, And, Explained, Own;
    ScalarsOwn(env, v, n, path);
    OwnExplained(env, v, n, path, CheckScalars(env, v, n.schema.fields, path));
    ObjectExplained(depth, env, v, n, path);
    ArrayExplained(depth, env, v, n, path);
    AllOfExplained(depth, env, v, n, path);
    IfExplained(depth, env, v, n, path);
    var last := And(CheckAllOf(depth, env, v, n, path), CheckIf(depth, env, v, n, path));
    var later := And(CheckArray(depth, env, v, n, path), last);
    AndExplained(env, v, n, path, CheckAllOf(depth, env, v, n, path), CheckIf(depth, env, v, n, path));
    AndExplained(env, v, n, path, CheckArray(depth, env, v, n, path), last);
    AndExplained(env, v, n, path, CheckObject(depth, env, v, n, path), later);
    AndExplained(env, v, n, path, CheckScalars(env, v, n.schema.fields, path), And(CheckObject(depth, env, v, n, path), later));
  }

  lemma {:induction false} ObjectExplained(depth: nat, env: Env, v: Value, n: Node, path: string)
    requires n.schema.Obj?
    ensures Explained(env, v, n, path, CheckObject(depth, env, v, n, path))
    decreases depth, 3, 0
  {
    hide CheckMember, CheckRequired, Explained, WellFormed, And, Own;
    if v.Obj? {
      RequiredOwn(env, v, n, path);
      OwnExplained(env, v, n, path, CheckRequired(v, n.schema.fields, path));
      var outs := MemberOutcomes(depth, env, v, n, path);
      forall i | 0 <= i < |v.fields| ensures Explained(env, v, n, path, outs[i]) {
        MemberExplained(depth, env, v, n, path, i);
      }
      AndAllExplained(env, v, n, path, outs);
      MembersFaultOwn(env, v, n, path);
      AndExplained(env, v, n, path, CheckRequired(v, n.schema.fields, path), CheckMembers(depth, env, v, n, path));
    } else {
      NothingExplained(env, v, n, path);
    }
  }

  lemma MembersFaultOwn(env: Env, v: Value, n: Node, path: string)
    requires n.schema.Obj?
    ensures Has(n.schema.fields, "properties") && !Get(n.schema.fields, "properties").value.Obj? ==>
              Explained(env, v, n, path, Refused(BadKeyword))
  {
    if Has(n.schema.fields, "properties") && !Get(n.schema.fields, "properties").value.Obj? {
      OwnExplained(env, v, n, path, Refused(BadKeyword));
    }
  }

  lemma {:induction false} MemberExplained(depth: nat, env: Env, v: Value, n: Node, path: string, i: nat)
    requires n.schema.Obj? && v.Obj? && i < |v.fields|
    ensures Explained(env, v, n, path, CheckMember(depth, env, v, n, path, i))
    decreases depth, 2, 0
  {
    hide Check, Explained, SubSchema;
    var m := v.fields[i];
    match MemberSchema(n, m.key)
    case None =>
      HasMember(Properties(n.schema.fields), m.key);
      UnexpectedOwn(env, v, n, path, i);
      OwnExplained(env, v, n, path, CheckMember(depth, env, v, n, path, i));
    case Some(sub) =>
      FindingsAreSo(depth, env, m.val, sub, path + "/" + m.key);
      MemberIsSub(env, n, m.key);
      if WellFormed(v) {
        GetUnique(v.fields, i);
        assert [Key(m.key)][1..] == [];
        assert Locate(v, [Key(m.key)]) == Some(m.val);
        Inside(env, v, Key(m.key), n, sub, path, Check(depth, env, m.val, sub, path + "/" + m.key));
      } else {
        FaultBelow(env, v, m.val, n, sub, path, path + "/" + m.key, Check(depth, env, m.val, sub, path + "/" + m.key));
      }
  }

  lemma UnexpectedOwn(env: Env, v: Value, n: Node, path: string, i: nat)
    requires n.schema.Obj? && v.Obj? && i < |v.fields|
    ensures Own(env, v, n, path, When(Forbidden(n.schema.fields, v.fields[i].key), path, Unexpected(v.fields[i].key)))
  {
    HasMember(Properties(n.schema.fields), v.fields[i].key);
    assert v.fields[i] in v.fields;
  }

  lemma {:induction false} ArrayExplained(depth: nat, env: Env, v: Value, n: Node, path: string)
    requires n.schema.Obj?
    ensures Explained(env, v, n, path, CheckArray(depth, env, v, n, path))
    decreases depth, 3, 0
  {
    hide CheckList, CheckItems, Explained, Own, And;
    if v.Arr? {
      ListOwn(env, v, n, path);
      OwnExplained(env, v, n, path, CheckList(env, v, n.schema.fields, path));
      ItemsExplained(depth, env, v, n, path);
      AndExplained(env, v, n, path, CheckList(env, v, n.schema.fields, path), CheckItems(depth, env, v, n, path));
    } else {
      NothingExplained(env, v, n, path);
    }
  }

  lemma {:induction false} ItemsExplained(depth: nat, env: Env, v: Value, n: Node, path: string)
    requires n.schema.Obj? && v.Arr?
    ensures Explained(env, v, n, path, CheckItems(depth, env, v, n, path))
    decreases depth, 2, 1
  {
    hide CheckItem, Explained, WellFormed;
    if Has(n.schema.fields, "items") {
      var outs := ItemOutcomes(depth, env, v, n, path);
      forall i | 0 <= i < |v.items| ensures Explained(env, v, n, path, outs[i]) {
        ItemExplained(depth, env, v, n, path, i);
      }
      AndAllExplained(env, v, n, path, outs);
    } else {
      NothingExplained(env, v, n, path);
    }
  }

  lemma {:induction false} ItemExplained(depth: nat, env: Env, v: Value, n: Node, path: string, i: nat)
    requires n.schema.Obj?
    requires v.Arr? && Has(n.schema.fields, "items") && i < |v.items|
    ensures Explained(env, v, n, path, CheckItem(depth, env, v, n, path, i))
    decreases depth, 2, 0
  {
    hide Check, Explained;
    FindingsAreSo(depth, env, v.items[i], Field(n, "items"), path + "/" + NatText(i));
    assert [Index(i)][1..] == [];
    assert Locate(v, [Index(i)]) == Some(v.items[i]);
    assert SubSchema(env, n, Field(n, "items"));
    Inside(env, v, Index(i), n, Field(n, "items"), path, CheckItem(depth, env, v, n, path, i));
  }

  lemma {:induction false} AllOfExplained(depth: nat, env: Env, v: Value, n: Node, path: string)
    requires n.schema.Obj?
    ensures Explained(env, v, n, path, CheckAllOf(depth, env, v, n, path))
    decreases depth, 3, 0
  {
    hide Check, Explained, SubSchema, WellFormed;
    if Has(n.schema.fields, "allOf") && !Get(n.schema.fields, "allOf").value.Arr? {
      OwnExplained(env, v, n, path, Refused(BadKeyword));
    } else {
      var outs := AllOfOutcomes(depth, env, v, n, path);
      forall i | 0 <= i < |AllOf(n.schema)| ensures Explained(env, v, n, path, outs[i]) {
        assert outs[i] == CheckAllOfAt(depth, env, v, n, path, i);
        var c := Node(AllOf(n.schema)[i], n.doc);
        FindingsAreSo(depth, env, v, c, path);
        assert Edge(env, n, c);
        EdgeIsSub(env, n, c);
        InPlace(env, v, n, c, path, outs[i]);
      }
      AndAllExplained(env, v, n, path, outs);
    }
  }

  lemma {:induction false} IfExplained(depth: nat, env: Env, v: Value, n: Node, path: string)
    requires n.schema.Obj?
    ensures Explained(env, v, n, path, CheckIf(depth, env, v, n, path))
    decreases depth, 3, 0
  {
    hide Check, Explained, SubSchema, WellFormed;
    NothingExplained(env, v, n, path);
    forall key | key in {"if", "then", "else"} && Has(n.schema.fields, key)
      ensures Explained(env, v, n, path, Check(depth, env, v, Field(n, key), path))
    {
      FindingsAreSo(depth, env, v, Field(n, key), path);
      assert Get(n.schema.fields, key) == Some(Field(n, key).schema);
      EdgeIsSub(env, n, Field(n, key));
      InPlace(env, v, n, Field(n, key), path, Check(depth, env, v, Field(n, key), path));
    }
  }

  // ---- schemas without fault -------------------------------------------------------------

  /** A set of schema nodes without faults that only lead to each other. */
  ghost predicate Enforceable(env: Env, good: set<Node>) {
    forall n | n in good :: WellShaped(env, n) && forall c :: SubSchema(env, n, c) ==> c in good
  }

  /** Evaluation stays inside a closed set of nodes. */
  lemma {:induction false} TrailStaysIn(env: Env, p: seq<Node>, good: set<Node>)
    requires IsTrail(env, p) && Enforceable(env, good) && p[0] in good
    ensures p[|p| - 1] in good
  {
    hide SubSchema, WellShaped;
    if |p| == 1 {
    } else {
      var q := p[1..];
      assert SubSchema(env, p[0], p[0 + 1]);
      forall i | 0 <= i < |q| - 1 ensures SubSchema(env, q[i], q[i + 1]) {
        assert SubSchema(env, p[i + 1], p[i + 1 + 1]);
      }
      TrailStaysIn(env, q, good);
    }
  }

  /** On enforceable schemas `validate` raises nothing of its own: whatever the value, it returns a finding
      list unless it runs out of stack. */
  lemma EnforceableIsEnforced(depth: nat, env: Env, v: Value, n: Node, path: string, good: set<Node>)
    requires Enforceable(env, good) && n in good
    ensures Check(depth, env, v, n, path).Checked? || Check(depth, env, v, n, path) == Refused(TooDeep)
  {
    hide Check, WellFormed, Faulty, SubSchema, Blames;
    FindingsAreSo(depth, env, v, n, path);
    var out := Check(depth, env, v, n, path);
    if out.Refused? && out.why != TooDeep {
      var m :| Visits(env, n, m) && Faulty(env, m, out.why);
      var p: seq<Node> :| IsTrail(env, p) && p[0] == n && p[|p| - 1] == m;
      TrailStaysIn(env, p, good);
    }
  }

  // ---- findings as pointers ------------------------------------------------------

  predicate AllKeysPlain(v: Value) {
    match v
    case Arr(items) => forall i | 0 <= i < |items| :: AllKeysPlain(items[i])
    case Obj(fields) => forall i | 0 <= i < |fields| :: PlainKey(fields[i].key) && AllKeysPlain(fields[i].val)
    case _ => true
  }

  lemma {:induction false} StepsArePlain(v: Value, steps: seq<Step>)
    requires AllKeysPlain(v) && Locate(v, steps).Some?
    ensures PlainSteps(steps)
  {
    if steps == [] {
    } else {
      match steps[0] {
        case Key(name) =>
          var m := Member(name, Get(v.fields, name).value);
          var i :| 0 <= i < |v.fields| && v.fields[i] == m;
          StepsArePlain(v.fields[i].val, steps[1..]);
        case Index(i) => StepsArePlain(v.items[i], steps[1..]);
      }
      assert steps == [steps[0]] + steps[1..];
    }
  }

  /** What a finding prints: the path, or `/` for the document itself. */
  function Here(path: string): string {
    if path == "" then "/" else path
  }

  lemma BlamedResolves(env: Env, v: Value, n: Node, e: Violation)
    requires AllKeysPlain(v) && Blames(env, v, n, "", e)
    ensures Walk(v, Tokens(e.path)).Some?
  {
    var steps: seq<Step>, m: Node :| BlamesAt(env, v, n, "", e, steps, m);
    assert e.path == PathText(steps);
    StepsArePlain(v, steps);
    PlainPathResolves(v, steps);
  }

  /** In a document whose keys are plain, every finding below the root prints a pointer that
      `json_pointer` resolves in that document. */
  lemma FindingsResolve(depth: nat, env: Env, v: Value, n: Node)
    requires WellFormed(v) && AllKeysPlain(v)
    requires Check(depth, env, v, n, "").Checked?
    ensures forall e | e in Check(depth, env, v, n, "").errors && e.path != "" ::
              Walk(v, Tokens(Here(e.path))).Some?
  {
    hide Check, Blames, WellFormed, AllKeysPlain;
    FindingsAreSo(depth, env, v, n, "");
    forall e | e in Check(depth, env, v, n, "").errors ensures Walk(v, Tokens(e.path)).Some? {
      BlamedResolves(env, v, n, e);
    }
  }

  // ---- a finding whose path leads nowhere ---------------------------------------------

  function OnlyStrings(): Value { Obj([Member("type", Str("string"))]) }

  /** Every member must be a string. */
  function StringMembers(): Value { Obj([Member("additionalProperties", OnlyStrings())]) }

  lemma StringMembersFields()
    ensures Get(OnlyStrings().fields, "type") == Some(Str("string")) && forall key | key != "type" :: Get(OnlyStrings().fields, key) == None
    ensures Get(StringMembers().fields, "additionalProperties") == Some(OnlyStrings())
    ensures forall key | key != "additionalProperties" :: Get(StringMembers().fields, key) == None
  {
    assert [Member("type", Str("string"))][1..] == [] && [Member("additionalProperties", OnlyStrings())][1..] == [];
  }

  lemma NumberIsNoString(depth: nat, env: Env, path: string)
    requires depth > 0
    ensures Check(depth, env, Int(1), Node(OnlyStrings(), "t"), path) == Checked([Violation(path, WrongType)])
  {
    StringMembersFields();
    assert [Str("string")][1..] == [];
    assert AnyType(Int(1), [Str("string")]) == AnyType(Int(1), []);
    assert CheckType(Int(1), OnlyStrings().fields, path) == Checked([Violation(path, WrongType)]);
  }

  function SlashDocument(): Value { Obj([Member("a/b", Int(1))]) }

  /** One key with a slash in it is enough: `validate` reports `/a/b`, and that names nothing. */
  lemma SlashKeyLosesThePath(depth: nat, env: Env)
    requires depth >= 2
    ensures Check(depth, env, SlashDocument(), Node(StringMembers(), "t"), "") == Checked([Violation("/a/b", WrongType)])
    ensures Walk(SlashDocument(), Tokens("/a/b")).None?
  {
    SlashFinding(depth, env);
    SlashPathIsLost();
  }

  lemma SlashFinding(depth: nat, env: Env)
    requires depth >= 2
    ensures Check(depth, env, SlashDocument(), Node(StringMembers(), "t"), "") == Checked([Violation("/a/b", WrongType)])
  {
    var v, n := SlashDocument(), Node(StringMembers(), "t");
    StringMembersFields();
    SlashMember(depth - 1, env);
    CheckUnfolds(depth, env, v, n, "");
    assert CheckRest(depth - 1, env, v, n, "") == CheckObject(depth - 1, env, v, n, "");
  }

  lemma SlashMember(depth: nat, env: Env)
    requires depth > 0
    ensures CheckObject(depth, env, SlashDocument(), Node(StringMembers(), "t"), "") == Checked([Violation("/a/b", WrongType)])
  {
    hide Check;
    var v, n := SlashDocument(), Node(StringMembers(), "t");
    StringMembersFields();
    NumberIsNoString(depth, env, "/a/b");
    assert "" + "/" + "a/b" == "/a/b";
    assert MemberSchema(n, "a/b") == Some(Node(OnlyStrings(), "t"));
    assert CheckMember(depth, env, v, n, "", 0) == Checked([Violation("/a/b", WrongType)]);
    var outs := MemberOutcomes(depth, env, v, n, "");
    assert outs == [CheckMember(depth, env, v, n, "", 0)] && outs[1..] == [];
    assert AndAll(outs) == And(outs[0], AndAll([]));
    assert [Violation("/a/b", WrongType)] + [] == [Violation("/a/b", WrongType)];
  }

  lemma SlashPathIsLost()
    ensures Walk(SlashDocument(), Tokens("/a/b")).None?
  {
    var path := "/a/b";
    assert path == "" + ['/'] + ("a" + ['/'] + "b");
    SplitAtSeparator("", "a" + ['/'] + "b", '/');
    SplitAtSeparator("a", "b", '/');
    SplitWhole("b", '/');
    assert Split(path, '/') == ["", "a", "b"];
    UnescapeFixes("a");
    assert Tokens(path)[0] == "a";
  }
}
