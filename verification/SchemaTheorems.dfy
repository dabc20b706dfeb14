/** What the evaluator's verdict means, whenever it gives one. */
module SchemaTheorems {
  import opened Options
  import opened Json
  import opened Numerals
  import opened SchemaGraph
  import opened SchemaMeaning
  import opened SchemaEval

  // ---- the declarative meaning -------------------------------------------------

  predicate ScalarsHold(env: Env, v: Value, f: seq<Member>) {
    && ConstHolds(env, v, f) && EnumHolds(env, v, f)
    && LengthHolds(env, v, f) && PatternHolds(env, v, f) && RangeHolds(env, v, f)
  }

  /** An argument at most `depth` schema nodes deep that `v` satisfies the schema at `n`: every keyword
      holds, applicators at the values they apply to. A schema may lead back to itself; what counts is
      that the argument ends. */
  ghost predicate Accepts(depth: nat, env: Env, v: Value, n: Node)
    decreases depth, 0
  {
    && depth > 0 && n.schema.Obj? && Understood(n.schema.fields)
    && RefAccepts(depth - 1, env, v, n)
    && TypeHolds(v, n.schema.fields) && RestAccepts(depth - 1, env, v, n)
  }

  /** An argument at most `depth` nodes deep that `v` violates the schema: some keyword fails, and every
      keyword that is about `v` makes sense. Of a value of the wrong type only the `$ref` is asked as well. */
  ghost predicate Rejects(depth: nat, env: Env, v: Value, n: Node)
    decreases depth, 0
  {
    && depth > 0 && n.schema.Obj? && Understood(n.schema.fields)
    && (RefAccepts(depth - 1, env, v, n) || RefRejects(depth - 1, env, v, n))
    && (|| TypeFails(v, n.schema.fields)
        || (&& TypeHolds(v, n.schema.fields)
            && (RestAccepts(depth - 1, env, v, n) || RestRejects(depth - 1, env, v, n))
            && (RefRejects(depth - 1, env, v, n) || RestRejects(depth - 1, env, v, n))))
  }

  ghost predicate RefAccepts(depth: nat, env: Env, v: Value, n: Node)
    requires n.schema.Obj?
    decreases depth, 1
  {
    match Get(n.schema.fields, "$ref")
    case None => true
    case Some(Str(ref)) => (match Resolve(env.files, ref, n.doc) case Target(t) => Accepts(depth, env, v, t) case _ => false)
    case _ => false
  }

  ghost predicate RefRejects(depth: nat, env: Env, v: Value, n: Node)
    requires n.schema.Obj?
    decreases depth, 1
  {
    match Get(n.schema.fields, "$ref")
    case Some(Str(ref)) => (match Resolve(env.files, ref, n.doc) case Target(t) => Rejects(depth, env, v, t) case _ => false)
    case _ => false
  }

  /** What the keywords other than `$ref` and `type` say. */
  ghost predicate RestAccepts(depth: nat, env: Env, v: Value, n: Node)
    requires n.schema.Obj?
    decreases depth, 4
  {
    && ScalarsSensible(v, n.schema.fields) && ScalarsHold(env, v, n.schema.fields)
    && ObjectAccepts(depth, env, v, n) && ArrayAccepts(depth, env, v, n)
    && AllAccept(depth, env, v, n) && IfAccepts(depth, env, v, n)
  }

  ghost predicate RestRejects(depth: nat, env: Env, v: Value, n: Node)
    requires n.schema.Obj?
    decreases depth, 4
  {
    && ScalarsSensible(v, n.schema.fields)
    && (ObjectAccepts(depth, env, v, n) || ObjectRejects(depth, env, v, n))
    && (ArrayAccepts(depth, env, v, n) || ArrayRejects(depth, env, v, n))
    && (AllAccept(depth, env, v, n) || AllReject(depth, env, v, n))
    && (IfAccepts(depth, env, v, n) || IfRejects(depth, env, v, n))
    && (|| !ScalarsHold(env, v, n.schema.fields)
        || ObjectRejects(depth, env, v, n) || ArrayRejects(depth, env, v, n)
        || AllReject(depth, env, v, n) || IfRejects(depth, env, v, n))
  }

  /** A member is judged by the entry `properties` has for its key. A key without one is free, unless
      `additionalProperties` is a schema, which then judges the value, or `false`, which admits none. */
  ghost predicate MemberAccepts(depth: nat, env: Env, v: Value, n: Node, i: nat)
    requires n.schema.Obj? && v.Obj? && i < |v.fields|
    decreases depth, 2
  {
    var key, val := v.fields[i].key, v.fields[i].val;
    match Get(n.schema.fields, "properties")
    case Some(Obj(props)) =>
      if exists p | p in props :: p.key == key
      then Get(props, key).Some? && Accepts(depth, env, val, Node(Get(props, key).value, n.doc))
      else ExtraAccepts(depth, env, val, n)
    case _ => ExtraAccepts(depth, env, val, n)
  }

  ghost predicate ExtraAccepts(depth: nat, env: Env, val: Value, n: Node)
    requires n.schema.Obj?
    decreases depth, 1
  {
    match Get(n.schema.fields, "additionalProperties")
    case Some(Bool(allowed)) => allowed
    case Some(Obj(sub)) => Accepts(depth, env, val, Node(Obj(sub), n.doc))
    case _ => true
  }

  ghost predicate MemberRejects(depth: nat, env: Env, v: Value, n: Node, i: nat)
    requires n.schema.Obj? && v.Obj? && i < |v.fields|
    decreases depth, 2
  {
    var key, val := v.fields[i].key, v.fields[i].val;
    match Get(n.schema.fields, "properties")
    case Some(Obj(props)) =>
      if exists p | p in props :: p.key == key
      then Get(props, key).Some? && Rejects(depth, env, val, Node(Get(props, key).value, n.doc))
      else ExtraRejects(depth, env, val, n)
    case _ => ExtraRejects(depth, env, val, n)
  }

  ghost predicate ExtraRejects(depth: nat, env: Env, val: Value, n: Node)
    requires n.schema.Obj?
    decreases depth, 1
  {
    match Get(n.schema.fields, "additionalProperties")
    case Some(Bool(allowed)) => !allowed
    case Some(Obj(sub)) => Rejects(depth, env, val, Node(Obj(sub), n.doc))
    case _ => false
  }

  predicate MembersSensible(f: seq<Member>) {
    match Get(f, "properties") case None => true case Some(props) => props.Obj?
  }

  ghost predicate ObjectAccepts(depth: nat, env: Env, v: Value, n: Node)
    requires n.schema.Obj?
    decreases depth, 3
  {
    v.Obj? ==>
      && RequiredSensible(n.schema.fields) && MembersSensible(n.schema.fields)
      && RequiredHolds(v, n.schema.fields) && forall i | 0 <= i < |v.fields| :: MemberAccepts(depth, env, v, n, i)
  }

  ghost predicate ObjectRejects(depth: nat, env: Env, v: Value, n: Node)
    requires n.schema.Obj?
    decreases depth, 3
  {
    && v.Obj? && RequiredSensible(n.schema.fields) && MembersSensible(n.schema.fields)
    && (forall i | 0 <= i < |v.fields| :: MemberAccepts(depth, env, v, n, i) || MemberRejects(depth, env, v, n, i))
    && (!RequiredHolds(v, n.schema.fields) || exists i | 0 <= i < |v.fields| :: MemberRejects(depth, env, v, n, i))
  }

  /** `minItems` and `uniqueItems`. */
  predicate ListHolds(env: Env, v: Value, f: seq<Member>) { CountHolds(env, v, f) && UniqueHolds(env, v, f) }

  ghost predicate ArrayAccepts(depth: nat, env: Env, v: Value, n: Node)
    requires n.schema.Obj?
    decreases depth, 1
  {
    v.Arr? ==>
      && IsNumber(n.schema.fields, "minItems") && ListHolds(env, v, n.schema.fields)
      && match Get(n.schema.fields, "items")
         case None => true
         case Some(sub) => forall i | 0 <= i < |v.items| :: Accepts(depth, env, v.items[i], Node(sub, n.doc))
  }

  ghost predicate ArrayRejects(depth: nat, env: Env, v: Value, n: Node)
    requires n.schema.Obj?
    decreases depth, 1
  {
    && v.Arr? && IsNumber(n.schema.fields, "minItems")
    && match Get(n.schema.fields, "items")
       case None => !ListHolds(env, v, n.schema.fields)
       case Some(sub) =>
         && (forall i | 0 <= i < |v.items| ::
               Accepts(depth, env, v.items[i], Node(sub, n.doc)) || Rejects(depth, env, v.items[i], Node(sub, n.doc)))
         && (|| !ListHolds(env, v, n.schema.fields)
             || exists i | 0 <= i < |v.items| :: Rejects(depth, env, v.items[i], Node(sub, n.doc)))
  }

  ghost predicate AllAccept(depth: nat, env: Env, v: Value, n: Node)
    requires n.schema.Obj?
    decreases depth, 1
  {
    match Get(n.schema.fields, "allOf")
    case None => true
    case Some(Arr(subs)) => forall i | 0 <= i < |subs| :: Accepts(depth, env, v, Node(subs[i], n.doc))
    case _ => false
  }

  ghost predicate AllReject(depth: nat, env: Env, v: Value, n: Node)
    requires n.schema.Obj?
    decreases depth, 1
  {
    match Get(n.schema.fields, "allOf")
    case Some(Arr(subs)) =>
      && (forall i | 0 <= i < |subs| :: Accepts(depth, env, v, Node(subs[i], n.doc)) || Rejects(depth, env, v, Node(subs[i], n.doc)))
      && exists i | 0 <= i < |subs| :: Rejects(depth, env, v, Node(subs[i], n.doc))
    case _ => false
  }

  ghost predicate BranchAccepts(depth: nat, env: Env, v: Value, n: Node, key: string)
    requires n.schema.Obj?
    decreases depth, 1
  {
    match Get(n.schema.fields, key) case None => true case Some(sub) => Accepts(depth, env, v, Node(sub, n.doc))
  }

  ghost predicate BranchRejects(depth: nat, env: Env, v: Value, n: Node, key: string)
    requires n.schema.Obj?
    decreases depth, 1
  {
    match Get(n.schema.fields, key) case None => false case Some(sub) => Rejects(depth, env, v, Node(sub, n.doc))
  }

  /** Core section 10.2.2: `then` applies when `if` holds, `else` when it does not. */
  ghost predicate IfAccepts(depth: nat, env: Env, v: Value, n: Node)
    requires n.schema.Obj?
    decreases depth, 2
  {
    match Get(n.schema.fields, "if")
    case None => true
    case Some(test) =>
      || (Accepts(depth, env, v, Node(test, n.doc)) && BranchAccepts(depth, env, v, n, "then"))
      || (Rejects(depth, env, v, Node(test, n.doc)) && BranchAccepts(depth, env, v, n, "else"))
  }

  ghost predicate IfRejects(depth: nat, env: Env, v: Value, n: Node)
    requires n.schema.Obj?
    decreases depth, 2
  {
    match Get(n.schema.fields, "if")
    case None => false
    case Some(test) =>
      || (Accepts(depth, env, v, Node(test, n.doc)) && BranchRejects(depth, env, v, n, "then"))
      || (Rejects(depth, env, v, Node(test, n.doc)) && BranchRejects(depth, env, v, n, "else"))
  }

  /** `v` satisfies the schema at `n`. */
  ghost predicate Satisfies(env: Env, v: Value, n: Node) {
    exists depth: nat :: Accepts(depth, env, v, n)
  }

  /** `v` violates it. */
  ghost predicate Violates(env: Env, v: Value, n: Node) {
    exists depth: nat :: Rejects(depth, env, v, n)
  }

  function Referred(env: Env, n: Node): Resolved
    requires HasRef(n.schema)
  {
    Resolve(env.files, Get(n.schema.fields, "$ref").value.s, n.doc)
  }

  // ---- a value is not both satisfying and violating --------------------------------

  lemma {:induction false} NeverBoth(d: nat, e: nat, env: Env, v: Value, n: Node)
    ensures !(Accepts(d, env, v, n) && Rejects(e, env, v, n))
    decreases d + e, 0
  {
    hide Accepts, Rejects, RefAccepts, RefRejects, RestAccepts, RestRejects, TypeHolds, TypeFails, Understood;
    if d == 0 || e == 0 || !n.schema.Obj? {
      NoArgument(d, e, env, v, n);
    } else {
      AcceptsUnfolds(d, env, v, n);
      RejectsUnfolds(e, env, v, n);
      OneTypeVerdict(v, n.schema.fields);
      RefNotBoth(d - 1, e - 1, env, v, n);
      RestNotBoth(d - 1, e - 1, env, v, n);
    }
  }

  lemma NoArgument(d: nat, e: nat, env: Env, v: Value, n: Node)
    requires d == 0 || e == 0 || !n.schema.Obj?
    ensures !(Accepts(d, env, v, n) && Rejects(e, env, v, n))
  {
  }

  lemma AcceptsUnfolds(depth: nat, env: Env, v: Value, n: Node)
    requires depth > 0 && n.schema.Obj?
    ensures Accepts(depth, env, v, n) <==>
      && Understood(n.schema.fields) && RefAccepts(depth - 1, env, v, n)
      && TypeHolds(v, n.schema.fields) && RestAccepts(depth - 1, env, v, n)
  {
    hide RefAccepts, RestAccepts, TypeHolds, Understood;
  }

  lemma RejectsUnfolds(depth: nat, env: Env, v: Value, n: Node)
    requires depth > 0 && n.schema.Obj?
    ensures Rejects(depth, env, v, n) <==>
      && Understood(n.schema.fields) && (RefAccepts(depth - 1, env, v, n) || RefRejects(depth - 1, env, v, n))
      && (|| TypeFails(v, n.schema.fields)
          || (&& TypeHolds(v, n.schema.fields)
              && (RestAccepts(depth - 1, env, v, n) || RestRejects(depth - 1, env, v, n))
              && (RefRejects(depth - 1, env, v, n) || RestRejects(depth - 1, env, v, n))))
  {
    hide RefAccepts, RefRejects, RestAccepts, RestRejects, TypeHolds, TypeFails, Understood;
  }

  lemma OneTypeVerdict(v: Value, f: seq<Member>)
    ensures !(TypeHolds(v, f) && TypeFails(v, f))
  {
  }

  lemma {:induction false} RefNotBoth(d: nat, e: nat, env: Env, v: Value, n: Node)
    requires n.schema.Obj?
    ensures !(RefAccepts(d, env, v, n) && RefRejects(e, env, v, n))
    decreases d + e, 1
  {
    hide Accepts, Rejects;
    if HasRef(n.schema) && Referred(env, n).Target? {
      NeverBoth(d, e, env, v, Referred(env, n).node);
    }
  }

  lemma {:induction false} RestNotBoth(d: nat, e: nat, env: Env, v: Value, n: Node)
    requires n.schema.Obj?
    ensures !(RestAccepts(d, env, v, n) && RestRejects(e, env, v, n))
    decreases d + e, 3
  {
    hide ObjectAccepts, ObjectRejects, ArrayAccepts, ArrayRejects, AllAccept, AllReject, IfAccepts, IfRejects, ScalarsHold;
    ObjectNotBoth(d, e, env, v, n);
    ArrayNotBoth(d, e, env, v, n);
    AllNotBoth(d, e, env, v, n);
    IfNotBoth(d, e, env, v, n);
  }

  lemma {:induction false} ObjectNotBoth(d: nat, e: nat, env: Env, v: Value, n: Node)
    requires n.schema.Obj?
    ensures !(ObjectAccepts(d, env, v, n) && ObjectRejects(e, env, v, n))
    decreases d + e, 2
  {
    hide MemberAccepts, MemberRejects, RequiredHolds;
    if v.Obj? {
      forall i | 0 <= i < |v.fields| ensures !(MemberAccepts(d, env, v, n, i) && MemberRejects(e, env, v, n, i)) {
        MemberNotBoth(d, e, env, v, n, i);
      }
    }
  }

  lemma {:induction false} MemberNotBoth(d: nat, e: nat, env: Env, v: Value, n: Node, i: nat)
    requires n.schema.Obj? && v.Obj? && i < |v.fields|
    ensures !(MemberAccepts(d, env, v, n, i) && MemberRejects(e, env, v, n, i))
    decreases d + e, 1
  {
    hide Accepts, Rejects;
    if MemberSchema(n, v.fields[i].key).Some? {
      NeverBoth(d, e, env, v.fields[i].val, MemberSchema(n, v.fields[i].key).value);
    }
  }

  lemma {:induction false} ArrayNotBoth(d: nat, e: nat, env: Env, v: Value, n: Node)
    requires n.schema.Obj?
    ensures !(ArrayAccepts(d, env, v, n) && ArrayRejects(e, env, v, n))
    decreases d + e, 1
  {
    hide Accepts, Rejects, ListHolds;
    if v.Arr? && Has(n.schema.fields, "items") {
      var sub := Node(Get(n.schema.fields, "items").value, n.doc);
      forall i | 0 <= i < |v.items| ensures !(Accepts(d, env, v.items[i], sub) && Rejects(e, env, v.items[i], sub)) {
        NeverBoth(d, e, env, v.items[i], sub);
      }
    }
  }

  lemma {:induction false} AllNotBoth(d: nat, e: nat, env: Env, v: Value, n: Node)
    requires n.schema.Obj?
    ensures !(AllAccept(d, env, v, n) && AllReject(e, env, v, n))
    decreases d + e, 1
  {
    hide Accepts, Rejects;
    var subs := AllOf(n.schema);
    assert Get(n.schema.fields, "allOf") == Some(Arr(subs)) || !Has(n.schema.fields, "allOf") || !Get(n.schema.fields, "allOf").value.Arr?;
    forall i | 0 <= i < |subs| ensures !(Accepts(d, env, v, Node(subs[i], n.doc)) && Rejects(e, env, v, Node(subs[i], n.doc))) {
      NeverBoth(d, e, env, v, Node(subs[i], n.doc));
    }
  }

  lemma {:induction false} IfNotBoth(d: nat, e: nat, env: Env, v: Value, n: Node)
    requires n.schema.Obj?
    ensures !(IfAccepts(d, env, v, n) && IfRejects(e, env, v, n))
    decreases d + e, 1
  {
    hide Accepts, Rejects;
    forall key | key in {"if", "then", "else"} && Has(n.schema.fields, key)
      ensures
        var sub := Node(Get(n.schema.fields, key).value, n.doc);
        !(Accepts(d, env, v, sub) && Rejects(e, env, v, sub)) && !(Accepts(e, env, v, sub) && Rejects(d, env, v, sub))
    {
      NeverBoth(d, e, env, v, Node(Get(n.schema.fields, key).value, n.doc));
      NeverBoth(e, d, env, v, Node(Get(n.schema.fields, key).value, n.doc));
    }
  }

  // ---- no findings means satisfied, findings mean violated -------------------------

  predicate Clean(out: Outcome) { out.Checked? && out.errors == [] }

  predicate Found(out: Outcome) { out.Checked? && out.errors != [] }

  /** The outcome is an empty finding list exactly when `yes`, and one with findings exactly when `no`;
      an exception is neither. */
  ghost predicate Decides(out: Outcome, yes: bool, no: bool) {
    (Clean(out) <==> yes) && (Found(out) <==> no)
  }

  lemma {:induction false} AllDecide(outs: seq<Outcome>)
    ensures Clean(AndAll(outs)) <==> forall i | 0 <= i < |outs| :: Clean(outs[i])
    ensures Found(AndAll(outs)) <==>
              (forall i | 0 <= i < |outs| :: Clean(outs[i]) || Found(outs[i])) && exists i | 0 <= i < |outs| :: Found(outs[i])
  {
    if outs == [] {
    } else {
      AllDecide(outs[1..]);
      assert forall i | 1 <= i < |outs| :: outs[i] == outs[1..][i - 1];
      assert forall i | 0 <= i < |outs| - 1 :: outs[1..][i] == outs[i + 1];
    }
  }

  lemma KnownIsTypeName(t: Value)
    ensures KnownType(t) <==> IsTypeName(t)
  {
    if KnownType(t) {
      assert "null" in TypesOf(Null) && "boolean" in TypesOf(Bool(true)) && "integer" in TypesOf(Int(0)) && "number" in TypesOf(Int(0))
          && "string" in TypesOf(Str("")) && "array" in TypesOf(Arr([])) && "object" in TypesOf(Obj([]));
    }
  }

  lemma FitsIsType(v: Value, t: Value)
    requires t.Str?
    ensures HasType(v, t.s) <==> t.s in TypesOf(v)
    ensures t.s in TypesOf(v) ==> IsTypeName(t)
  {
  }

  lemma {:induction false} AnyTypeDecides(v: Value, types: seq<Value>)
    ensures AnyType(v, types) == Some(true) <==> OneFits(v, types)
    ensures AnyType(v, types) == Some(false) <==> NoneFits(v, types)
  {
    hide KnownType, HasType, IsTypeName, TypesOf;
    if types == [] {
    } else {
      var t, rest := types[0], types[1..];
      AnyTypeDecides(v, rest);
      KnownIsTypeName(t);
      NameIsText(t);
      if t.Str? {
        FitsIsType(v, t);
      }
      assert forall i | 0 <= i < |rest| :: rest[i] == types[i + 1];
      assert forall i | 1 <= i < |types| :: types[i] == rest[i - 1];
      if !IsTypeName(t) {
        NoNameNoFit(v, types);
      } else if t.s in TypesOf(v) {
        assert types[0].s in TypesOf(v);
      } else {
        FitsLater(v, types);
      }
    }
  }

  lemma NameIsText(t: Value)
    ensures IsTypeName(t) ==> t.Str?
  {
  }

  lemma NoNameNoFit(v: Value, types: seq<Value>)
    requires types != [] && !IsTypeName(types[0])
    ensures !OneFits(v, types) && !NoneFits(v, types)
  {
    hide IsTypeName, TypesOf;
    if types[0].Str? {
      FitsIsType(v, types[0]);
    }
  }

  lemma FitsLater(v: Value, types: seq<Value>)
    requires types != [] && types[0].Str? && IsTypeName(types[0]) && types[0].s !in TypesOf(v)
    ensures OneFits(v, types) <==> OneFits(v, types[1..])
  {
    hide IsTypeName, TypesOf;
    var rest := types[1..];
    if OneFits(v, types) {
      var i :| 0 <= i < |types| && types[i].Str? && types[i].s in TypesOf(v) && forall j | 0 <= j < i :: IsTypeName(types[j]);
      assert rest[i - 1] == types[i] && forall j | 0 <= j < i - 1 :: rest[j] == types[j + 1];
    }
    if OneFits(v, rest) {
      var i :| 0 <= i < |rest| && rest[i].Str? && rest[i].s in TypesOf(v) && forall j | 0 <= j < i :: IsTypeName(rest[j]);
      assert types[i + 1] == rest[i] && forall j | 0 < j <= i :: types[j] == rest[j - 1];
    }
  }

  lemma FitsDecide(fits: Option<bool>, yes: bool, no: bool, path: string)
    requires (fits == Some(true) <==> yes) && (fits == Some(false) <==> no)
    ensures
      var out := match fits case None => Refused(UnknownType) case Some(one) => When(!one, path, WrongType);
      Decides(out, yes, no)
  {
    assert fits.Some? ==> fits == if fits.value then Some(true) else Some(false);
  }

  lemma TypeDecides(v: Value, f: seq<Member>, path: string)
    ensures Decides(CheckType(v, f, path), TypeHolds(v, f), TypeFails(v, f))
  {
    hide OneFits, NoneFits, AnyType, Decides, When;
    if Has(f, "type") {
      var names := TypeNames(Get(f, "type").value);
      AnyTypeDecides(v, names);
      FitsDecide(AnyType(v, names), OneFits(v, names), NoneFits(v, names), path);
    } else {
      NoTypeDecides(v, f, path);
    }
  }

  lemma NoTypeDecides(v: Value, f: seq<Member>, path: string)
    requires !Has(f, "type")
    ensures Decides(CheckType(v, f, path), TypeHolds(v, f), TypeFails(v, f))
  {
  }

  lemma BoundIsNumber(env: Env, f: seq<Member>, key: string)
    ensures Has(f, key) && Numeric(Get(f, key).value) <==> Bound(env, f, key).Some?
    ensures Bound(env, f, key).Some? ==> Bound(env, f, key).value == Number(env.num, Get(f, key).value)
    ensures IsNumber(f, key) <==> (Has(f, key) ==> Numeric(Get(f, key).value))
  {
  }

  lemma CompareDecides(env: Env, f: seq<Member>, key: string, breaks: real -> bool, path: string, rule: Rule)
    ensures Decides(Compare(env, f, key, breaks, path, rule),
                    IsNumber(f, key) && (Bound(env, f, key).Some? ==> !breaks(Bound(env, f, key).value)),
                    Bound(env, f, key).Some? && breaks(Bound(env, f, key).value))
  {
    BoundIsNumber(env, f, key);
  }

  lemma ConstEnumDecides(env: Env, v: Value, f: seq<Member>, path: string)
    ensures
      var sensible := match Get(f, "enum") case None => true case Some(e) => e.Arr?;
      Decides(CheckConstEnum(env, v, f, path), sensible && ConstHolds(env, v, f) && EnumHolds(env, v, f),
              sensible && !(ConstHolds(env, v, f) && EnumHolds(env, v, f)))
  {
  }

  ghost predicate StringSensible(f: seq<Member>) {
    IsNumber(f, "minLength") && IsNumber(f, "maxLength") && match Get(f, "pattern") case None => true case Some(p) => p.Str?
  }

  lemma StringDecides(env: Env, v: Value, f: seq<Member>, path: string)
    ensures Decides(CheckString(env, v, f, path),
                    (v.Str? ==> StringSensible(f)) && LengthHolds(env, v, f) && PatternHolds(env, v, f),
                    v.Str? && StringSensible(f) && !(LengthHolds(env, v, f) && PatternHolds(env, v, f)))
  {
    hide Bound, IsNumber, Compare;
    if v.Str? {
      var n := |v.s| as real;
      CompareDecides(env, f, "minLength", x => n < x, path, TooShort);
      CompareDecides(env, f, "maxLength", x => n > x, path, TooLong);
      BoundsAreNumbers(env, f);
    }
  }

  lemma BoundsAreNumbers(env: Env, f: seq<Member>)
    ensures forall key :: Bound(env, f, key).Some? ==> IsNumber(f, key)
  {
  }

  ghost predicate NumberSensible(f: seq<Member>) {
    IsNumber(f, "minimum") && IsNumber(f, "maximum") && IsNumber(f, "exclusiveMinimum") && IsNumber(f, "exclusiveMaximum")
  }

  lemma NumberDecides(env: Env, v: Value, f: seq<Member>, path: string)
    ensures Decides(CheckNumber(env, v, f, path),
                    (v.Int? || v.Float? ==> NumberSensible(f)) && RangeHolds(env, v, f),
                    (v.Int? || v.Float?) && NumberSensible(f) && !RangeHolds(env, v, f))
  {
    hide Bound, IsNumber, Compare;
    if v.Int? || v.Float? {
      var n := Number(env.num, v);
      CompareDecides(env, f, "minimum", x => n < x, path, BelowMinimum);
      CompareDecides(env, f, "maximum", x => n > x, path, AboveMaximum);
      CompareDecides(env, f, "exclusiveMinimum", x => n <= x, path, NotAboveMinimum);
      CompareDecides(env, f, "exclusiveMaximum", x => n >= x, path, NotBelowMaximum);
      BoundsAreNumbers(env, f);
    }
  }

  lemma ScalarsDecide(env: Env, v: Value, f: seq<Member>, path: string)
    ensures Decides(CheckScalars(env, v, f, path), ScalarsSensible(v, f) && ScalarsHold(env, v, f),
                    ScalarsSensible(v, f) && !ScalarsHold(env, v, f))
  {
    hide CheckConstEnum, CheckString, CheckNumber, ConstHolds, EnumHolds, LengthHolds, PatternHolds, RangeHolds, IsNumber;
    ConstEnumDecides(env, v, f, path);
    StringDecides(env, v, f, path);
    NumberDecides(env, v, f, path);
    OtherKindsHold(env, v, f);
  }

  lemma OtherKindsHold(env: Env, v: Value, f: seq<Member>)
    ensures !v.Str? ==> LengthHolds(env, v, f) && PatternHolds(env, v, f)
    ensures !v.Int? && !v.Float? ==> RangeHolds(env, v, f)
  {
  }

  lemma {:induction false} NamesDecide(names: seq<Value>, fields: seq<Member>, path: string)
    ensures CheckNames(names, fields, path).Checked? <==> forall name | name in names :: name.Str?
    ensures CheckNames(names, fields, path).Checked? ==>
              (CheckNames(names, fields, path).errors == [] <==> forall name | name in names && name.Str? :: Has(fields, name.s))
  {
    if names == [] {
    } else {
      NamesDecide(names[1..], fields, path);
      assert names == [names[0]] + names[1..];
    }
  }

  lemma RequiredDecides(v: Value, f: seq<Member>, path: string)
    requires v.Obj?
    ensures Decides(CheckRequired(v, f, path), RequiredSensible(f) && RequiredHolds(v, f), RequiredSensible(f) && !RequiredHolds(v, f))
  {
    if Has(f, "required") && Get(f, "required").value.Arr? {
      var names := Get(f, "required").value.items;
      NamesDecide(names, v.fields, path);
      forall name | name in names && name.Str? ensures Has(v.fields, name.s) <==> exists m | m in v.fields :: m.key == name.s {
        HasMember(v.fields, name.s);
      }
    }
  }

  lemma HasMember(fields: seq<Member>, key: string)
    ensures Has(fields, key) <==> exists m | m in fields :: m.key == key
  {
    if Has(fields, key) {
      assert Member(key, Get(fields, key).value) in fields;
    }
  }

  lemma FalsyIsNotTruthy(num: string -> real, k: Value)
    ensures Falsy(num, k) <==> !Truthy(num, k)
  {
  }

  lemma UniqueDecides(env: Env, v: Value, f: seq<Member>)
    requires WellFormed(v) && v.Arr?
    ensures UniqueHolds(env, v, f) <==>
              !(Has(f, "uniqueItems") && Truthy(env.num, Get(f, "uniqueItems").value) && AnyRepeated(Texts(v.items)))
  {
    TextsFindRepeats(v.items);
    hide SameJson, AnyRepeated, WellFormed, Truthy, Falsy;
    if Has(f, "uniqueItems") {
      FalsyIsNotTruthy(env.num, Get(f, "uniqueItems").value);
    }
  }

  lemma ListDecides(env: Env, v: Value, f: seq<Member>, path: string)
    requires WellFormed(v) && v.Arr?
    ensures Decides(CheckList(env, v, f, path), IsNumber(f, "minItems") && ListHolds(env, v, f),
                    IsNumber(f, "minItems") && !ListHolds(env, v, f))
  {
    hide WellFormed, AnyRepeated, Truthy, UniqueHolds, IsNumber, Compare;
    UniqueDecides(env, v, f);
    BoundsAreNumbers(env, f);
    var n := |v.items| as real;
    CompareDecides(env, f, "minItems", x => n < x, path, TooFewItems);
  }

  lemma FiveDecide(a: Outcome, p: bool, pn: bool, b: Outcome, q: bool, qn: bool, c: Outcome, r: bool, rn: bool,
                   d: Outcome, s: bool, sn: bool, e: Outcome, t: bool, tn: bool)
    requires Decides(a, p, pn) && Decides(b, q, qn) && Decides(c, r, rn) && Decides(d, s, sn) && Decides(e, t, tn)
    ensures Decides(And(a, And(b, And(c, And(d, e)))), p && q && r && s && t,
                    && (p || pn) && (q || qn) && (r || rn) && (s || sn) && (t || tn)
                    && (pn || qn || rn || sn || tn))
  {
  }

  lemma CheckUnfolds(depth: nat, env: Env, v: Value, n: Node, path: string)
    requires depth > 0
    ensures n.schema.Obj? && AllSupported(n.schema.fields) ==>
              Check(depth, env, v, n, path) == And(CheckRef(depth - 1, env, v, n, path), CheckTyped(depth - 1, env, v, n, path))
    ensures !n.schema.Obj? || !AllSupported(n.schema.fields) ==> Check(depth, env, v, n, path).Refused?
  {
    hide CheckRef, CheckTyped;
  }

  /** What `validate` returns is an argument: an empty list exactly when the value satisfies the schema within
      the depth it had, findings exactly when it violates it, and an exception otherwise. */
  lemma {:induction false} ValidateJudges(depth: nat, env: Env, v: Value, n: Node, path: string)
    requires WellFormed(v)
    ensures Decides(Check(depth, env, v, n, path), Accepts(depth, env, v, n), Rejects(depth, env, v, n))
    decreases depth, 0
  {
    hide Check, RefAccepts, RefRejects, RestAccepts, RestRejects, TypeHolds, TypeFails, CheckRef, CheckTyped, WellFormed, AllSupported,
         Understood;
    if depth == 0 {
      NoDepthNoVerdict(env, v, n, path);
    } else {
      CheckUnfolds(depth, env, v, n, path);
      if n.schema.Obj? {
        SupportedIsUnderstood(n.schema.fields);
        if Understood(n.schema.fields) {
          OneTypeVerdict(v, n.schema.fields);
          RefJudges(depth - 1, env, v, n, path);
          TypedJudges(depth - 1, env, v, n, path);
        }
      }
    }
  }

  lemma NoDepthNoVerdict(env: Env, v: Value, n: Node, path: string)
    ensures Check(0, env, v, n, path).Refused?
  {
  }

  lemma {:induction false} TypedJudges(depth: nat, env: Env, v: Value, n: Node, path: string)
    requires WellFormed(v) && n.schema.Obj?
    ensures Decides(CheckTyped(depth, env, v, n, path),
                    TypeHolds(v, n.schema.fields) && RestAccepts(depth, env, v, n),
                    TypeFails(v, n.schema.fields) || (TypeHolds(v, n.schema.fields) && RestRejects(depth, env, v, n)))
    decreases depth, 4
  {
    hide RestAccepts, RestRejects, CheckRest, CheckType, TypeHolds, TypeFails;
    OneTypeVerdict(v, n.schema.fields);
    TypeDecides(v, n.schema.fields, path);
    RestJudges(depth, env, v, n, path);
  }

  lemma {:induction false} RestJudges(depth: nat, env: Env, v: Value, n: Node, path: string)
    requires WellFormed(v) && n.schema.Obj?
    ensures Decides(CheckRest(depth, env, v, n, path), RestAccepts(depth, env, v, n), RestRejects(depth, env, v, n))
    decreases depth, 3
  {
    hide CheckScalars, CheckObject, CheckArray, CheckAllOf, CheckIf, And, Decides;
    hide ScalarsHold, ScalarsSensible, ObjectAccepts, ArrayAccepts, AllAccept, IfAccepts, ObjectRejects, ArrayRejects, AllReject, IfRejects;
    ScalarsDecide(env, v, n.schema.fields, path);
    ObjectJudges(depth, env, v, n, path);
    ArrayJudges(depth, env, v, n, path);
    AllOfJudges(depth, env, v, n, path);
    IfJudges(depth, env, v, n, path);
    FiveDecide(CheckScalars(env, v, n.schema.fields, path),
               ScalarsSensible(v, n.schema.fields) && ScalarsHold(env, v, n.schema.fields),
               ScalarsSensible(v, n.schema.fields) && !ScalarsHold(env, v, n.schema.fields),
               CheckObject(depth, env, v, n, path), ObjectAccepts(depth, env, v, n), ObjectRejects(depth, env, v, n),
               CheckArray(depth, env, v, n, path), ArrayAccepts(depth, env, v, n), ArrayRejects(depth, env, v, n),
               CheckAllOf(depth, env, v, n, path), AllAccept(depth, env, v, n), AllReject(depth, env, v, n),
               CheckIf(depth, env, v, n, path), IfAccepts(depth, env, v, n), IfRejects(depth, env, v, n));
  }

  lemma {:induction false} RefJudges(depth: nat, env: Env, v: Value, n: Node, path: string)
    requires WellFormed(v) && n.schema.Obj?
    ensures Decides(CheckRef(depth, env, v, n, path), RefAccepts(depth, env, v, n), RefRejects(depth, env, v, n))
    decreases depth, 1
  {
    hide Check, Accepts, Rejects, WellFormed;
    if HasRef(n.schema) && Referred(env, n).Target? {
      ValidateJudges(depth, env, v, Referred(env, n).node, path);
    }
  }

  lemma {:induction false} ObjectJudges(depth: nat, env: Env, v: Value, n: Node, path: string)
    requires WellFormed(v) && n.schema.Obj?
    ensures Decides(CheckObject(depth, env, v, n, path), ObjectAccepts(depth, env, v, n), ObjectRejects(depth, env, v, n))
    decreases depth, 2
  {
    hide MemberAccepts, MemberRejects, CheckMember, CheckRequired, WellFormed, RequiredHolds, RequiredSensible;
    if v.Obj? {
      RequiredDecides(v, n.schema.fields, path);
      var outs := MemberOutcomes(depth, env, v, n, path);
      AllDecide(outs);
      forall i | 0 <= i < |v.fields|
        ensures Decides(outs[i], MemberAccepts(depth, env, v, n, i), MemberRejects(depth, env, v, n, i))
      {
        MemberJudges(depth, env, v, n, path, i);
      }
    }
  }

  lemma {:induction false} MemberJudges(depth: nat, env: Env, v: Value, n: Node, path: string, i: nat)
    requires WellFormed(v) && n.schema.Obj? && v.Obj? && i < |v.fields|
    ensures Decides(CheckMember(depth, env, v, n, path, i), MemberAccepts(depth, env, v, n, i), MemberRejects(depth, env, v, n, i))
    decreases depth, 1
  {
    hide Check, Accepts, Rejects;
    var m := v.fields[i];
    HasMember(Properties(n.schema.fields), m.key);
    if MemberSchema(n, m.key).Some? {
      ValidateJudges(depth, env, m.val, MemberSchema(n, m.key).value, path + "/" + m.key);
    }
  }

  lemma {:induction false} ArrayJudges(depth: nat, env: Env, v: Value, n: Node, path: string)
    requires WellFormed(v) && n.schema.Obj?
    ensures Decides(CheckArray(depth, env, v, n, path), ArrayAccepts(depth, env, v, n), ArrayRejects(depth, env, v, n))
    decreases depth, 2
  {
    hide Check, Accepts, Rejects, ListHolds, CheckList, IsNumber;
    if v.Arr? {
      ListDecides(env, v, n.schema.fields, path);
      if Has(n.schema.fields, "items") {
        var sub := Node(Get(n.schema.fields, "items").value, n.doc);
        var outs := ItemOutcomes(depth, env, v, n, path);
        AllDecide(outs);
        forall i | 0 <= i < |v.items|
          ensures Decides(outs[i], Accepts(depth, env, v.items[i], sub), Rejects(depth, env, v.items[i], sub))
        {
          assert outs[i] == CheckItem(depth, env, v, n, path, i);
          ValidateJudges(depth, env, v.items[i], sub, path + "/" + NatText(i));
        }
      }
    }
  }

  lemma {:induction false} AllOfJudges(depth: nat, env: Env, v: Value, n: Node, path: string)
    requires WellFormed(v) && n.schema.Obj?
    ensures Decides(CheckAllOf(depth, env, v, n, path), AllAccept(depth, env, v, n), AllReject(depth, env, v, n))
    decreases depth, 2
  {
    hide Check, Accepts, Rejects, WellFormed;
    var outs := AllOfOutcomes(depth, env, v, n, path);
    AllDecide(outs);
    forall i | 0 <= i < |AllOf(n.schema)|
      ensures Decides(outs[i], Accepts(depth, env, v, Node(AllOf(n.schema)[i], n.doc)), Rejects(depth, env, v, Node(AllOf(n.schema)[i], n.doc)))
    {
      assert outs[i] == CheckAllOfAt(depth, env, v, n, path, i);
      ValidateJudges(depth, env, v, Node(AllOf(n.schema)[i], n.doc), path);
    }
  }

  lemma {:induction false} IfJudges(depth: nat, env: Env, v: Value, n: Node, path: string)
    requires WellFormed(v) && n.schema.Obj?
    ensures Decides(CheckIf(depth, env, v, n, path), IfAccepts(depth, env, v, n), IfRejects(depth, env, v, n))
    decreases depth, 2
  {
    hide Check, Accepts, Rejects, WellFormed;
    forall key | key in {"if", "then", "else"} && Has(n.schema.fields, key)
      ensures
        var sub := Node(Get(n.schema.fields, key).value, n.doc);
        Decides(Check(depth, env, v, sub, path), Accepts(depth, env, v, sub), Rejects(depth, env, v, sub))
    {
      ValidateJudges(depth, env, v, Node(Get(n.schema.fields, key).value, n.doc), path);
    }
  }

  /** The evaluator's verdict is the schema's meaning: whenever `validate` returns a finding list, for any
      value, any schema and any stack, the list is empty exactly when the value satisfies the schema, and
      otherwise the value violates it. */
  lemma ValidateDecides(depth: nat, env: Env, v: Value, n: Node, path: string)
    requires WellFormed(v) && Check(depth, env, v, n, path).Checked?
    ensures Check(depth, env, v, n, path).errors == [] <==> Satisfies(env, v, n)
    ensures Check(depth, env, v, n, path).errors != [] <==> Violates(env, v, n)
  {
    hide Check, Accepts, Rejects, WellFormed;
    ValidateJudges(depth, env, v, n, path);
    forall d: nat, e: nat ensures !(Accepts(d, env, v, n) && Rejects(e, env, v, n)) {
      NeverBoth(d, e, env, v, n);
    }
  }

  /** With `depth` calls left `validate` returns an empty list. */
  ghost predicate Passes(depth: nat, env: Env, v: Value, n: Node, path: string) { Clean(Check(depth, env, v, n, path)) }

  /** It returns findings. */
  ghost predicate Complains(depth: nat, env: Env, v: Value, n: Node, path: string) { Found(Check(depth, env, v, n, path)) }

  /** And it reaches every verdict there is: a value that satisfies the schema gets an empty list, and one
      that violates it gets findings, with stack enough. */
  lemma EveryVerdictIsReached(env: Env, v: Value, n: Node, path: string)
    requires WellFormed(v)
    ensures Satisfies(env, v, n) <==> exists depth: nat :: Passes(depth, env, v, n, path)
    ensures Violates(env, v, n) <==> exists depth: nat :: Complains(depth, env, v, n, path)
  {
    hide Passes, Complains, Accepts, Rejects, WellFormed;
    forall depth: nat
      ensures Passes(depth, env, v, n, path) <==> Accepts(depth, env, v, n)
      ensures Complains(depth, env, v, n, path) <==> Rejects(depth, env, v, n)
    {
      AtThisDepth(depth, env, v, n, path);
    }
    if Satisfies(env, v, n) {
      var depth: nat :| Accepts(depth, env, v, n);
      assert Passes(depth, env, v, n, path);
    }
    if Violates(env, v, n) {
      var depth: nat :| Rejects(depth, env, v, n);
      assert Complains(depth, env, v, n, path);
    }
  }

  lemma AtThisDepth(depth: nat, env: Env, v: Value, n: Node, path: string)
    requires WellFormed(v)
    ensures Passes(depth, env, v, n, path) <==> Accepts(depth, env, v, n)
    ensures Complains(depth, env, v, n, path) <==> Rejects(depth, env, v, n)
  {
    hide Check, Accepts, Rejects, WellFormed;
    ValidateJudges(depth, env, v, n, path);
  }
}
