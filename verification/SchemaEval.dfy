/** The schema evaluator: the finding list it builds, node by node. */
module SchemaEval {
  import opened Options
  import opened Json
  import opened Numerals
  import opened SchemaGraph
  import opened SchemaMeaning

  datatype Rule =
    | WrongType | NotConst | NotInEnum
    | TooShort | TooLong | NoPatternMatch
    | BelowMinimum | AboveMaximum | NotAboveMinimum | NotBelowMaximum
    | Missing(name: string) | Unexpected(name: string)
    | TooFewItems | NotUnique

  datatype Violation = Violation(path: string, rule: Rule)

  /** The returned list, or the exception that replaced it. */
  datatype Outcome = Checked(errors: seq<Violation>) | Refused(why: Refusal)

  function And(a: Outcome, b: Outcome): Outcome {
    if a.Refused? then a else if b.Refused? then b else Checked(a.errors + b.errors)
  }

  function When(bad: bool, path: string, rule: Rule): Outcome {
    Checked(if bad then [Violation(path, rule)] else [])
  }

  /** Outcomes one after the other: all findings in order, or the first exception. */
  function AndAll(outs: seq<Outcome>): Outcome {
    if outs == [] then Checked([]) else And(outs[0], AndAll(outs[1..]))
  }

  lemma AndAllStep(errors: seq<Violation>, outs: seq<Outcome>, i: nat)
    requires i < |outs|
    ensures outs[i].Refused? ==> And(Checked(errors), AndAll(outs[i..])) == outs[i]
    ensures outs[i].Checked? ==>
              And(Checked(errors), AndAll(outs[i..])) == And(Checked(errors + outs[i].errors), AndAll(outs[i + 1..]))
  {
    assert outs[i..][0] == outs[i] && outs[i..][1..] == outs[i + 1..];
    var rest := AndAll(outs[i + 1..]);
    if outs[i].Checked? && rest.Checked? {
      assert errors + (outs[i].errors + rest.errors) == errors + outs[i].errors + rest.errors;
    }
  }

  // ---- the keywords that look at the value itself ------------------------------

  /** `any(_type_ok(value, t) for t in types)`: stops at the first that fits, raises on the first
      unknown name before it. */
  function AnyType(v: Value, types: seq<Value>): Option<bool> {
    if types == [] then Some(false)
    else if !KnownType(types[0]) then None
    else if HasType(v, types[0].s) then Some(true)
    else AnyType(v, types[1..])
  }

  function CheckType(v: Value, f: seq<Member>, path: string): Outcome {
    if !Has(f, "type") then Checked([])
    else
      match AnyType(v, TypeNames(Get(f, "type").value))
      case None => Refused(UnknownType)
      case Some(fits) => When(!fits, path, WrongType)
  }

  /** A numeric keyword: nothing to check when absent, an exception when it is not a number. */
  function Compare(env: Env, f: seq<Member>, key: string, breaks: real -> bool, path: string, rule: Rule): Outcome {
    if !Has(f, key) then Checked([])
    else if !Numeric(Get(f, key).value) then Refused(BadKeyword)
    else When(breaks(Number(env.num, Get(f, key).value)), path, rule)
  }

  function CheckConstEnum(env: Env, v: Value, f: seq<Member>, path: string): Outcome {
    And(
      When(Has(f, "const") && !PyEq(env.num, v, Get(f, "const").value), path, NotConst),
      if !Has(f, "enum") then Checked([])
      else if !Get(f, "enum").value.Arr? then Refused(BadKeyword)
      else
        var choices := Get(f, "enum").value.items;
        When(!exists c | c in choices :: PyEq(env.num, v, c), path, NotInEnum))
  }

  function CheckString(env: Env, v: Value, f: seq<Member>, path: string): Outcome {
    if !v.Str? then Checked([])
    else
      var n := |v.s| as real;
      And(Compare(env, f, "minLength", x => n < x, path, TooShort),
      And(Compare(env, f, "maxLength", x => n > x, path, TooLong),
          if !Has(f, "pattern") then Checked([])
          else if !Get(f, "pattern").value.Str? then Refused(BadKeyword)
          else When(!env.search(Get(f, "pattern").value.s, v.s), path, NoPatternMatch)))
  }

  function CheckNumber(env: Env, v: Value, f: seq<Member>, path: string): Outcome {
    if !v.Int? && !v.Float? then Checked([])
    else
      var n := Number(env.num, v);
      And(Compare(env, f, "minimum", x => n < x, path, BelowMinimum),
      And(Compare(env, f, "maximum", x => n > x, path, AboveMaximum),
      And(Compare(env, f, "exclusiveMinimum", x => n <= x, path, NotAboveMinimum),
          Compare(env, f, "exclusiveMaximum", x => n >= x, path, NotBelowMaximum))))
  }

  function CheckScalars(env: Env, v: Value, f: seq<Member>, path: string): Outcome {
    And(CheckConstEnum(env, v, f, path), And(CheckString(env, v, f, path), CheckNumber(env, v, f, path)))
  }

  function CheckNames(names: seq<Value>, fields: seq<Member>, path: string): Outcome {
    if names == [] then Checked([])
    else if !names[0].Str? then Refused(BadKeyword)
    else And(When(!Has(fields, names[0].s), path, Missing(names[0].s)), CheckNames(names[1..], fields, path))
  }

  function CheckRequired(v: Value, f: seq<Member>, path: string): Outcome
    requires v.Obj?
  {
    if !Has(f, "required") then Checked([])
    else if !Get(f, "required").value.Arr? then Refused(BadKeyword)
    else CheckNames(Get(f, "required").value.items, v.fields, path)
  }

  function CheckList(env: Env, v: Value, f: seq<Member>, path: string): Outcome
    requires v.Arr?
  {
    var n := |v.items| as real;
    And(Compare(env, f, "minItems", x => n < x, path, TooFewItems),
        When(Has(f, "uniqueItems") && Truthy(env.num, Get(f, "uniqueItems").value)
             && AnyRepeated(Texts(v.items)), path, NotUnique))
  }

  // ---- the nodes a node hands on to --------------------------------------------

  function Field(n: Node, key: string): Node
    requires n.schema.Obj? && Has(n.schema.fields, key)
  {
    Node(Get(n.schema.fields, key).value, n.doc)
  }

  /** The schema for a member: its `properties` entry, else `additionalProperties` if that is a schema. */
  function MemberSchema(n: Node, key: string): Option<Node>
    requires n.schema.Obj?
  {
    var f := n.schema.fields;
    if Has(Properties(f), key) then Some(Node(Get(Properties(f), key).value, n.doc))
    else if Has(f, "additionalProperties") && Get(f, "additionalProperties").value.Obj?
      then Some(Field(n, "additionalProperties"))
    else None
  }

  predicate Forbidden(f: seq<Member>, key: string) {
    !Has(Properties(f), key) && Get(f, "additionalProperties") == Some(Bool(false))
  }

  // ---- the whole evaluation ----------------------------------------------------

  /** The outcome of `validate(value, schema, store, doc, path)` when `depth` nested calls are left before
      Python's recursion limit. */
  function Check(depth: nat, env: Env, v: Value, n: Node, path: string): Outcome
    decreases depth, 0, 0
  {
    if depth == 0 then Refused(TooDeep)
    else if !n.schema.Obj? then Refused(NotASchema)
    else if !AllSupported(n.schema.fields) then Refused(UnsupportedKeyword)
    else And(CheckRef(depth - 1, env, v, n, path), CheckTyped(depth - 1, env, v, n, path))
  }

  /** The type test returns early when it fails. */
  function CheckTyped(depth: nat, env: Env, v: Value, n: Node, path: string): Outcome
    requires n.schema.Obj?
    decreases depth, 4, 1
  {
    var types := CheckType(v, n.schema.fields, path);
    if types.Refused? || types.errors != [] then types else CheckRest(depth, env, v, n, path)
  }

  function CheckRef(depth: nat, env: Env, v: Value, n: Node, path: string): Outcome
    requires n.schema.Obj?
    decreases depth, 4, 0
  {
    if !Has(n.schema.fields, "$ref") then Checked([])
    else if !HasRef(n.schema) then Refused(BadKeyword)
    else
      match Resolve(env.files, Get(n.schema.fields, "$ref").value.s, n.doc)
      case NoTarget(why) => Refused(why)
      case Target(t) => Check(depth, env, v, t, path)
  }

  /** Everything after the type test. */
  function CheckRest(depth: nat, env: Env, v: Value, n: Node, path: string): Outcome
    requires n.schema.Obj?
    decreases depth, 4, 0
  {
    And(CheckScalars(env, v, n.schema.fields, path),
    And(CheckObject(depth, env, v, n, path),
    And(CheckArray(depth, env, v, n, path),
    And(CheckAllOf(depth, env, v, n, path),
        CheckIf(depth, env, v, n, path)))))
  }

  function CheckObject(depth: nat, env: Env, v: Value, n: Node, path: string): Outcome
    requires n.schema.Obj?
    decreases depth, 3, 0
  {
    if !v.Obj? then Checked([])
    else And(CheckRequired(v, n.schema.fields, path), CheckMembers(depth, env, v, n, path))
  }

  function CheckArray(depth: nat, env: Env, v: Value, n: Node, path: string): Outcome
    requires n.schema.Obj?
    decreases depth, 3, 0
  {
    if !v.Arr? then Checked([])
    else And(CheckList(env, v, n.schema.fields, path), CheckItems(depth, env, v, n, path))
  }

  function CheckMembers(depth: nat, env: Env, v: Value, n: Node, path: string): Outcome
    requires n.schema.Obj? && v.Obj?
    decreases depth, 2, 1
  {
    if Has(n.schema.fields, "properties") && !Get(n.schema.fields, "properties").value.Obj? then Refused(BadKeyword)
    else AndAll(MemberOutcomes(depth, env, v, n, path))
  }

  function MemberOutcomes(depth: nat, env: Env, v: Value, n: Node, path: string): (outs: seq<Outcome>)
    requires n.schema.Obj? && v.Obj?
    ensures |outs| == |v.fields|
    decreases depth, 2, 0
  {
    seq(|v.fields|, i requires 0 <= i < |v.fields| => CheckMember(depth, env, v, n, path, i))
  }

  function CheckMember(depth: nat, env: Env, v: Value, n: Node, path: string, i: nat): Outcome
    requires n.schema.Obj? && v.Obj? && i < |v.fields|
    decreases depth, 1, 0
  {
    var m := v.fields[i];
    match MemberSchema(n, m.key)
    case Some(sub) =>
        Check(depth, env, m.val, sub, path + "/" + m.key)
    case None => When(Forbidden(n.schema.fields, m.key), path, Unexpected(m.key))
  }

  function CheckItems(depth: nat, env: Env, v: Value, n: Node, path: string): Outcome
    requires n.schema.Obj? && v.Arr?
    decreases depth, 2, 1
  {
    if !Has(n.schema.fields, "items") then Checked([]) else AndAll(ItemOutcomes(depth, env, v, n, path))
  }

  function ItemOutcomes(depth: nat, env: Env, v: Value, n: Node, path: string): (outs: seq<Outcome>)
    requires n.schema.Obj? && v.Arr? && Has(n.schema.fields, "items")
    ensures |outs| == |v.items|
    decreases depth, 2, 0
  {
    seq(|v.items|, i requires 0 <= i < |v.items| => CheckItem(depth, env, v, n, path, i))
  }

  function CheckItem(depth: nat, env: Env, v: Value, n: Node, path: string, i: nat): Outcome
    requires n.schema.Obj? && v.Arr? && Has(n.schema.fields, "items") && i < |v.items|
    decreases depth, 1, 0
  {
    Check(depth, env, v.items[i], Field(n, "items"), path + "/" + NatText(i))
  }

  function CheckAllOf(depth: nat, env: Env, v: Value, n: Node, path: string): Outcome
    requires n.schema.Obj?
    decreases depth, 3, 0
  {
    if Has(n.schema.fields, "allOf") && !Get(n.schema.fields, "allOf").value.Arr? then Refused(BadKeyword)
    else AndAll(AllOfOutcomes(depth, env, v, n, path))
  }

  function AllOfOutcomes(depth: nat, env: Env, v: Value, n: Node, path: string): (outs: seq<Outcome>)
    ensures |outs| == |AllOf(n.schema)|
    decreases depth, 2, 0
  {
    seq(|AllOf(n.schema)|, i requires 0 <= i < |AllOf(n.schema)| => CheckAllOfAt(depth, env, v, n, path, i))
  }

  function CheckAllOfAt(depth: nat, env: Env, v: Value, n: Node, path: string, i: nat): Outcome
    requires i < |AllOf(n.schema)|
    decreases depth, 1, 0
  {
    Check(depth, env, v, Node(AllOf(n.schema)[i], n.doc), path)
  }

  /** The findings of `if` are only counted, never reported. */
  function CheckIf(depth: nat, env: Env, v: Value, n: Node, path: string): Outcome
    requires n.schema.Obj?
    decreases depth, 3, 0
  {
    var f := n.schema.fields;
    if !Has(f, "if") then Checked([])
    else
      var test := Check(depth, env, v, Field(n, "if"), path);
      if test.Refused? then test
      else
        var branch := if test.errors == [] then "then" else "else";
        if !Has(f, branch) then Checked([])
        else Check(depth, env, v, Field(n, branch), path)
  }

  // ---- validate ----------------------------------------------------------------

  /** `validate`, with its growing `errors` list and the store it loads files through; `depth` nested calls
      are left. */
  method Validate(depth: nat, v: Value, n: Node, store: SchemaStore, path: string) returns (out: Outcome)
    requires store.Valid()
    modifies store
    ensures store.Valid() && old(store.cache.Keys) <= store.cache.Keys
    ensures out == Check(depth, store.env, v, n, path)
    decreases depth, 0
  {
    if depth == 0 {
      return Refused(TooDeep);
    }
    if !n.schema.Obj? {
      return Refused(NotASchema);
    }
    var f := n.schema.fields;
    if !AllSupported(f) {
      return Refused(UnsupportedKeyword);
    }
    var errors := ValidateRef(depth - 1, v, n, store, path);
    if errors.Refused? {
      return errors;
    }
    var types := CheckType(v, f, path);
    if types.Refused? || types.errors != [] {
      return And(errors, types);
    }
    var rest := ValidateRest(depth - 1, v, n, store, path);
    return And(errors, rest);
  }

  /** `if "$ref" in schema:` */
  method ValidateRef(depth: nat, v: Value, n: Node, store: SchemaStore, path: string) returns (out: Outcome)
    requires store.Valid() && n.schema.Obj?
    modifies store
    ensures store.Valid() && old(store.cache.Keys) <= store.cache.Keys
    ensures out == CheckRef(depth, store.env, v, n, path)
    decreases depth, 4
  {
    if !Has(n.schema.fields, "$ref") {
      return Checked([]);
    }
    var ref := Get(n.schema.fields, "$ref").value;
    if !ref.Str? {
      return Refused(BadKeyword);
    }
    var target := store.ResolveRef(ref.s, n.doc);
    if target.NoTarget? {
      return Refused(target.why);
    }
    out := Validate(depth, v, target.node, store, path);
  }

  /** The part of `validate` after the type test. */
  method ValidateRest(depth: nat, v: Value, n: Node, store: SchemaStore, path: string) returns (out: Outcome)
    requires store.Valid() && n.schema.Obj?
    modifies store
    ensures store.Valid() && old(store.cache.Keys) <= store.cache.Keys
    ensures out == CheckRest(depth, store.env, v, n, path)
    decreases depth, 4
  {
    var scalars := CheckScalars(store.env, v, n.schema.fields, path);
    if scalars.Refused? {
      return scalars;
    }
    var asDict := ValidateObject(depth, v, n, store, path);
    if asDict.Refused? {
      return asDict;
    }
    var asList := ValidateArray(depth, v, n, store, path);
    if asList.Refused? {
      return asList;
    }
    var all := ValidateAllOf(depth, v, n, store, path);
    if all.Refused? {
      return all;
    }
    var conditional := ValidateIf(depth, v, n, store, path);
    return And(scalars, And(asDict, And(asList, And(all, conditional))));
  }

  /** `if isinstance(value, dict):` */
  method ValidateObject(depth: nat, v: Value, n: Node, store: SchemaStore, path: string) returns (out: Outcome)
    requires store.Valid() && n.schema.Obj?
    modifies store
    ensures store.Valid() && old(store.cache.Keys) <= store.cache.Keys
    ensures out == CheckObject(depth, store.env, v, n, path)
    decreases depth, 3
  {
    if !v.Obj? {
      return Checked([]);
    }
    var required := CheckRequired(v, n.schema.fields, path);
    if required.Refused? {
      return required;
    }
    var members := ValidateMembers(depth, v, n, store, path);
    return And(required, members);
  }

  /** `if isinstance(value, list):` */
  method ValidateArray(depth: nat, v: Value, n: Node, store: SchemaStore, path: string) returns (out: Outcome)
    requires store.Valid() && n.schema.Obj?
    modifies store
    ensures store.Valid() && old(store.cache.Keys) <= store.cache.Keys
    ensures out == CheckArray(depth, store.env, v, n, path)
    decreases depth, 3
  {
    if !v.Arr? {
      return Checked([]);
    }
    var list := CheckList(store.env, v, n.schema.fields, path);
    if list.Refused? {
      return list;
    }
    var items := ValidateItems(depth, v, n, store, path);
    return And(list, items);
  }

  /** `for name, sub in value.items()`. */
  method ValidateMembers(depth: nat, v: Value, n: Node, store: SchemaStore, path: string) returns (out: Outcome)
    requires store.Valid() && n.schema.Obj? && v.Obj?
    modifies store
    ensures store.Valid() && old(store.cache.Keys) <= store.cache.Keys
    ensures out == CheckMembers(depth, store.env, v, n, path)
    decreases depth, 2, 1
  {
    hide Check;
    if Has(n.schema.fields, "properties") && !Get(n.schema.fields, "properties").value.Obj? {
      return Refused(BadKeyword);
    }
    ghost var outs := MemberOutcomes(depth, store.env, v, n, path);
    var errors: seq<Violation> := [];
    var i := 0;
    while i < |v.fields|
      invariant 0 <= i <= |v.fields|
      invariant store.Valid() && old(store.cache.Keys) <= store.cache.Keys
      invariant AndAll(outs) == And(Checked(errors), AndAll(outs[i..]))
    {
      var here := ValidateMember(depth, v, n, store, path, i);
      AndAllStep(errors, outs, i);
      if here.Refused? {
        return here;
      }
      errors := errors + here.errors;
      i := i + 1;
    }
    return Checked(errors);
  }

  method ValidateMember(depth: nat, v: Value, n: Node, store: SchemaStore, path: string, i: nat) returns (out: Outcome)
    requires store.Valid() && n.schema.Obj? && v.Obj? && i < |v.fields|
    modifies store
    ensures store.Valid() && old(store.cache.Keys) <= store.cache.Keys
    ensures out == CheckMember(depth, store.env, v, n, path, i)
    decreases depth, 2, 0
  {
    var m := v.fields[i];
    var schema := MemberSchema(n, m.key);
    if schema.Some? {
        out := Validate(depth, m.val, schema.value, store, path + "/" + m.key);
    } else {
      out := When(Forbidden(n.schema.fields, m.key), path, Unexpected(m.key));
    }
  }

  /** `for i, item in enumerate(value)`. */
  method ValidateItems(depth: nat, v: Value, n: Node, store: SchemaStore, path: string) returns (out: Outcome)
    requires store.Valid() && n.schema.Obj? && v.Arr?
    modifies store
    ensures store.Valid() && old(store.cache.Keys) <= store.cache.Keys
    ensures out == CheckItems(depth, store.env, v, n, path)
    decreases depth, 2, 1
  {
    hide Check;
    if !Has(n.schema.fields, "items") {
      return Checked([]);
    }
    ghost var outs := ItemOutcomes(depth, store.env, v, n, path);
    var errors: seq<Violation> := [];
    var i := 0;
    while i < |v.items|
      invariant 0 <= i <= |v.items|
      invariant store.Valid() && old(store.cache.Keys) <= store.cache.Keys
      invariant AndAll(outs) == And(Checked(errors), AndAll(outs[i..]))
    {
      var here := ValidateItem(depth, v, n, store, path, i);
      AndAllStep(errors, outs, i);
      if here.Refused? {
        return here;
      }
      errors := errors + here.errors;
      i := i + 1;
    }
    return Checked(errors);
  }

  method ValidateItem(depth: nat, v: Value, n: Node, store: SchemaStore, path: string, i: nat) returns (out: Outcome)
    requires store.Valid() && n.schema.Obj?
    requires v.Arr? && Has(n.schema.fields, "items") && i < |v.items|
    modifies store
    ensures store.Valid() && old(store.cache.Keys) <= store.cache.Keys
    ensures out == CheckItem(depth, store.env, v, n, path, i)
    decreases depth, 2, 0
  {
    out := Validate(depth, v.items[i], Field(n, "items"), store, path + "/" + NatText(i));
  }

  /** `for sub in schema.get("allOf", [])`. */
  method ValidateAllOf(depth: nat, v: Value, n: Node, store: SchemaStore, path: string) returns (out: Outcome)
    requires store.Valid() && n.schema.Obj?
    modifies store
    ensures store.Valid() && old(store.cache.Keys) <= store.cache.Keys
    ensures out == CheckAllOf(depth, store.env, v, n, path)
    decreases depth, 3
  {
    hide Check;
    if Has(n.schema.fields, "allOf") && !Get(n.schema.fields, "allOf").value.Arr? {
      return Refused(BadKeyword);
    }
    var subs := AllOf(n.schema);
    ghost var outs := AllOfOutcomes(depth, store.env, v, n, path);
    var errors: seq<Violation> := [];
    var i := 0;
    while i < |subs|
      invariant 0 <= i <= |subs|
      invariant store.Valid() && old(store.cache.Keys) <= store.cache.Keys
      invariant AndAll(outs) == And(Checked(errors), AndAll(outs[i..]))
    {
      var here := ValidateAllOfAt(depth, v, n, store, path, i);
      AndAllStep(errors, outs, i);
      if here.Refused? {
        return here;
      }
      errors := errors + here.errors;
      i := i + 1;
    }
    return Checked(errors);
  }

  method ValidateAllOfAt(depth: nat, v: Value, n: Node, store: SchemaStore, path: string, i: nat) returns (out: Outcome)
    requires store.Valid() && i < |AllOf(n.schema)|
    modifies store
    ensures store.Valid() && old(store.cache.Keys) <= store.cache.Keys
    ensures out == CheckAllOfAt(depth, store.env, v, n, path, i)
    decreases depth, 2, 0
  {
    out := Validate(depth, v, Node(AllOf(n.schema)[i], n.doc), store, path);
  }

  method ValidateIf(depth: nat, v: Value, n: Node, store: SchemaStore, path: string) returns (out: Outcome)
    requires store.Valid() && n.schema.Obj?
    modifies store
    ensures store.Valid() && old(store.cache.Keys) <= store.cache.Keys
    ensures out == CheckIf(depth, store.env, v, n, path)
    decreases depth, 3
  {
    var f := n.schema.fields;
    if !Has(f, "if") {
      return Checked([]);
    }
    var test := Validate(depth, v, Field(n, "if"), store, path);
    if test.Refused? {
      return test;
    }
    if test.errors == [] {
      if Has(f, "then") {
        out := Validate(depth, v, Field(n, "then"), store, path);
        return;
      }
    } else if Has(f, "else") {
      out := Validate(depth, v, Field(n, "else"), store, path);
      return;
    }
    return Checked([]);
  }
}
