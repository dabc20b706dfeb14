/** When `validate` returns: how much stack it needs, and schemas for which it always has a verdict. */
module SchemaTermination {
  import opened Options
  import opened Json
  import opened Numerals
  import opened Pointers
  import opened SchemaGraph
  import opened SchemaMeaning
  import opened SchemaEval
  import opened SchemaTheorems
  import opened SchemaFindings

  // ---- where evaluation cannot come back to itself -------------------------------------------------

  /** Evaluation starts inside a schema file, and no node it can get to comes back to itself without
      first going down into the value. */
  ghost predicate Ready(env: Env, n: Node) {
    n in Nodes(env) && forall m | Visits(env, n, m) :: !Reaches(env, m, m)
  }

  /** What a ready node hands on to is ready, and along an in-place edge less is left to apply. */
  lemma HandsOn(env: Env, n: Node, c: Node)
    requires Ready(env, n) && c in Nodes(env) && SubSchema(env, n, c)
    ensures Ready(env, c)
    ensures Edge(env, n, c) ==> Below(env, c) < Below(env, n)
  {
    hide SubSchema, Edge, IsTrail;
    forall m | Visits(env, c, m) ensures !Reaches(env, m, m) {
      VisitsCons(env, n, c, m);
    }
    VisitsItself(env, c);
    if Edge(env, n, c) {
      EdgeDescends(env, n, c);
    }
  }

  lemma FieldReady(env: Env, n: Node, key: string)
    requires Ready(env, n) && n.schema.Obj? && Has(n.schema.fields, key)
    requires key in {"if", "then", "else", "items"}
    ensures Ready(env, Field(n, key))
    ensures key != "items" ==> Below(env, Field(n, key)) < Below(env, n)
  {
    hide Ready;
    ReadyInScope(env, n);
    FieldInScope(env, n, key);
    assert Get(n.schema.fields, key) == Some(Field(n, key).schema);
    assert key != "items" ==> Edge(env, n, Field(n, key));
    HandsOn(env, n, Field(n, key));
  }

  lemma ReadyInScope(env: Env, n: Node)
    requires Ready(env, n)
    ensures n in Nodes(env)
  {
  }

  lemma AllOfReady(env: Env, n: Node, i: nat)
    requires Ready(env, n) && i < |AllOf(n.schema)|
    ensures Ready(env, Node(AllOf(n.schema)[i], n.doc))
    ensures Below(env, Node(AllOf(n.schema)[i], n.doc)) < Below(env, n)
  {
    hide Ready;
    ReadyInScope(env, n);
    FieldInScope(env, n, "allOf");
    ItemInScope(env, Field(n, "allOf"), i);
    assert Edge(env, n, Node(AllOf(n.schema)[i], n.doc));
    HandsOn(env, n, Node(AllOf(n.schema)[i], n.doc));
  }

  lemma RefReady(env: Env, n: Node)
    requires Ready(env, n) && HasRef(n.schema)
    requires Resolve(env.files, Get(n.schema.fields, "$ref").value.s, n.doc).Target?
    ensures
      var t := Resolve(env.files, Get(n.schema.fields, "$ref").value.s, n.doc).node;
      Ready(env, t) && Below(env, t) < Below(env, n)
  {
    hide Ready;
    var ref := Get(n.schema.fields, "$ref").value.s;
    TargetInScope(env, ref, n.doc);
    assert Edge(env, n, Resolve(env.files, ref, n.doc).node);
    HandsOn(env, n, Resolve(env.files, ref, n.doc).node);
  }

  lemma MemberReady(env: Env, n: Node, key: string)
    requires Ready(env, n) && n.schema.Obj? && MemberSchema(n, key).Some?
    ensures Ready(env, MemberSchema(n, key).value)
  {
    hide Ready;
    ReadyInScope(env, n);
    var f := n.schema.fields;
    if Has(Properties(f), key) {
      FieldInScope(env, n, "properties");
      FieldInScope(env, Field(n, "properties"), key);
    } else {
      FieldInScope(env, n, "additionalProperties");
    }
    HandsOn(env, n, MemberSchema(n, key).value);
  }

  // ---- how deep it goes ---------------------------------------------------------------

  /** How many containers are nested in the value. */
  function Height(v: Value): nat {
    match v
    case Arr(items) => 1 + TallestItem(items)
    case Obj(fields) => 1 + TallestField(fields)
    case _ => 0
  }

  function TallestItem(items: seq<Value>): nat {
    if items == [] then 0
    else
      var rest := TallestItem(items[1..]);
      if Height(items[0]) > rest then Height(items[0]) else rest
  }

  function TallestField(fields: seq<Member>): nat {
    if fields == [] then 0
    else
      var rest := TallestField(fields[1..]);
      assert fields[0].val < fields[0];
      if Height(fields[0].val) > rest then Height(fields[0].val) else rest
  }

  lemma {:induction false} ItemIsLower(items: seq<Value>, i: nat)
    requires i < |items|
    ensures Height(items[i]) <= TallestItem(items)
  {
    if i == 0 {
    } else {
      ItemIsLower(items[1..], i - 1);
    }
  }

  lemma {:induction false} FieldIsLower(fields: seq<Member>, i: nat)
    requires i < |fields|
    ensures Height(fields[i].val) <= TallestField(fields)
  {
    if i == 0 {
    } else {
      FieldIsLower(fields[1..], i - 1);
    }
  }

  /** Enough stack for `v` at `n`: for every level of the value once through all schema nodes, and then the
      nodes still to come here. */
  ghost function Needed(env: Env, v: Value, n: Node): nat {
    Height(v) * (|Nodes(env)| + 1) + |Below(env, n)| + 1
  }

  lemma BelowIsSmall(env: Env, n: Node)
    ensures |Below(env, n)| <= |Nodes(env)|
  {
    SubsetSize(Below(env, n), Nodes(env));
  }

  lemma {:induction false} SubsetSize(s: set<Node>, t: set<Node>)
    requires s <= t
    ensures |s| <= |t|
  {
    if s == {} {
    } else {
      var x :| x in s;
      SubsetSize(s - {x}, t - {x});
    }
  }

  /** The same value at a node further down needs one call less. */
  lemma InPlaceNeedsLess(env: Env, v: Value, n: Node, c: Node)
    requires Below(env, c) < Below(env, n)
    ensures Needed(env, v, c) < Needed(env, v, n)
  {
    hide Below, Nodes, Height;
    var x :| x in Below(env, n) && x !in Below(env, c);
    SubsetSize(Below(env, c), Below(env, n) - {x});
  }

  /** So does a value nested in this one, at whatever node. */
  lemma InsideNeedsLess(env: Env, v: Value, w: Value, n: Node, c: Node)
    requires Height(w) < Height(v)
    ensures Needed(env, w, c) < Needed(env, v, n)
  {
    hide Below, Nodes, Height;
    BelowIsSmall(env, c);
    var k := |Nodes(env)| + 1;
    LevelsAdd(Height(w), Height(v), k);
  }

  lemma LevelsAdd(a: nat, b: nat, k: nat)
    requires a < b
    ensures a * k + k <= b * k
  {
    Scale(a + 1, b, k);
    assert (a + 1) * k == a * k + k;
  }

  lemma Scale(x: nat, y: nat, k: nat)
    requires x <= y
    ensures x * k <= y * k
  {
  }

  /** The outcome is not for want of stack. */
  predicate Fits(out: Outcome) { out != Refused(TooDeep) }

  lemma {:induction false} AllFit(outs: seq<Outcome>)
    requires forall i | 0 <= i < |outs| :: Fits(outs[i])
    ensures Fits(AndAll(outs))
  {
    if outs == [] {
    } else {
      assert forall i | 0 <= i < |outs| - 1 :: outs[1..][i] == outs[i + 1];
      AllFit(outs[1..]);
      assert Fits(outs[0]);
    }
  }

  lemma {:induction false} NamesFit(names: seq<Value>, fields: seq<Member>, path: string)
    ensures Fits(CheckNames(names, fields, path))
  {
    if names == [] {
    } else {
      NamesFit(names[1..], fields, path);
    }
  }

  lemma TypeFits(v: Value, f: seq<Member>, path: string)
    ensures Fits(CheckType(v, f, path))
  {
  }

  lemma ScalarsFit(env: Env, v: Value, f: seq<Member>, path: string)
    ensures Fits(CheckScalars(env, v, f, path))
  {
    StringFits(env, v, f, path);
    NumberFits(env, v, f, path);
  }

  lemma StringFits(env: Env, v: Value, f: seq<Member>, path: string)
    ensures Fits(CheckString(env, v, f, path))
  {
  }

  lemma NumberFits(env: Env, v: Value, f: seq<Member>, path: string)
    ensures Fits(CheckNumber(env, v, f, path))
  {
  }

  lemma RequiredFits(v: Value, f: seq<Member>, path: string)
    requires v.Obj?
    ensures Fits(CheckRequired(v, f, path))
  {
    if Has(f, "required") && Get(f, "required").value.Arr? {
      NamesFit(Get(f, "required").value.items, v.fields, path);
    }
  }

  lemma ListFits(env: Env, v: Value, f: seq<Member>, path: string)
    requires v.Arr?
    ensures Fits(CheckList(env, v, f, path))
  {
  }

  /** `validate` ends: started where no in-place cycle can be reached, it never needs more nested calls than
      the value's height times the number of schema nodes, however the schema recurses through members
      and items. */
  lemma {:induction false} EnoughStack(depth: nat, env: Env, v: Value, n: Node, path: string)
    requires Ready(env, n) && depth >= Needed(env, v, n)
    ensures Fits(Check(depth, env, v, n, path))
    decreases depth, 0
  {
    hide Ready, Needed, Check, CheckRef, CheckTyped;
    NeedsSome(env, v, n);
    CheckFits(depth, env, v, n, path);
    if n.schema.Obj? && AllSupported(n.schema.fields) {
      RefFits(depth - 1, env, v, n, path);
      TypedFits(depth - 1, env, v, n, path);
    }
  }

  lemma NeedsSome(env: Env, v: Value, n: Node)
    ensures Needed(env, v, n) > 0
  {
  }

  lemma CheckFits(depth: nat, env: Env, v: Value, n: Node, path: string)
    requires depth > 0
    ensures !n.schema.Obj? || !AllSupported(n.schema.fields) ==> Fits(Check(depth, env, v, n, path))
    ensures n.schema.Obj? && AllSupported(n.schema.fields) ==>
              Check(depth, env, v, n, path) == And(CheckRef(depth - 1, env, v, n, path), CheckTyped(depth - 1, env, v, n, path))
  {
    hide CheckRef, CheckTyped;
  }

  lemma {:induction false} RefFits(depth: nat, env: Env, v: Value, n: Node, path: string)
    requires Ready(env, n) && n.schema.Obj? && depth + 1 >= Needed(env, v, n)
    ensures Fits(CheckRef(depth, env, v, n, path))
    decreases depth, 1
  {
    hide Ready, Needed, Check;
    if HasRef(n.schema) && Referred(env, n).Target? {
      RefReady(env, n);
      InPlaceNeedsLess(env, v, n, Referred(env, n).node);
      EnoughStack(depth, env, v, Referred(env, n).node, path);
    } else {
      RefusalFits(depth, env, v, n, path);
    }
  }

  lemma RefusalFits(depth: nat, env: Env, v: Value, n: Node, path: string)
    requires n.schema.Obj? && !(HasRef(n.schema) && Referred(env, n).Target?)
    ensures Fits(CheckRef(depth, env, v, n, path))
  {
  }

  lemma {:induction false} TypedFits(depth: nat, env: Env, v: Value, n: Node, path: string)
    requires Ready(env, n) && n.schema.Obj? && depth + 1 >= Needed(env, v, n)
    ensures Fits(CheckTyped(depth, env, v, n, path))
    decreases depth, 4
  {
    hide Ready, Needed, CheckType, CheckScalars, CheckObject, CheckArray, CheckAllOf, CheckIf;
    TypeFits(v, n.schema.fields, path);
    ScalarsFit(env, v, n.schema.fields, path);
    ObjectFits(depth, env, v, n, path);
    ArrayFits(depth, env, v, n, path);
    AllOfFits(depth, env, v, n, path);
    IfFits(depth, env, v, n, path);
  }

  lemma {:induction false} ObjectFits(depth: nat, env: Env, v: Value, n: Node, path: string)
    requires Ready(env, n) && n.schema.Obj? && depth + 1 >= Needed(env, v, n)
    ensures Fits(CheckObject(depth, env, v, n, path))
    decreases depth, 2
  {
    hide Ready, Needed, Check, CheckRequired;
    if v.Obj? {
      RequiredFits(v, n.schema.fields, path);
      var outs := MemberOutcomes(depth, env, v, n, path);
      forall i | 0 <= i < |v.fields| ensures Fits(outs[i]) {
        assert outs[i] == CheckMember(depth, env, v, n, path, i);
        var schema := MemberSchema(n, v.fields[i].key);
        if schema.Some? {
          MemberReady(env, n, v.fields[i].key);
          FieldIsLower(v.fields, i);
          InsideNeedsLess(env, v, v.fields[i].val, n, schema.value);
          EnoughStack(depth, env, v.fields[i].val, schema.value, path + "/" + v.fields[i].key);
        }
      }
      AllFit(outs);
    }
  }

  lemma {:induction false} ArrayFits(depth: nat, env: Env, v: Value, n: Node, path: string)
    requires Ready(env, n) && n.schema.Obj? && depth + 1 >= Needed(env, v, n)
    ensures Fits(CheckArray(depth, env, v, n, path))
    decreases depth, 2
  {
    hide Ready, Needed, Check, CheckList;
    if v.Arr? {
      ListFits(env, v, n.schema.fields, path);
      if Has(n.schema.fields, "items") {
        FieldReady(env, n, "items");
        var outs := ItemOutcomes(depth, env, v, n, path);
        forall i | 0 <= i < |v.items| ensures Fits(outs[i]) {
          assert outs[i] == CheckItem(depth, env, v, n, path, i);
          ItemIsLower(v.items, i);
          InsideNeedsLess(env, v, v.items[i], n, Field(n, "items"));
          EnoughStack(depth, env, v.items[i], Field(n, "items"), path + "/" + NatText(i));
        }
        AllFit(outs);
      }
    }
  }

  lemma {:induction false} AllOfFits(depth: nat, env: Env, v: Value, n: Node, path: string)
    requires Ready(env, n) && n.schema.Obj? && depth + 1 >= Needed(env, v, n)
    ensures Fits(CheckAllOf(depth, env, v, n, path))
    decreases depth, 2
  {
    hide Ready, Needed, Check;
    var outs := AllOfOutcomes(depth, env, v, n, path);
    forall i | 0 <= i < |AllOf(n.schema)| ensures Fits(outs[i]) {
      assert outs[i] == CheckAllOfAt(depth, env, v, n, path, i);
      AllOfReady(env, n, i);
      InPlaceNeedsLess(env, v, n, Node(AllOf(n.schema)[i], n.doc));
      EnoughStack(depth, env, v, Node(AllOf(n.schema)[i], n.doc), path);
    }
    AllFit(outs);
  }

  lemma {:induction false} IfFits(depth: nat, env: Env, v: Value, n: Node, path: string)
    requires Ready(env, n) && n.schema.Obj? && depth + 1 >= Needed(env, v, n)
    ensures Fits(CheckIf(depth, env, v, n, path))
    decreases depth, 2
  {
    hide Ready, Needed, Check;
    forall key | key in {"if", "then", "else"} && Has(n.schema.fields, key) ensures Fits(Check(depth, env, v, Field(n, key), path)) {
      FieldReady(env, n, key);
      InPlaceNeedsLess(env, v, n, Field(n, key));
      EnoughStack(depth, env, v, Field(n, key), path);
    }
  }

  /** On enforceable schemas without reachable in-place cycles `validate` always returns a finding list:
      for every value it ends and raises nothing, given that much stack. */
  lemma EnforceableGivesVerdict(depth: nat, env: Env, v: Value, n: Node, path: string, good: set<Node>)
    requires Ready(env, n) && Enforceable(env, good) && n in good && depth >= Needed(env, v, n)
    ensures Check(depth, env, v, n, path).Checked?
  {
    hide Check, Ready, Enforceable, Needed;
    EnforceableIsEnforced(depth, env, v, n, path, good);
    EnoughStack(depth, env, v, n, path);
  }

  /** There every value either satisfies or violates the schema. */
  lemma MeaningIsTotal(env: Env, v: Value, n: Node, good: set<Node>)
    requires Ready(env, n) && Enforceable(env, good) && n in good && WellFormed(v)
    ensures Satisfies(env, v, n) <==> !Violates(env, v, n)
  {
    hide Check, Ready, Enforceable, Needed, Satisfies, Violates;
    EnforceableGivesVerdict(Needed(env, v, n), env, v, n, "", good);
    ValidateDecides(Needed(env, v, n), env, v, n, "");
  }

  // ---- a schema that recurses through its members -----------------------------------

  function Link(): Value { Obj([Member("$ref", Str("#"))]) }

  /** Objects all the way down: every member is judged by the whole schema again. */
  function Tree(): Value { Obj([Member("additionalProperties", Link())]) }

  ghost function TreeEnv(num: string -> real, search: (string, string) -> bool): Env {
    Env(map["t" := Tree()], num, search)
  }

  lemma TreeFields()
    ensures Get(Link().fields, "$ref") == Some(Str("#")) && forall key | key != "$ref" :: Get(Link().fields, key) == None
    ensures Get(Tree().fields, "additionalProperties") == Some(Link())
    ensures forall key | key != "additionalProperties" :: Get(Tree().fields, key) == None
  {
    assert [Member("$ref", Str("#"))][1..] == [] && [Member("additionalProperties", Link())][1..] == [];
  }

  lemma LinkLeadsToTree(env: Env)
    requires env.files == map["t" := Tree()]
    ensures Resolve(env.files, "#", "t") == Target(Node(Tree(), "t"))
  {
    assert BeforeHash("#") == "" && AfterHash("#") == "#"[1..] == "" && Split("", '/') == [""];
    assert RefTokens([""]) == RefTokens([""][1..]) == [];
  }

  lemma TreeEdges(env: Env, a: Node, b: Node)
    requires env.files == map["t" := Tree()] && a in {Node(Tree(), "t"), Node(Link(), "t")} && Edge(env, a, b)
    ensures a == Node(Link(), "t") && b == Node(Tree(), "t")
  {
    TreeFields();
    LinkLeadsToTree(env);
  }

  /** It reaches no in-place cycle and its nodes are enforceable, so `validate` gives every value a
      verdict. */
  lemma TreeGivesVerdict(num: string -> real, search: (string, string) -> bool, depth: nat, v: Value, path: string)
    requires depth >= Needed(TreeEnv(num, search), v, Node(Tree(), "t"))
    ensures Ready(TreeEnv(num, search), Node(Tree(), "t"))
    ensures Check(depth, TreeEnv(num, search), v, Node(Tree(), "t"), path).Checked?
  {
    hide Ready, Check, Enforceable, Reaches, Nodes, Needed;
    var env := TreeEnv(num, search);
    var root, link := Node(Tree(), "t"), Node(Link(), "t");
    RootInScope(env, "t");
    TreeIsEnforceable(env);
    TreeHasNoCycle(env);
    ClosedIsReady(env, root, {root, link});
    EnforceableGivesVerdict(depth, env, v, root, path, {root, link});
  }

  /** An enforceable set without in-place cycles is ready at each of its nodes. */
  lemma ClosedIsReady(env: Env, n: Node, good: set<Node>)
    requires n in Nodes(env) && n in good && Enforceable(env, good)
    requires forall m | m in good :: !Reaches(env, m, m)
    ensures Ready(env, n)
  {
    hide SubSchema, Enforceable;
    forall m | Visits(env, n, m) ensures !Reaches(env, m, m) {
      var p: seq<Node> :| IsTrail(env, p) && p[0] == n && p[|p| - 1] == m;
      TrailStaysIn(env, p, good);
    }
  }

  lemma TreeHasNoCycle(env: Env)
    requires env.files == map["t" := Tree()]
    ensures !Reaches(env, Node(Tree(), "t"), Node(Tree(), "t")) && !Reaches(env, Node(Link(), "t"), Node(Link(), "t"))
  {
    forall p: seq<Node> | IsPath(env, p) && p[0] in {Node(Tree(), "t"), Node(Link(), "t")} ensures p[|p| - 1] != p[0] {
      assert Edge(env, p[0], p[0 + 1]);
      TreeEdges(env, p[0], p[1]);
      assert Tree() != Link() by { TreeFields(); }
      if |p| > 2 {
        assert Edge(env, p[1], p[1 + 1]);
        TreeEdges(env, p[1], p[2]);
      }
    }
  }

  lemma TreeIsEnforceable(env: Env)
    requires env.files == map["t" := Tree()]
    ensures Enforceable(env, {Node(Tree(), "t"), Node(Link(), "t")})
  {
    hide WellShaped, SubSchema;
    var good := {Node(Tree(), "t"), Node(Link(), "t")};
    TreeIsShaped(env);
    forall n, c | n in good && SubSchema(env, n, c) ensures c in good {
      TreeLeadsToItself(env, n, c);
    }
  }

  lemma TreeIsShaped(env: Env)
    requires env.files == map["t" := Tree()]
    ensures WellShaped(env, Node(Tree(), "t")) && WellShaped(env, Node(Link(), "t"))
  {
    TreeFields();
    LinkLeadsToTree(env);
  }

  lemma TreeLeadsToItself(env: Env, n: Node, c: Node)
    requires env.files == map["t" := Tree()] && n in {Node(Tree(), "t"), Node(Link(), "t")}
    requires SubSchema(env, n, c)
    ensures c in {Node(Tree(), "t"), Node(Link(), "t")}
  {
    TreeFields();
    LinkLeadsToTree(env);
  }

  // ---- a schema with an in-place cycle ------------------------------------------------

  /** A string, and whatever this very schema says. */
  function Loop(): Value { Obj([Member("type", Str("string")), Member("allOf", Arr([Link()]))]) }

  ghost predicate HasLoop(env: Env) { env.files == map["t" := Loop()] }

  lemma LoopFields()
    ensures Get(Loop().fields, "type") == Some(Str("string")) && Get(Loop().fields, "allOf") == Some(Arr([Link()]))
    ensures forall key | key != "type" && key != "allOf" :: Get(Loop().fields, key) == None
    ensures Get(Link().fields, "$ref") == Some(Str("#")) && forall key | key != "$ref" :: Get(Link().fields, key) == None
  {
    assert Loop().fields[1..] == [Member("allOf", Arr([Link()]))] && Loop().fields[1..][1..] == [];
    assert |"type"| == 4 && |"allOf"| == 5;
    assert [Member("$ref", Str("#"))][1..] == [];
  }

  lemma LoopLeadsBack(env: Env)
    requires HasLoop(env)
    ensures Resolve(env.files, "#", "t") == Target(Node(Loop(), "t"))
  {
    assert BeforeHash("#") == "" && AfterHash("#") == "#"[1..] == "" && Split("", '/') == [""];
    assert RefTokens([""]) == RefTokens([""][1..]) == [];
  }

  /** A value of another type gets its finding, for the type test comes before the cycle. */
  lemma LoopStopsAtTheType(depth: nat, env: Env, path: string)
    requires depth > 0
    ensures Check(depth, env, Int(5), Node(Loop(), "t"), path) == Checked([Violation(path, WrongType)])
  {
    LoopFields();
    assert [Str("string")][1..] == [];
    assert AnyType(Int(5), [Str("string")]) == AnyType(Int(5), []);
    assert CheckType(Int(5), Loop().fields, path) == Checked([Violation(path, WrongType)]);
  }

  /** A string goes round until the stack is gone, however much there is. */
  lemma {:induction false} LoopRunsOut(depth: nat, env: Env, s: string, path: string)
    requires HasLoop(env)
    ensures Check(depth, env, Str(s), Node(Loop(), "t"), path) == Refused(TooDeep)
    ensures Check(depth, env, Str(s), Node(Link(), "t"), path) == Refused(TooDeep)
  {
    if depth == 0 {
    } else {
      LoopRunsOut(depth - 1, env, s, path);
      LoopTurn(depth, env, s, path);
      LinkTurn(depth, env, s, path);
    }
  }

  lemma LinkTurn(depth: nat, env: Env, s: string, path: string)
    requires HasLoop(env) && depth > 0 && Check(depth - 1, env, Str(s), Node(Loop(), "t"), path) == Refused(TooDeep)
    ensures Check(depth, env, Str(s), Node(Link(), "t"), path) == Refused(TooDeep)
  {
    LoopFields();
    LoopLeadsBack(env);
    CheckUnfolds(depth, env, Str(s), Node(Link(), "t"), path);
  }

  lemma LoopTurn(depth: nat, env: Env, s: string, path: string)
    requires HasLoop(env) && depth > 0 && Check(depth - 1, env, Str(s), Node(Link(), "t"), path) == Refused(TooDeep)
    ensures Check(depth, env, Str(s), Node(Loop(), "t"), path) == Refused(TooDeep)
  {
    hide Check;
    LoopFields();
    var v, n := Str(s), Node(Loop(), "t");
    CheckUnfolds(depth, env, v, n, path);
    assert CheckType(v, Loop().fields, path) == Checked([]);
    assert CheckScalars(env, v, Loop().fields, path) == Checked([]);
    var outs := AllOfOutcomes(depth - 1, env, v, n, path);
    assert outs == [CheckAllOfAt(depth - 1, env, v, n, path, 0)] && AndAll(outs) == Refused(TooDeep);
    assert CheckAllOf(depth - 1, env, v, n, path) == Refused(TooDeep);
    assert CheckRest(depth - 1, env, v, n, path) == Refused(TooDeep);
  }
}
