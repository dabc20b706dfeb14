/** Schema files, `$ref` resolution, and the graph of schema nodes that judge the same value. */
module SchemaGraph {
  import opened Options
  import opened Json
  import opened Pointers

  /** Everything `validate` reads besides the value: the schema directory, what a float literal is
      worth, and `re.search`. */
  datatype Env = Env(files: map<string, Value>, num: string -> real, search: (string, string) -> bool)

  /** A schema node and the file it came from, against which its local references resolve. */
  datatype Node = Node(schema: Value, doc: string)

  datatype Refusal = UnsupportedKeyword | SchemaNotFound | Unresolvable | NotASchema | UnknownType | BadKeyword | TooDeep

  datatype Resolved = Target(node: Node) | NoTarget(why: Refusal)

  function BeforeHash(s: string): string {
    if s == "" || s[0] == '#' then "" else [s[0]] + BeforeHash(s[1..])
  }

  function AfterHash(s: string): string {
    if s == "" then "" else if s[0] == '#' then s[1..] else AfterHash(s[1..])
  }

  /** `[t for t in pointer.split("/") if t]`, unescaped. */
  function RefTokens(parts: seq<string>): seq<string> {
    if parts == [] then []
    else if parts[0] == "" then RefTokens(parts[1..])
    else [Unescape(parts[0])] + RefTokens(parts[1..])
  }

  /** Unlike `json_pointer`, a reference only goes through objects. */
  function Descend(node: Value, tokens: seq<string>): Option<Value> {
    if tokens == [] then Some(node)
    else if node.Obj? && Has(node.fields, tokens[0]) then Descend(Get(node.fields, tokens[0]).value, tokens[1..])
    else None
  }

  function RefDoc(ref: string, current: string): string {
    if BeforeHash(ref) == "" then current else BeforeHash(ref)
  }

  /** `SchemaStore.resolve`. */
  function Resolve(files: map<string, Value>, ref: string, current: string): Resolved {
    var doc := RefDoc(ref, current);
    if doc !in files then NoTarget(SchemaNotFound)
    else
      match Descend(files[doc], RefTokens(Split(AfterHash(ref), '/')))
      case None => NoTarget(Unresolvable)
      case Some(node) => if node.Obj? then Target(Node(node, doc)) else NoTarget(NotASchema)
  }

  /** The schema directory behind its cache. */
  class SchemaStore {
    const env: Env
    var cache: map<string, Value>

    constructor (env: Env)
      ensures this.env == env && Valid() && cache == map[]
    {
      this.env := env;
      cache := map[];
    }

    /** The cache never holds anything but what the file holds. */
    ghost predicate Valid()
      reads this
    {
      forall name | name in cache :: name in env.files && cache[name] == env.files[name]
    }

    method Load(name: string) returns (schema: Option<Value>)
      requires Valid()
      modifies this
      ensures Valid() && old(cache.Keys) <= cache.Keys
      ensures schema == if name in env.files then Some(env.files[name]) else None
      ensures cache.Keys == old(cache.Keys) + if name in env.files then {name} else {}
    {
      if name !in cache {
        if name !in env.files {
          return None;
        }
        cache := cache[name := env.files[name]];
      }
      schema := Some(cache[name]);
    }

    method ResolveRef(ref: string, current: string) returns (r: Resolved)
      requires Valid()
      modifies this
      ensures Valid() && old(cache.Keys) <= cache.Keys
      ensures r == Resolve(env.files, ref, current)
    {
      var doc := RefDoc(ref, current);
      var loaded := Load(doc);
      if loaded.None? {
        return NoTarget(SchemaNotFound);
      }
      var node := loaded.value;
      var tokens := RefTokens(Split(AfterHash(ref), '/'));
      var i := 0;
      while i < |tokens|
        invariant 0 <= i <= |tokens|
        invariant Descend(loaded.value, tokens) == Descend(node, tokens[i..])
      {
        if !node.Obj? || !Has(node.fields, tokens[i]) {
          return NoTarget(Unresolvable);
        }
        node := Get(node.fields, tokens[i]).value;
        i := i + 1;
      }
      r := if node.Obj? then Target(Node(node, doc)) else NoTarget(NotASchema);
    }
  }

  // ---- the nodes there are ---------------------------------------------------

  /** Every value inside `v`, itself included. */
  ghost function Terms(v: Value): set<Value> {
    match v
    case Arr(items) => {v} + ItemTerms(items)
    case Obj(fields) => {v} + FieldTerms(fields)
    case _ => {v}
  }

  ghost function ItemTerms(items: seq<Value>): set<Value> {
    if items == [] then {} else Terms(items[0]) + ItemTerms(items[1..])
  }

  ghost function FieldTerms(fields: seq<Member>): set<Value> {
    if fields == [] then {} else assert fields[0].val < fields[0]; Terms(fields[0].val) + FieldTerms(fields[1..])
  }

  lemma {:induction false} ItemIsTerm(items: seq<Value>, i: nat)
    requires i < |items|
    ensures Terms(items[i]) <= ItemTerms(items)
  {
    if i == 0 {
    } else {
      ItemIsTerm(items[1..], i - 1);
    }
  }

  lemma {:induction false} FieldIsTerm(fields: seq<Member>, m: Member)
    requires m in fields
    ensures Terms(m.val) <= FieldTerms(fields)
  {
    if m == fields[0] {
    } else {
      FieldIsTerm(fields[1..], m);
    }
  }

  lemma {:induction false} TermsTransitive(a: Value, b: Value)
    requires a in Terms(b)
    ensures Terms(a) <= Terms(b)
    decreases b, 1
  {
    if a == b {
    } else {
      match b
      case Arr(items) => ItemTermsTransitive(a, items);
      case Obj(fields) => FieldTermsTransitive(a, fields);
    }
  }

  lemma {:induction false} ItemTermsTransitive(a: Value, items: seq<Value>)
    requires a in ItemTerms(items)
    ensures Terms(a) <= ItemTerms(items)
    decreases items, 0
  {
    if a in Terms(items[0]) {
      TermsTransitive(a, items[0]);
    } else {
      ItemTermsTransitive(a, items[1..]);
    }
  }

  lemma {:induction false} FieldTermsTransitive(a: Value, fields: seq<Member>)
    requires a in FieldTerms(fields)
    ensures Terms(a) <= FieldTerms(fields)
    decreases fields, 0
  {
    if a in Terms(fields[0].val) {
      assert fields[0].val < fields[0];
      TermsTransitive(a, fields[0].val);
    } else {
      FieldTermsTransitive(a, fields[1..]);
    }
  }

  ghost function AllTerms(files: map<string, Value>): set<Value> {
    set f, t | f in files && t in Terms(files[f]) :: t
  }

  /** Every node evaluation can meet: a value inside some schema file, read from some schema file. */
  ghost function Nodes(env: Env): set<Node> {
    set t, d | t in AllTerms(env.files) && d in env.files.Keys :: Node(t, d)
  }

  lemma TermInScope(env: Env, n: Node, t: Value)
    requires n in Nodes(env) && t in Terms(n.schema)
    ensures Node(t, n.doc) in Nodes(env)
  {
    var f :| f in env.files && n.schema in Terms(env.files[f]);
    TermsTransitive(n.schema, env.files[f]);
  }

  lemma FieldInScope(env: Env, n: Node, key: string)
    requires n in Nodes(env) && n.schema.Obj? && Has(n.schema.fields, key)
    ensures Node(Get(n.schema.fields, key).value, n.doc) in Nodes(env)
  {
    var m := Member(key, Get(n.schema.fields, key).value);
    FieldIsTerm(n.schema.fields, m);
    assert m.val in Terms(m.val);
    TermInScope(env, n, m.val);
  }

  lemma ItemInScope(env: Env, n: Node, i: nat)
    requires n in Nodes(env) && n.schema.Arr? && i < |n.schema.items|
    ensures Node(n.schema.items[i], n.doc) in Nodes(env)
  {
    ItemIsTerm(n.schema.items, i);
    assert n.schema.items[i] in Terms(n.schema.items[i]);
    TermInScope(env, n, n.schema.items[i]);
  }

  lemma RootInScope(env: Env, doc: string)
    requires doc in env.files
    ensures Node(env.files[doc], doc) in Nodes(env)
  {
    assert env.files[doc] in Terms(env.files[doc]);
  }

  lemma {:induction false} DescendInScope(v: Value, tokens: seq<string>)
    requires Descend(v, tokens).Some?
    ensures Descend(v, tokens).value in Terms(v)
  {
    if tokens == [] {
    } else {
      var m := Member(tokens[0], Get(v.fields, tokens[0]).value);
      DescendInScope(m.val, tokens[1..]);
      FieldIsTerm(v.fields, m);
    }
  }

  lemma TargetInScope(env: Env, ref: string, current: string)
    requires Resolve(env.files, ref, current).Target?
    ensures Resolve(env.files, ref, current).node in Nodes(env)
  {
    var doc := RefDoc(ref, current);
    RootInScope(env, doc);
    DescendInScope(env.files[doc], RefTokens(Split(AfterHash(ref), '/')));
    TermInScope(env, Node(env.files[doc], doc), Resolve(env.files, ref, current).node.schema);
  }

  // ---- which nodes judge the same value --------------------------------------

  predicate HasRef(s: Value) {
    s.Obj? && Has(s.fields, "$ref") && Get(s.fields, "$ref").value.Str?
  }

  function AllOf(s: Value): seq<Value> {
    if s.Obj? && Has(s.fields, "allOf") && Get(s.fields, "allOf").value.Arr?
    then Get(s.fields, "allOf").value.items else []
  }

  /** `b` is applied to the very value `a` is applied to: through `$ref`, `allOf`, `if`, `then` or `else`. */
  ghost predicate Edge(env: Env, a: Node, b: Node) {
    || (HasRef(a.schema) && Resolve(env.files, Get(a.schema.fields, "$ref").value.s, a.doc) == Target(b))
    || (b.doc == a.doc && a.schema.Obj? && match Get(a.schema.fields, "allOf") case Some(Arr(subs)) => b.schema in subs case _ => false)
    || (b.doc == a.doc && a.schema.Obj? && exists key | key in {"if", "then", "else"} ::
          Get(a.schema.fields, key) == Some(b.schema))
  }

  ghost predicate IsPath(env: Env, p: seq<Node>) {
    |p| >= 2 && forall i | 0 <= i < |p| - 1 :: Edge(env, p[i], p[i + 1])
  }

  ghost predicate Reaches(env: Env, a: Node, b: Node) {
    exists p: seq<Node> :: IsPath(env, p) && p[0] == a && p[|p| - 1] == b
  }

  /** What is left to apply to the same value after `n`: the part of the measure that falls. */
  ghost function Below(env: Env, n: Node): set<Node> {
    set m | m in Nodes(env) && Reaches(env, n, m)
  }

  lemma PathCons(env: Env, a: Node, p: seq<Node>)
    requires IsPath(env, p) && Edge(env, a, p[0])
    ensures IsPath(env, [a] + p)
  {
    var q := [a] + p;
    forall i | 0 <= i < |q| - 1 ensures Edge(env, q[i], q[i + 1]) {
      if i > 0 {
        assert q[i] == p[i - 1] && q[i + 1] == p[i];
        assert Edge(env, p[i - 1], p[i - 1 + 1]);
      }
    }
  }

  lemma ReachesCons(env: Env, a: Node, b: Node, m: Node)
    requires Edge(env, a, b) && Reaches(env, b, m)
    ensures Reaches(env, a, m)
  {
    var p: seq<Node> :| IsPath(env, p) && p[0] == b && p[|p| - 1] == m;
    PathCons(env, a, p);
    var q := [a] + p;
    assert q[0] == a && q[|q| - 1] == m;
  }

  lemma ReachesOne(env: Env, a: Node, b: Node)
    requires Edge(env, a, b)
    ensures Reaches(env, a, b)
  {
    assert IsPath(env, [a, b]);
  }

  /** Along an edge to a node on no cycle the set of nodes still to come strictly shrinks. */
  lemma EdgeDescends(env: Env, a: Node, b: Node)
    requires b in Nodes(env) && Edge(env, a, b) && !Reaches(env, b, b)
    ensures Below(env, b) < Below(env, a)
  {
    ReachesOne(env, a, b);
    forall m | m in Nodes(env) && Reaches(env, b, m) ensures Reaches(env, a, m) {
      ReachesCons(env, a, b, m);
    }
    assert b in Below(env, a) && b !in Below(env, b);
  }
}
