/** Where a `$ref` leads, said of the reference as RFC 6901 writes it. */
module SchemaReferences {
  import opened Options
  import opened Json
  import opened Pointers
  import opened SchemaGraph

  function EscapedKeys(keys: seq<string>): (texts: seq<string>)
    ensures |texts| == |keys| && forall i | 0 <= i < |texts| :: texts[i] == EscapeKey(keys[i])
  {
    seq(|keys|, i requires 0 <= i < |keys| => EscapeKey(keys[i]))
  }

  /** The reference to the member path `keys` in `file`. */
  function Written(file: string, keys: seq<string>): string { file + "#" + JoinPath(EscapedKeys(keys)) }

  /** The value the keys lead to, through members of objects only. */
  function Member(v: Value, keys: seq<string>): Option<Value> {
    if keys == [] then Some(v)
    else
      match v
      case Obj(fields) => (match Get(fields, keys[0]) case None => None case Some(next) => Member(next, keys[1..]))
      case _ => None
  }

  /** What a reference to `keys` in `file` should give, met in the file `current`. */
  function Meant(files: map<string, Value>, file: string, keys: seq<string>, current: string): Resolved {
    var doc := if file == "" then current else file;
    if doc !in files then NoTarget(SchemaNotFound)
    else
      match Member(files[doc], keys)
      case None => NoTarget(Unresolvable)
      case Some(Obj(fields)) => Target(Node(Obj(fields), doc))
      case _ => NoTarget(NotASchema)
  }

  function Named(keys: seq<string>): seq<string> {
    if keys == [] then []
    else if keys[0] == "" then Named(keys[1..])
    else [keys[0]] + Named(keys[1..])
  }

  // ---- reading a reference -------------------------------------------------------------

  lemma {:induction false} SplitsAtHash(file: string, pointer: string)
    requires '#' !in file
    ensures BeforeHash(file + "#" + pointer) == file && AfterHash(file + "#" + pointer) == pointer
  {
    var s := file + "#" + pointer;
    if file == "" {
      assert s == "#" + pointer && s[1..] == pointer;
    } else {
      assert s[0] == file[0] && s[1..] == file[1..] + "#" + pointer;
      SplitsAtHash(file[1..], pointer);
      assert file == [file[0]] + file[1..];
    }
  }

  lemma {:induction false} NoHash(file: string)
    requires '#' !in file
    ensures BeforeHash(file) == file && AfterHash(file) == ""
  {
    if file == "" {
    } else {
      NoHash(file[1..]);
      assert file == [file[0]] + file[1..];
    }
  }

  lemma {:induction false} EscapedHasNoSlash(key: string)
    ensures '/' !in EscapeKey(key) && (EscapeKey(key) == "" <==> key == "")
  {
    if key == "" {
    } else {
      EscapedHasNoSlash(key[1..]);
    }
  }

  lemma {:induction false} TokensOfKeys(keys: seq<string>)
    ensures RefTokens(EscapedKeys(keys)) == Named(keys)
  {
    if keys == [] {
    } else {
      TokensOfKeys(keys[1..]);
      assert EscapedKeys(keys)[1..] == EscapedKeys(keys[1..]);
      EscapedHasNoSlash(keys[0]);
      UnescapeInvertsEscape(keys[0]);
    }
  }

  lemma TokensRead(keys: seq<string>)
    ensures RefTokens(Split(JoinPath(EscapedKeys(keys)), '/')) == Named(keys)
  {
    var texts := EscapedKeys(keys);
    forall t | t in texts ensures '/' !in t {
      var i :| 0 <= i < |texts| && texts[i] == t;
      EscapedHasNoSlash(keys[i]);
    }
    SplitJoined("", texts);
    assert "" + JoinPath(texts) == JoinPath(texts) && ([""] + texts)[1..] == texts;
    TokensOfKeys(keys);
  }

  lemma {:induction false} DescendFollows(v: Value, keys: seq<string>)
    ensures Descend(v, keys) == Member(v, keys)
  {
    if keys == [] || !v.Obj? || !Has(v.fields, keys[0]) {
    } else {
      DescendFollows(Get(v.fields, keys[0]).value, keys[1..]);
    }
  }

  /** A reference leads to the member its keys name, escaped as RFC 6901 section 4 has it, in the named file
      or the current one; an empty key is passed over. Without a `#` it is the whole file. */
  lemma ReferenceLeads(files: map<string, Value>, file: string, keys: seq<string>, current: string)
    requires '#' !in file
    ensures Resolve(files, Written(file, keys), current) == Meant(files, file, Named(keys), current)
    ensures Resolve(files, file, current) == Meant(files, file, [], current)
  {
    var pointer := JoinPath(EscapedKeys(keys));
    SplitsAtHash(file, pointer);
    NoHash(file);
    TokensRead(keys);
    assert RefTokens(Split("", '/')) == [] by {
      assert [""][1..] == [];
    }
    var doc := if file == "" then current else file;
    if doc in files {
      DescendFollows(files[doc], Named(keys));
      DescendFollows(files[doc], []);
    }
  }

  // ---- empty keys -------------------------------------------------------------------------

  lemma {:induction false} NamedIsAll(keys: seq<string>)
    requires "" !in keys
    ensures Named(keys) == keys
  {
    if keys == [] {
    } else {
      assert keys[0] in keys;
      NamedIsAll(keys[1..]);
    }
  }

  /** Objects inside each other, one member each. */
  function Nest(keys: seq<string>): Value {
    if keys == [] then Obj([]) else Obj([Json.Member(keys[0], Nest(keys[1..]))])
  }

  lemma NestMember(keys: seq<string>, key: string)
    requires keys != []
    ensures Get(Nest(keys).fields, key) == if key == keys[0] then Some(Nest(keys[1..])) else None
  {
    assert Nest(keys).fields[1..] == [];
  }

  lemma {:induction false} NestHolds(keys: seq<string>)
    ensures Member(Nest(keys), keys).Some? && Member(Nest(keys), keys).value.Obj?
  {
    if keys == [] {
    } else {
      NestMember(keys, keys[0]);
      NestHolds(keys[1..]);
    }
  }

  lemma {:induction false} NestLacks(keys: seq<string>)
    requires "" in keys
    ensures Member(Nest(Named(keys)), keys).None?
  {
    if keys[0] == "" {
      if Named(keys) != [] {
        NamedIsNamed(keys);
        NestMember(Named(keys), "");
      }
    } else {
      NestMember(Named(keys), keys[0]);
      assert Named(keys)[1..] == Named(keys[1..]);
      NestLacks(keys[1..]);
    }
  }

  lemma {:induction false} NamedIsNamed(keys: seq<string>)
    ensures "" !in Named(keys)
  {
    if keys == [] {
    } else {
      NamedIsNamed(keys[1..]);
    }
  }

  /** A reference leads where it says, whatever the files, exactly when none of its keys is empty. */
  lemma LeadsAsWrittenIff(file: string, keys: seq<string>, current: string)
    requires '#' !in file
    ensures (forall files: map<string, Value> :: Resolve(files, Written(file, keys), current) == Meant(files, file, keys, current))
       <==> "" !in keys
  {
    hide Resolve, Written;
    if "" !in keys {
      NamedIsAll(keys);
      forall files: map<string, Value> ensures Resolve(files, Written(file, keys), current) == Meant(files, file, keys, current) {
        ReferenceLeads(files, file, keys, current);
      }
    } else {
      var doc := if file == "" then current else file;
      var files := map[doc := Nest(Named(keys))];
      ReferenceLeads(files, file, keys, current);
      NestHolds(Named(keys));
      NestLacks(keys);
      assert Resolve(files, Written(file, keys), current) != Meant(files, file, keys, current);
    }
  }

  /** `#/` names the member under the empty key, and the code takes it for the whole file. */
  lemma EmptyKeyIsPassedOver()
    ensures
      var files := map["t" := Obj([Json.Member("", Obj([Json.Member("title", Str("a"))]))])];
      Resolve(files, "#/", "t") == Target(Node(files["t"], "t")) != Meant(files, "", [""], "t")
  {
    var files := map["t" := Obj([Json.Member("", Obj([Json.Member("title", Str("a"))]))])];
    ReferenceLeads(files, "", [""], "t");
    assert EscapedKeys([""]) == [""] && [""][1..] == [];
    assert JoinPath([""]) == "/" + "" + JoinPath([]) == "/";
    assert Written("", [""]) == "" + "#" + "/" == "#/";
    assert Named([""]) == Named([]) == [];
    assert |files["t"].fields| == 1 && |Obj([Json.Member("title", Str("a"))]).fields| == 1;
    assert files["t"].fields[0].key != "title";
  }
}
