/** `report_sha256`: what two evaluation reports must agree on to have the same hash. */
module ReportHash {
  import opened Options
  import opened Json
  import opened CanonicalJson
  import opened ReleaseManifest
  import JsonPrinted

  const STAMP := "report_sha256"
  const EXCLUDED: set<string> := {"run_id", "started_at", "completed_at", "report_sha256", "ai_invocation_id"}

  predicate Contains(s: string, part: string) {
    exists i | 0 <= i <= |s| :: part <= s[i..]
  }

  /** A key whose value is volatile, wherever in the report it stands. */
  predicate Volatile(key: string) {
    key in EXCLUDED || Contains(key, "latency")
  }

  /** `_canonical_clean`. */
  function Clean(v: Value): Value {
    match v
    case Arr(items) => Arr(CleanItems(items))
    case Obj(fields) => Obj(CleanFields(fields))
    case _ => v
  }

  function CleanItems(items: seq<Value>): (r: seq<Value>)
    ensures |r| == |items|
    ensures forall i | 0 <= i < |r| :: r[i] == Clean(items[i])
  {
    if items == [] then [] else [Clean(items[0])] + CleanItems(items[1..])
  }

  function CleanFields(fields: seq<Member>): seq<Member> {
    if fields == [] then []
    else if Volatile(fields[0].key) then CleanFields(fields[1..])
    else
      assert fields[0].val < fields[0];
      [Member(fields[0].key, Clean(fields[0].val))] + CleanFields(fields[1..])
  }

  /** `_compute_report_sha256`. */
  function HashOf(hash: string -> string, report: Value): string {
    hash(Dumps(Clean(report), false, true))
  }

  // ---- agreement, without mentioning Clean -------------------------------------------

  /** The key is of this run alone: its ids, its times, its stamp, or any latency. */
  predicate OfThisRun(key: string) {
    || key == "run_id" || key == "started_at" || key == "completed_at" || key == "report_sha256" || key == "ai_invocation_id"
    || exists i, j | 0 <= i <= j <= |key| :: key[i..j] == "latency"
  }

  lemma VolatileIff(key: string)
    ensures Volatile(key) <==> OfThisRun(key)
  {
    assert |"latency"| == 7;
    if i :| 0 <= i <= |key| && "latency" <= key[i..] {
      assert key[i..i + 7] == key[i..][..7];
    }
    if i, j :| 0 <= i <= j <= |key| && key[i..j] == "latency" {
      assert key[i..][..j - i] == key[i..j];
    }
  }

  lemma AllVolatile()
    ensures forall key :: Volatile(key) <==> OfThisRun(key)
  {
    forall key ensures Volatile(key) <==> OfThisRun(key) {
      VolatileIff(key);
    }
  }

  /** The two reports differ at most under keys of the run, at any depth, and in member order. */
  predicate Agree(a: Value, b: Value)
    decreases a
  {
    match (a, b)
    case (Arr(x), Arr(y)) => |x| == |y| && forall i | 0 <= i < |x| :: Agree(x[i], y[i])
    case (Obj(f), Obj(g)) =>
      && (forall i | 0 <= i < |f| && !OfThisRun(f[i].key) ::
            Has(g, f[i].key) && Agree(f[i].val, Get(g, f[i].key).value))
      && (forall j | 0 <= j < |g| && !OfThisRun(g[j].key) :: Has(f, g[j].key))
    case _ => a == b
  }

  lemma {:induction false} CleanGet(fields: seq<Member>, key: string)
    requires !Volatile(key)
    ensures Get(CleanFields(fields), key) ==
            match Get(fields, key) case None => None case Some(v) => Some(Clean(v))
  {
    if fields == [] {
    } else {
      CleanGet(fields[1..], key);
    }
  }

  lemma {:induction false} CleanMember(fields: seq<Member>, m: Member)
    requires m in CleanFields(fields)
    ensures !Volatile(m.key) && exists n :: n in fields && n.key == m.key && m.val == Clean(n.val)
  {
    if m !in CleanFields(fields[1..]) {
      assert fields[0] in fields;
    } else {
      CleanMember(fields[1..], m);
    }
  }

  lemma {:induction false} CleanUnique(fields: seq<Member>)
    requires UniqueKeys(fields)
    ensures UniqueKeys(CleanFields(fields))
  {
    if fields == [] {
    } else {
      var rest := CleanFields(fields[1..]);
      CleanUnique(fields[1..]);
      forall i | 0 <= i < |rest| ensures rest[i].key != fields[0].key {
        CleanMember(fields[1..], rest[i]);
      }
    }
  }

  lemma {:induction false} CleanWellFormed(v: Value)
    requires WellFormed(v)
    ensures WellFormed(Clean(v))
  {
    match v
    case Arr(items) =>
      forall i | 0 <= i < |items| ensures WellFormed(Clean(items[i])) { CleanWellFormed(items[i]); }
    case Obj(fields) =>
      CleanUnique(fields);
      var rest := CleanFields(fields);
      forall i | 0 <= i < |rest| ensures WellFormed(rest[i].val) {
        CleanMember(fields, rest[i]);
        var n :| n in fields && n.key == rest[i].key && rest[i].val == Clean(n.val);
        CleanWellFormed(n.val);
      }
    case _ =>
  }

  /** Cleaning a clean report changes nothing. */
  lemma {:induction false} CleanTwice(v: Value)
    ensures Clean(Clean(v)) == Clean(v)
    decreases v, 1
  {
    match v
    case Arr(items) =>
      forall i | 0 <= i < |items| ensures Clean(Clean(items[i])) == Clean(items[i]) { CleanTwice(items[i]); }
      assert CleanItems(CleanItems(items)) == CleanItems(items);
    case Obj(fields) => CleanFieldsTwice(fields);
    case _ =>
  }

  lemma {:induction false} CleanFieldsTwice(fields: seq<Member>)
    ensures CleanFields(CleanFields(fields)) == CleanFields(fields)
    decreases fields, 0
  {
    if fields == [] {
    } else {
      CleanFieldsTwice(fields[1..]);
      if !Volatile(fields[0].key) {
        assert fields[0].val < fields[0];
        CleanTwice(fields[0].val);
        assert CleanFields(fields)[1..] == CleanFields(fields[1..]);
      }
    }
  }

  lemma CleanKeys(f: seq<Member>, key: string)
    ensures key in Keys(CleanFields(f)) <==> !Volatile(key) && Has(f, key)
  {
    KeysAre(CleanFields(f), key);
    if !Volatile(key) {
      CleanGet(f, key);
    } else {
      if key in Keys(CleanFields(f)) {
        var i :| 0 <= i < |CleanFields(f)| && CleanFields(f)[i].key == key;
        CleanMember(f, CleanFields(f)[i]);
      }
    }
  }

  /** Two reports are the same after cleaning exactly when they agree. */
  lemma {:induction false} CleanSameIffAgree(a: Value, b: Value)
    requires WellFormed(a) && WellFormed(b)
    ensures SameJson(Clean(a), Clean(b)) <==> Agree(a, b)
    decreases a
  {
    if !(a.Arr? && b.Arr?) && !(a.Obj? && b.Obj?) {
    } else if a.Arr? {
      forall i | 0 <= i < |a.items| && i < |b.items|
        ensures SameJson(Clean(a.items[i]), Clean(b.items[i])) <==> Agree(a.items[i], b.items[i])
      {
        CleanSameIffAgree(a.items[i], b.items[i]);
      }
    } else {
      var f, g := a.fields, b.fields;
      forall i | 0 <= i < |f| && Has(g, f[i].key)
        ensures var w := Get(g, f[i].key).value; SameJson(Clean(f[i].val), Clean(w)) <==> Agree(f[i].val, w)
      {
        var m := Member(f[i].key, Get(g, f[i].key).value);
        var j :| 0 <= j < |g| && g[j] == m;
        CleanSameIffAgree(f[i].val, g[j].val);
      }
      if SameJson(Clean(a), Clean(b)) {
        SameThenAgree(f, g);
      }
      if Agree(a, b) {
        AgreeThenSame(f, g);
      }
    }
  }

  ghost predicate ChildrenDecided(f: seq<Member>, g: seq<Member>) {
    forall i | 0 <= i < |f| && Has(g, f[i].key) ::
      var w := Get(g, f[i].key).value;
      SameJson(Clean(f[i].val), Clean(w)) <==> Agree(f[i].val, w)
  }

  lemma SameKeySets(f: seq<Member>, g: seq<Member>)
    requires UniqueKeys(f) && UniqueKeys(g) && SameJson(Obj(CleanFields(f)), Obj(CleanFields(g)))
    ensures Keys(CleanFields(f)) == Keys(CleanFields(g))
  {
    var x, y := CleanFields(f), CleanFields(g);
    CleanUnique(f);
    CleanUnique(g);
    KeyCount(x);
    KeyCount(y);
    forall key | key in Keys(x) ensures key in Keys(y) {
      KeysAre(y, key);
    }
    assert Keys(x) <= Keys(y);
    assert Keys(y) == Keys(x) + (Keys(y) - Keys(x));
  }

  lemma SameThenAgree(f: seq<Member>, g: seq<Member>)
    requires UniqueKeys(f) && UniqueKeys(g) && ChildrenDecided(f, g)
    requires SameJson(Obj(CleanFields(f)), Obj(CleanFields(g)))
    ensures Agree(Obj(f), Obj(g))
  {
    hide Volatile, OfThisRun;
    AllVolatile();
    var x, y := CleanFields(f), CleanFields(g);
    SameKeySets(f, g);
    forall i | 0 <= i < |f| && !OfThisRun(f[i].key)
      ensures Has(g, f[i].key) && Agree(f[i].val, Get(g, f[i].key).value)
    {
      CleanKeys(f, f[i].key);
      CleanKeys(g, f[i].key);
      HasIff(f, f[i].key);
      GetUnique(f, i);
      CleanGet(f, f[i].key);
      CleanGet(g, f[i].key);
      var m := Member(f[i].key, Clean(f[i].val));
      var k :| 0 <= k < |x| && x[k] == m;
      assert SameJson(x[k].val, Get(y, x[k].key).value);
    }
    forall j | 0 <= j < |g| && !OfThisRun(g[j].key) ensures Has(f, g[j].key) {
      HasIff(g, g[j].key);
      CleanKeys(g, g[j].key);
      CleanKeys(f, g[j].key);
    }
  }

  lemma AgreeThenSame(f: seq<Member>, g: seq<Member>)
    requires UniqueKeys(f) && UniqueKeys(g) && ChildrenDecided(f, g)
    requires Agree(Obj(f), Obj(g))
    ensures SameJson(Obj(CleanFields(f)), Obj(CleanFields(g)))
  {
    hide Volatile, OfThisRun;
    AllVolatile();
    var x, y := CleanFields(f), CleanFields(g);
    forall key ensures key in Keys(x) <==> key in Keys(y) {
      CleanKeys(f, key);
      CleanKeys(g, key);
      HasIff(f, key);
      HasIff(g, key);
    }
    assert Keys(x) == Keys(y);
    CleanUnique(f);
    CleanUnique(g);
    KeyCount(x);
    KeyCount(y);
    forall k | 0 <= k < |x| ensures Has(y, x[k].key) && SameJson(x[k].val, Get(y, x[k].key).value) {
      CleanMember(f, x[k]);
      var n :| n in f && n.key == x[k].key && x[k].val == Clean(n.val);
      var i :| 0 <= i < |f| && f[i] == n;
      CleanGet(g, n.key);
    }
    SameByLookup(x, y);
  }

  /** Two reports have the same hash exactly when they agree on everything that is not volatile. */
  lemma SameHashIffAgree(hash: string -> string, a: Value, b: Value)
    requires InjectiveHash(hash) && WellFormed(a) && WellFormed(b)
    ensures HashOf(hash, a) == HashOf(hash, b) <==> Agree(a, b)
  {
    CleanWellFormed(a);
    CleanWellFormed(b);
    DumpsDeterminesValue(Clean(a), Clean(b), false, true);
    CleanSameIffAgree(a, b);
  }

  /** No key of this run is left, at any depth. */
  predicate NothingOfTheRun(v: Value) {
    match v
    case Arr(items) => forall i | 0 <= i < |items| :: NothingOfTheRun(items[i])
    case Obj(fields) => forall i | 0 <= i < |fields| :: !OfThisRun(fields[i].key) && NothingOfTheRun(fields[i].val)
    case _ => true
  }

  lemma {:induction false} CleanLeavesNothing(v: Value)
    ensures NothingOfTheRun(Clean(v))
  {
    hide OfThisRun, Volatile;
    match v
    case Arr(items) =>
      forall i | 0 <= i < |items| ensures NothingOfTheRun(Clean(items[i])) { CleanLeavesNothing(items[i]); }
    case Obj(fields) =>
      var rest := CleanFields(fields);
      AllVolatile();
      forall i | 0 <= i < |rest| ensures !OfThisRun(rest[i].key) && NothingOfTheRun(rest[i].val) {
        CleanMember(fields, rest[i]);
        var n :| n in fields && n.key == rest[i].key && rest[i].val == Clean(n.val);
        CleanLeavesNothing(n.val);
      }
    case _ =>
  }

  /** What is hashed is the compact ASCII text, keys in order, of the report with the keys of the run taken
      away and nothing else changed. */
  lemma HashIsOfTheRest(hash: string -> string, report: Value)
    requires WellFormed(report)
    ensures exists kept ::
              && Agree(report, kept) && NothingOfTheRun(kept)
              && HashOf(hash, report) == hash(JsonPrinted.Printed(Norm(kept), ",", ":", true))
  {
    hide Norm, Dumps, JsonPrinted.Printed, NothingOfTheRun, Agree;
    var kept := Clean(report);
    CleanWellFormed(report);
    CleanTwice(report);
    NormIffSame(kept, kept);
    CleanSameIffAgree(report, kept);
    CleanLeavesNothing(report);
    JsonPrinted.DumpsIsPrinted(kept, false, true);
    assert Agree(report, kept) && NothingOfTheRun(kept);
  }

  lemma {:induction false} PutVolatile(fields: seq<Member>, key: string, val: Value)
    requires Volatile(key)
    ensures CleanFields(Put(fields, key, val)) == CleanFields(fields)
  {
    if fields == [] {
      assert [Member(key, val)][1..] == [];
    } else if fields[0].key == key {
      assert ([Member(key, val)] + fields[1..])[1..] == fields[1..];
    } else {
      PutVolatile(fields[1..], key, val);
      assert Put(fields, key, val)[1..] == Put(fields[1..], key, val);
    }
  }

  /** `evaluate_store` hashes the report with a placeholder stamp and then stamps it: re-hashing the
      stamped report gives back the stamp. */
  lemma StampVerifies(hash: string -> string, report: Value, placeholder: Value)
    requires report.Obj?
    ensures
      var raw := Obj(Put(report.fields, STAMP, placeholder));
      var sha := HashOf(hash, raw);
      HashOf(hash, Obj(Put(report.fields, STAMP, Str(sha)))) == sha
  {
    PutVolatile(report.fields, STAMP, placeholder);
    PutVolatile(report.fields, STAMP, Str(HashOf(hash, Obj(Put(report.fields, STAMP, placeholder)))));
  }

  // ---- what the hash is sure to cover ------------------------------------------------

  /** A key without the letter `l` cannot contain `latency`. */
  lemma WithoutEllNotOfRun(key: string)
    requires 'l' !in key && key !in {"run_id", "started_at", "completed_at", "report_sha256", "ai_invocation_id"}
    ensures !OfThisRun(key)
  {
    assert "latency"[0] == 'l' && |"latency"| == 7;
    forall i, j | 0 <= i <= j <= |key| ensures key[i..j] != "latency" {
      if i < j {
        assert key[i..j][0] == key[i] && key[i] in key;
      }
    }
  }

  /** Agreement reaches every member that is not of the run. */
  lemma AgreeAt(f: seq<Member>, g: seq<Member>, key: string)
    requires Agree(Obj(f), Obj(g)) && !OfThisRun(key) && Get(f, key).Some?
    ensures Get(g, key).Some? && Agree(Get(f, key).value, Get(g, key).value)
  {
    hide OfThisRun;
    var m := Member(key, Get(f, key).value);
    var i :| 0 <= i < |f| && f[i] == m;
    assert f[i].key == key && f[i].val == Get(f, key).value;
  }

  /** A reason code is written without lower-case letters. */
  predicate CodeSpelling(code: string) { forall c | c in code :: !('a' <= c <= 'z') }

  function CodeCount(report: Value, code: string): Option<Value> {
    if !report.Obj? then None
    else
      match Get(report.fields, "counts")
      case Some(Obj(counts)) =>
        (match Get(counts, "by_reason_code") case Some(Obj(codes)) => Get(codes, code) case _ => None)
      case _ => None
  }

  /** Reports with one hash count every reason code alike: stripping latency keys takes nothing away from
      `counts.by_reason_code`, whose keys are a closed upper-case vocabulary. */
  lemma ReasonCountsAreHashed(hash: string -> string, a: Value, b: Value, code: string)
    requires InjectiveHash(hash) && WellFormed(a) && WellFormed(b) && HashOf(hash, a) == HashOf(hash, b)
    requires CodeSpelling(code) && CodeCount(a, code).Some?
    ensures CodeCount(b, code).Some? && Agree(CodeCount(a, code).value, CodeCount(b, code).value)
  {
    hide OfThisRun, HashOf, WellFormed;
    SameHashIffAgree(hash, a, b);
    KeysOnTheWay(code);
    AgreeAt(a.fields, b.fields, "counts");
    var x, y := Get(a.fields, "counts").value, Get(b.fields, "counts").value;
    AgreeAt(x.fields, y.fields, "by_reason_code");
    AgreeAt(Get(x.fields, "by_reason_code").value.fields, Get(y.fields, "by_reason_code").value.fields, code);
  }

  lemma KeysOnTheWay(code: string)
    requires CodeSpelling(code)
    ensures !OfThisRun("counts") && !OfThisRun("by_reason_code") && !OfThisRun(code)
  {
    assert |"counts"| == 6 && |"by_reason_code"| == 14 && "by_reason_code"[0] == 'b';
    assert |"run_id"| == 6 && "run_id"[0] == 'r' && "started_at"[0] == 's' && "completed_at"[0] == 'c'
        && "report_sha256"[0] == 'r' && "ai_invocation_id"[0] == 'a';
    assert |"completed_at"| == 12;
    WithoutEllNotOfRun("counts");
    WithoutEllNotOfRun("by_reason_code");
    assert code != "" ==> code[0] in code;
    WithoutEllNotOfRun(code);
  }
}
