/** The sealed ReleaseCertificationManifest: `assemble` and `verify`. */
module ReleaseManifest {
  import opened Options
  import opened Json
  import opened CanonicalJson
  import Orders
  import Defects

  /** SHA-256 over the UTF-8 of a text, as a hex string; taken to be injective where a lemma says so. */
  ghost predicate InjectiveHash(hash: string -> string) {
    forall a, b :: hash(a) == hash(b) ==> a == b
  }

  const HASH := "manifest_hash"
  const SCHEMA_VERSION := "1.1.0"

  /** `canonical_bytes`: sorted keys, no whitespace, non-ASCII as it is. */
  function CanonicalText(v: Value): string { Dumps(v, false, false) }

  function ComputeHash(hash: string -> string, body: Value): string { hash(CanonicalText(body)) }

  /** What `check_manifest` recomputes the hash over. */
  function Body(m: Value): Value
    requires m.Obj?
  {
    Obj(Without(m.fields, HASH))
  }

  /** `check_manifest` on a manifest of the right shape: the recorded hash is the recomputed one. */
  method CheckManifest(hash: string -> string, m: Value) returns (intact: bool)
    requires m.Obj?
    ensures intact <==> Get(m.fields, HASH) == Some(Str(ComputeHash(hash, Body(m))))
  {
    var claimed := Get(m.fields, HASH);
    var body: seq<Member> := [];
    for i := 0 to |m.fields|
      invariant body == Without(m.fields[..i], HASH)
    {
      var f := m.fields[i];
      WithoutAppend(m.fields[..i], f, HASH);
      assert m.fields[..i + 1] == m.fields[..i] + [f];
      if f.key != HASH {
        body := body + [f];
      }
    }
    assert m.fields[..|m.fields|] == m.fields;
    var actual := ComputeHash(hash, Obj(body));
    return claimed == Some(Str(actual));
  }

  ghost predicate Intact(hash: string -> string, m: Value)
    requires m.Obj?
  {
    Get(m.fields, HASH) == Some(Str(ComputeHash(hash, Body(m))))
  }

  lemma {:induction false} WithoutAppend(fields: seq<Member>, m: Member, key: string)
    ensures Without(fields + [m], key) == Without(fields, key) + (if m.key == key then [] else [m])
  {
    if fields == [] {
      assert fields + [m] == [m] && [m][1..] == [];
    } else {
      WithoutAppend(fields[1..], m, key);
      assert (fields + [m])[1..] == fields[1..] + [m];
    }
  }

  // ---- assemble --------------------------------------------------------------------

  /** The registers and arguments a manifest is assembled from. */
  datatype Sources = Sources(
    version: string, commit: string, generatedAt: string, traceability: Value,
    waivers: seq<Value>, quarantine: seq<Value>, defects: seq<Value>, rollbackRef: Option<string>)

  function Count(n: nat): Value { Int(n) }

  function BodyFields(s: Sources, blocking: nat): seq<Member> {
    [Member("schema_version", Str(SCHEMA_VERSION)),
     Member("version", Str(s.version)),
     Member("commit", Str(s.commit)),
     Member("generated_at", Str(s.generatedAt)),
     Member("traceability", s.traceability),
     Member("waivers", Obj([Member("list", Arr(s.waivers)), Member("count", Count(|s.waivers|))])),
     Member("quarantine", Obj([Member("entries", Arr(s.quarantine)), Member("count", Count(|s.quarantine|))])),
     Member("defects", Obj([Member("list", Arr(s.defects)), Member("count", Count(|s.defects|)),
                            Member("blocking_count", Count(blocking))])),
     Member("rollback_ref", match s.rollbackRef case None => Null case Some(r) => Str(r))]
  }

  /** `{**body, "manifest_hash": compute_hash(body)}`. */
  function Seal(hash: string -> string, body: seq<Member>): Value {
    Obj(body + [Member(HASH, Str(ComputeHash(hash, Obj(body))))])
  }

  // ---- reading the registers' entries ----------------------------------------------

  function Text(v: Value, key: string): string
    requires v.Obj?
  {
    match Get(v.fields, key) case Some(Str(s)) => s case _ => ""
  }

  /** One entry of `docs/defects.yaml`. */
  function ReadDefect(v: Value): Defects.Defect
    requires v.Obj?
  {
    Defects.Defect(Text(v, "defect_id"),
                   if Text(v, "severity") == "QA-SEV-1" then Defects.Sev1 else Defects.Sev2,
                   Text(v, "status") == "OPEN",
                   match Get(v.fields, "waiver_id") case Some(Str(s)) => Some(s) case _ => None)
  }

  /** One entry of `docs/waivers.yaml`; `clock` is `strptime` on an RFC 3339 instant. What stands for an
      expiry that cannot be read does not matter, see `OnlyConsultedDatesMatter`. */
  function ReadWaiver(clock: string -> Option<int>, v: Value): Defects.Waiver
    requires v.Obj?
  {
    Defects.Waiver(Text(v, "waiver_id"), Text(v, "requirement_id"),
                   match clock(Text(v, "expires_at")) case Some(t) => t case None => 0)
  }

  predicate Entries(list: seq<Value>) { forall i | 0 <= i < |list| :: list[i].Obj? }

  function ReadDefects(list: seq<Value>): (r: seq<Defects.Defect>)
    requires Entries(list)
    ensures |r| == |list| && forall i | 0 <= i < |r| :: r[i] == ReadDefect(list[i])
  {
    seq(|list|, i requires 0 <= i < |list| => ReadDefect(list[i]))
  }

  function ReadWaivers(clock: string -> Option<int>, list: seq<Value>): (r: seq<Defects.Waiver>)
    requires Entries(list)
    ensures |r| == |list| && forall i | 0 <= i < |r| :: r[i] == ReadWaiver(clock, list[i])
  {
    seq(|list|, i requires 0 <= i < |list| => ReadWaiver(clock, list[i]))
  }

  /** How many of the listed defects block, the waivers being those listed, at an instant. */
  function BlockingCount(clock: string -> Option<int>, defects: seq<Value>, waivers: seq<Value>, now: int): nat
    requires Entries(defects) && Entries(waivers)
  {
    |Defects.Blocking(ReadDefects(defects), Defects.ById(ReadWaivers(clock, waivers)), now)|
  }

  // ---- the registers as they are read ------------------------------------------------

  /** The arguments, the traceability snapshot if it was ever generated, and three parsed documents. */
  datatype Registers = Registers(
    version: string, commit: string, generatedAt: string, rollbackRef: Option<string>,
    traceability: Option<Value>, waivers: Value, quarantine: Value, defects: Value)

  /** `_require_list`; None where it raises. */
  function RequireList(doc: Value, key: string): Option<seq<Value>> {
    if !doc.Obj? then None
    else match Get(doc.fields, key) case Some(Arr(items)) => Some(items) case _ => None
  }

  predicate HasText(v: Value, key: string)
    requires v.Obj?
  {
    match Get(v.fields, key) case Some(Str(_)) => true case _ => false
  }

  /** What the schema asks of a defect, as far as anything here reads it. */
  predicate DefectShaped(v: Value) {
    && v.Obj? && HasText(v, "defect_id")
    && Text(v, "severity") in {"QA-SEV-1", "QA-SEV-2"} && Text(v, "status") in {"OPEN", "RESOLVED"}
    && (Has(v.fields, "waiver_id") ==> HasText(v, "waiver_id"))
  }

  predicate WaiverShaped(v: Value) {
    v.Obj? && HasText(v, "waiver_id") && HasText(v, "requirement_id") && HasText(v, "expires_at")
  }

  /** The lists the registers hold, when each has one and their entries are shaped. */
  function Read(r: Registers): Option<Sources> {
    var waivers := RequireList(r.waivers, "waivers");
    var quarantine := RequireList(r.quarantine, "quarantine");
    var defects := RequireList(r.defects, "defects");
    if r.traceability.None? || waivers.None? || quarantine.None? || defects.None? then None
    else if (exists d | d in defects.value :: !DefectShaped(d)) || (exists w | w in waivers.value :: !WaiverShaped(w)) then None
    else Some(Sources(r.version, r.commit, r.generatedAt, r.traceability.value, waivers.value, quarantine.value,
                      defects.value, r.rollbackRef))
  }

  /** Every expiry that is looked at, of the last waiver under its id, can be read: the schema's pattern
      lets through dates that do not exist. */
  predicate DatesRead(clock: string -> Option<int>, defects: seq<Value>, waivers: seq<Value>)
    requires Entries(defects) && Entries(waivers)
  {
    forall i | 0 <= i < |waivers| ::
      (exists d | d in ReadDefects(defects) :: Defects.Consults(d, ReadWaiver(clock, waivers[i]))) &&
      (forall j | i < j < |waivers| :: Text(waivers[j], "waiver_id") != Text(waivers[i], "waiver_id")) ==>
        clock(Text(waivers[i], "expires_at")).Some?
  }

  lemma ReadIsShaped(r: Registers)
    requires Read(r).Some?
    ensures Entries(Read(r).value.defects) && Entries(Read(r).value.waivers)
  {
    hide DefectShaped, RequireList;
    var s := Read(r).value;
    forall i | 0 <= i < |s.defects| ensures s.defects[i].Obj? {
      assert s.defects[i] in s.defects && DefectShaped(s.defects[i]);
      ShapedIsObject(s.defects[i]);
    }
    forall i | 0 <= i < |s.waivers| ensures s.waivers[i].Obj? {
      assert s.waivers[i] in s.waivers;
    }
  }

  lemma ShapedIsObject(v: Value)
    requires DefectShaped(v)
    ensures v.Obj?
  {
  }

  /** The manifest `assemble` makes of the registers, if it makes one. `rest` is what else the two schemas
      ask. */
  ghost function Assembled(hash: string -> string, r: Registers, rest: (Value, Value) -> bool, clock: string -> Option<int>): Option<Value> {
    if Read(r).None? || !rest(r.defects, r.waivers) || clock(r.generatedAt).None? then None
    else
      var s := Read(r).value;
      ReadIsShaped(r);
      if !DatesRead(clock, s.defects, s.waivers) then None
      else if !Defects.Clean(ReadDefects(s.defects), Defects.ById(ReadWaivers(clock, s.waivers))) then None
      else Some(Seal(hash, BodyFields(s, BlockingCount(clock, s.defects, s.waivers, clock(r.generatedAt).value))))
  }

  /** `assemble`: refuses a missing snapshot, a register without its list, an entry out of shape, a
      register with findings, and a timestamp or a consulted expiry it cannot read; otherwise seals the
      registers, counting the listed defects that block as of that very instant. */
  method Assemble(hash: string -> string, r: Registers, rest: (Value, Value) -> bool, clock: string -> Option<int>)
      returns (manifest: Option<Value>)
    ensures manifest == Assembled(hash, r, rest, clock)
  {
    hide Seal, BodyFields, Defects.Clean, Defects.Due, Read, DatesRead;
    var read := Read(r);
    if read.None? || !rest(r.defects, r.waivers) {
      return None;
    }
    var s := read.value;
    ReadIsShaped(r);
    var defects, waivers := ReadDefects(s.defects), ReadWaivers(clock, s.waivers);
    var findings := Defects.CheckEntries(defects, Defects.ById(waivers));
    assert findings != [] ==> findings[0] in findings;
    Defects.CleanIffNothingDue(defects, Defects.ById(waivers));
    var asOf := clock(r.generatedAt);
    if findings != [] || asOf.None? || !DatesRead(clock, s.defects, s.waivers) {
      return None;
    }
    var blocking := Defects.BlockingDefects(defects, waivers, asOf.value);
    return Some(Seal(hash, BodyFields(s, |blocking|)));
  }

  /** Two readings of the instants that agree wherever the first has one give one count, if the first
      can read every expiry that is looked at. */
  lemma OnlyConsultedDatesMatter(clock: string -> Option<int>, other: string -> Option<int>,
                                 defects: seq<Value>, waivers: seq<Value>, now: int)
    requires Entries(defects) && Entries(waivers) && DatesRead(clock, defects, waivers)
    requires forall t :: clock(t).Some? ==> other(t) == clock(t)
    ensures BlockingCount(clock, defects, waivers, now) == BlockingCount(other, defects, waivers, now)
  {
    hide Defects.Blocks, Defects.Blocking;
    var ds, m, n := ReadDefects(defects), ReadWaivers(clock, waivers), ReadWaivers(other, waivers);
    forall d | d in ds ensures Defects.Blocks(d, Defects.ById(m), now) == Defects.Blocks(d, Defects.ById(n), now) {
      forall i | 0 <= i < |m| && Defects.Consults(d, m[i]) && forall j | i < j < |m| :: m[j].id != m[i].id
        ensures m[i] == n[i]
      {
        forall j | i < j < |waivers| ensures Text(waivers[j], "waiver_id") != Text(waivers[i], "waiver_id") {
          assert m[j].id == Text(waivers[j], "waiver_id");
        }
      }
      Defects.SameDecision(d, m, n, now);
    }
    Defects.SameBlocking(ds, Defects.ById(m), Defects.ById(n), now);
  }

  // ---- what the hash protects ----------------------------------------------------------

  lemma {:induction false} WithoutMembers(fields: seq<Member>, key: string)
    ensures forall m :: m in Without(fields, key) <==> m in fields && m.key != key
  {
    if fields == [] {
    } else {
      WithoutMembers(fields[1..], key);
      assert fields == [fields[0]] + fields[1..];
    }
  }

  lemma {:induction false} WithoutUnique(fields: seq<Member>, key: string)
    requires UniqueKeys(fields)
    ensures UniqueKeys(Without(fields, key))
  {
    if fields == [] {
    } else {
      WithoutUnique(fields[1..], key);
      WithoutMembers(fields[1..], key);
      var rest := Without(fields[1..], key);
      forall j | 0 <= j < |rest| ensures rest[j].key != fields[0].key {
        assert rest[j] in fields[1..];
      }
    }
  }

  lemma BodyWellFormed(m: Value)
    requires m.Obj? && WellFormed(m)
    ensures WellFormed(Body(m))
  {
    WithoutUnique(m.fields, HASH);
    WithoutMembers(m.fields, HASH);
    var rest := Without(m.fields, HASH);
    forall i | 0 <= i < |rest| ensures WellFormed(rest[i].val) {
      assert rest[i] in m.fields;
    }
  }

  lemma {:induction false} NormWithout(fields: seq<Member>, key: string)
    ensures NormFields(Without(fields, key)) == Without(NormFields(fields), key)
  {
    if fields == [] {
    } else {
      NormWithout(fields[1..], key);
      assert NormFields(fields)[1..] == NormFields(fields[1..]);
    }
  }

  /** Two copies of one document, member order aside, have the same body. */
  lemma SameBody(a: Value, b: Value)
    requires a.Obj? && b.Obj? && WellFormed(a) && WellFormed(b) && SameJson(a, b)
    ensures SameJson(Body(a), Body(b))
  {
    var f, g := a.fields, b.fields;
    NormIffSame(a, b);
    NormEqualMembers(f, g);
    var s, t := NormFields(Without(f, HASH)), NormFields(Without(g, HASH));
    NormWithout(f, HASH);
    NormWithout(g, HASH);
    WithoutMembers(NormFields(f), HASH);
    WithoutMembers(NormFields(g), HASH);
    BodyWellFormed(a);
    BodyWellFormed(b);
    NormFieldsUnique(Without(f, HASH));
    NormFieldsUnique(Without(g, HASH));
    SameMultiset(s, t);
    KeyLeqIsOrder();
    UniqueNoTies(s);
    Orders.SortForgetsOrder(KeyLeq, s, t);
    NormIffSame(Body(a), Body(b));
  }

  /** A document keeps the hash it records when its members are reordered. */
  lemma SameRecordedHash(a: Value, b: Value)
    requires a.Obj? && b.Obj? && WellFormed(a) && WellFormed(b) && SameJson(a, b)
    requires Has(a.fields, HASH) && Get(a.fields, HASH).value.Str?
    ensures Get(b.fields, HASH) == Get(a.fields, HASH)
  {
    var m := Member(HASH, Get(a.fields, HASH).value);
    var i :| 0 <= i < |a.fields| && a.fields[i] == m;
    assert SameJson(a.fields[i].val, Get(b.fields, HASH).value);
  }

  /** Tamper evidence is about the document, not the file: any layout of an intact manifest, with its
      members in any order, reads back as an intact manifest. */
  lemma AnyLayoutStaysIntact(hash: string -> string, built: Value, copy: Value, text: string)
    requires built.Obj? && WellFormed(built) && Intact(hash, built)
    requires WellFormed(copy) && SameJson(built, copy) && LayoutOf(text, copy)
    ensures Loads(text) == Some(copy) && copy.Obj? && Intact(hash, copy)
  {
    LoadsAnyLayout(text, copy);
    SameRecordedHash(built, copy);
    SameBody(built, copy);
    BodyWellFormed(built);
    BodyWellFormed(copy);
    DumpsDeterminesValue(Body(built), Body(copy), false, false);
  }

  lemma SealUnique(hash: string -> string, body: seq<Member>)
    requires WellFormed(Obj(body)) && !Has(body, HASH)
    ensures WellFormed(Seal(hash, body)) && Intact(hash, Seal(hash, body))
    ensures Body(Seal(hash, body)) == Obj(body)
  {
    hide ComputeHash;
    var stamp := Member(HASH, Str(ComputeHash(hash, Obj(body))));
    HasIff(body, HASH);
    WithoutAppend(body, stamp, HASH);
    WithoutAbsent(body, HASH);
    assert Without(body + [stamp], HASH) == body + [] == body;
    assert UniqueKeys(body + [stamp]);
    assert (body + [stamp])[|body|] == stamp;
    GetUnique(body + [stamp], |body|);
    assert Get(body + [stamp], HASH) == Some(stamp.val);
  }

  lemma {:induction false} WithoutAbsent(fields: seq<Member>, key: string)
    requires !Has(fields, key)
    ensures Without(fields, key) == fields
  {
    if fields == [] {
    } else {
      WithoutAbsent(fields[1..], key);
    }
  }

  /** The manifest's field names are all different, and none is the hash's. */
  lemma FieldNamesDiffer(f: seq<Member>)
    requires |f| == 9
    requires f[0].key == "schema_version" && f[1].key == "version" && f[2].key == "commit"
    requires f[3].key == "generated_at" && f[4].key == "traceability" && f[5].key == "waivers"
    requires f[6].key == "quarantine" && f[7].key == "defects" && f[8].key == "rollback_ref"
    ensures UniqueKeys(f) && !Has(f, HASH)
  {
    assert |f[0].key| == 14 && |f[1].key| == 7 && |f[2].key| == 6 && |f[3].key| == 12;
    assert |f[4].key| == 12 && |f[5].key| == 7 && |f[6].key| == 10 && |f[7].key| == 7;
    assert |f[8].key| == 12 && |HASH| == 13;
    assert f[3].key[0] == 'g' && f[4].key[0] == 't' && f[8].key[0] == 'r';
    assert f[1].key[0] == 'v' && f[5].key[0] == 'w' && f[7].key[0] == 'd';
    HasIff(f, HASH);
  }

  lemma ListFieldFine(name: string, items: seq<Value>)
    requires WellFormed(Arr(items)) && |name| != 5
    ensures WellFormed(Obj([Member(name, Arr(items)), Member("count", Count(|items|))]))
  {
    assert |"count"| == 5;
  }

  lemma DefectsFieldFine(items: seq<Value>, blocking: nat)
    requires WellFormed(Arr(items))
    ensures WellFormed(Obj([Member("list", Arr(items)), Member("count", Count(|items|)),
                            Member("blocking_count", Count(blocking))]))
  {
    assert |"list"| == 4 && |"count"| == 5 && |"blocking_count"| == 14;
  }

  lemma BodyFieldsFine(s: Sources, blocking: nat)
    requires WellFormed(s.traceability) && WellFormed(Arr(s.waivers))
    requires WellFormed(Arr(s.quarantine)) && WellFormed(Arr(s.defects))
    ensures WellFormed(Obj(BodyFields(s, blocking))) && !Has(BodyFields(s, blocking), HASH)
  {
    var f := BodyFields(s, blocking);
    FieldNamesDiffer(f);
    forall i | 0 <= i < |f| ensures WellFormed(f[i].val) {
      FieldFine(s, blocking, i);
    }
  }

  lemma FieldFine(s: Sources, blocking: nat, i: nat)
    requires WellFormed(s.traceability) && WellFormed(Arr(s.waivers)) && i < 9
    requires WellFormed(Arr(s.quarantine)) && WellFormed(Arr(s.defects))
    ensures WellFormed(BodyFields(s, blocking)[i].val)
  {
    assert |"list"| == 4 && |"entries"| == 7;
    ListFieldFine("list", s.waivers);
    ListFieldFine("entries", s.quarantine);
    DefectsFieldFine(s.defects, blocking);
  }

  /** What `build` writes, `verify` finds intact: through the indented file on disk and back. */
  lemma BuildThenVerify(hash: string -> string, s: Sources, blocking: nat)
    requires WellFormed(s.traceability) && WellFormed(Arr(s.waivers))
    requires WellFormed(Arr(s.quarantine)) && WellFormed(Arr(s.defects))
    ensures
      var built := Seal(hash, BodyFields(s, blocking));
      var read := Loads(DumpsPretty(built, false));
      read.Some? && read.value.Obj? && SameJson(built, read.value) && Intact(hash, read.value)
  {
    var built := Seal(hash, BodyFields(s, blocking));
    BodyFieldsFine(s, blocking);
    SealUnique(hash, BodyFields(s, blocking));
    DumpsPrettyIsLayout(built, false);
    NormTwice(built);
    NormIffSame(built, Norm(built));
    AnyLayoutStaysIntact(hash, built, Norm(built), DumpsPretty(built, false));
  }

  /** Tamper evidence: a manifest that still records an intact manifest's hash passes `verify` exactly
      when its body is the same document. Any other change to the body is reported. */
  lemma ChangedBodyIsReported(hash: string -> string, original: Value, edited: Value)
    requires InjectiveHash(hash)
    requires original.Obj? && edited.Obj? && WellFormed(original) && WellFormed(edited)
    requires Intact(hash, original) && Get(edited.fields, HASH) == Get(original.fields, HASH)
    ensures Intact(hash, edited) <==> SameJson(Body(original), Body(edited))
  {
    BodyWellFormed(original);
    BodyWellFormed(edited);
    DumpsDeterminesValue(Body(original), Body(edited), false, false);
  }
}
