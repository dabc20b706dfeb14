/** What a release manifest records of the registers, read off the JSON of both. */
module ManifestRecord {
  import opened Options
  import opened Json
  import opened CanonicalJson
  import opened ReleaseManifest
  import Defects

  // ---- the registers' JSON ---------------------------------------------------------------

  predicate Says(v: Value, key: string, s: string) { v.Obj? && Get(v.fields, key) == Some(Str(s)) }

  predicate Lists(v: Value, key: string, items: seq<Value>) { v.Obj? && Get(v.fields, key) == Some(Arr(items)) }

  ghost predicate IsDefect(d: Value) {
    && d.Obj? && (exists id :: Says(d, "defect_id", id))
    && (Says(d, "severity", "QA-SEV-1") || Says(d, "severity", "QA-SEV-2"))
    && (Says(d, "status", "OPEN") || Says(d, "status", "RESOLVED"))
    && (match Get(d.fields, "waiver_id") case None => true case Some(id) => id.Str?)
  }

  ghost predicate IsWaiver(w: Value) {
    (exists id :: Says(w, "waiver_id", id)) && (exists req :: Says(w, "requirement_id", req)) && (exists t :: Says(w, "expires_at", t))
  }

  /** The `k`-th waiver is the last one listed under the id. */
  ghost predicate InForce(waivers: seq<Value>, k: nat, id: string) {
    && k < |waivers| && Says(waivers[k], "waiver_id", id)
    && forall j | k < j < |waivers| :: !Says(waivers[j], "waiver_id", id)
  }

  /** The defect names the `k`-th waiver, which is in force and for the right requirement. */
  ghost predicate Waived(waivers: seq<Value>, k: nat, d: Value) {
    && (exists id :: id != "" && Says(d, "waiver_id", id) && InForce(waivers, k, id))
    && Says(waivers[k], "requirement_id", "ZTAX-QA-REQ-0100")
  }

  ghost predicate LiveAt(clock: string -> Option<int>, w: Value, at: int) {
    exists t :: Says(w, "expires_at", t) && clock(t).Some? && at <= clock(t).value
  }

  /** An open defect of the first severity, or of the second without a live waiver. */
  ghost predicate HoldsUp(clock: string -> Option<int>, waivers: seq<Value>, at: int, d: Value) {
    && Says(d, "status", "OPEN")
    && (Says(d, "severity", "QA-SEV-1") || !exists k: nat :: Waived(waivers, k, d) && LiveAt(clock, waivers[k], at))
  }

  /** Deciding on the defect looks at the waiver's expiry. */
  ghost predicate LooksAt(waivers: seq<Value>, k: nat, d: Value) {
    Says(d, "status", "OPEN") && Says(d, "severity", "QA-SEV-2") && Waived(waivers, k, d)
  }

  /** The registers `assemble` accepts, with the lists in them. */
  ghost predicate Acceptable(r: Registers, rest: (Value, Value) -> bool, clock: string -> Option<int>,
                             waivers: seq<Value>, quarantine: seq<Value>, defects: seq<Value>) {
    && r.traceability.Some?
    && Lists(r.waivers, "waivers", waivers) && Lists(r.quarantine, "quarantine", quarantine) && Lists(r.defects, "defects", defects)
    && (forall i | 0 <= i < |defects| :: IsDefect(defects[i])) && (forall k | 0 <= k < |waivers| :: IsWaiver(waivers[k]))
    && rest(r.defects, r.waivers) && clock(r.generatedAt).Some?
    && NoIdTwice(defects) && (forall i | 0 <= i < |defects| :: GoodReference(waivers, defects[i]))
    && (forall i, k: nat | 0 <= i < |defects| && LooksAt(waivers, k, defects[i]) ::
          exists t :: Says(waivers[k], "expires_at", t) && clock(t).Some?)
  }

  ghost predicate NoIdTwice(defects: seq<Value>) {
    forall i, j, id | 0 <= i < j < |defects| && Says(defects[i], "defect_id", id) :: !Says(defects[j], "defect_id", id)
  }

  /** A waiver is for the second severity only, and the one named is in force for QA-REQ-0100. */
  ghost predicate GoodReference(waivers: seq<Value>, d: Value) {
    forall id | Says(d, "waiver_id", id) ::
      && Says(d, "severity", "QA-SEV-2")
      && exists k: nat :: InForce(waivers, k, id) && Says(waivers[k], "requirement_id", "ZTAX-QA-REQ-0100")
  }

  // ---- the entries as they are read ----------------------------------------------------------

  lemma TextSays(v: Value, key: string, s: string)
    requires v.Obj?
    ensures Says(v, key, s) ==> Text(v, key) == s
    ensures s != "" && Text(v, key) == s ==> Says(v, key, s)
    ensures HasText(v, key) <==> exists t :: Says(v, key, t)
    ensures HasText(v, key) ==> Says(v, key, Text(v, key))
  {
    if HasText(v, key) {
      assert Says(v, key, Get(v.fields, key).value.s);
    }
  }

  lemma ShapedIsDefect(d: Value)
    ensures DefectShaped(d) <==> IsDefect(d)
  {
    if d.Obj? {
      TextSays(d, "defect_id", "");
      TextSays(d, "severity", "QA-SEV-1");
      TextSays(d, "severity", "QA-SEV-2");
      TextSays(d, "status", "OPEN");
      TextSays(d, "status", "RESOLVED");
    }
  }

  lemma ShapedIsWaiver(w: Value)
    ensures WaiverShaped(w) <==> IsWaiver(w)
  {
    if w.Obj? {
      TextSays(w, "waiver_id", "");
      TextSays(w, "requirement_id", "");
      TextSays(w, "expires_at", "");
    }
  }

  lemma DefectReads(d: Value)
    requires IsDefect(d)
    ensures d.Obj? && ReadDefect(d).open == Says(d, "status", "OPEN")
    ensures ReadDefect(d).severity.Sev1? == Says(d, "severity", "QA-SEV-1")
    ensures ReadDefect(d).severity.Sev2? == Says(d, "severity", "QA-SEV-2")
    ensures forall id :: ReadDefect(d).waiver == Some(id) <==> Says(d, "waiver_id", id)
    ensures forall id :: ReadDefect(d).id == id <==> Says(d, "defect_id", id)
  {
    TextSays(d, "status", "OPEN");
    TextSays(d, "severity", "QA-SEV-1");
    TextSays(d, "severity", "QA-SEV-2");
    TextSays(d, "defect_id", "");
    assert |"QA-SEV-1"| == 8 && "QA-SEV-1"[7] != "QA-SEV-2"[7];
  }

  lemma WaiverReads(clock: string -> Option<int>, w: Value)
    requires IsWaiver(w)
    ensures w.Obj? && forall id :: ReadWaiver(clock, w).id == id <==> Says(w, "waiver_id", id)
    ensures forall req :: ReadWaiver(clock, w).requirement == req <==> Says(w, "requirement_id", req)
    ensures forall t :: Text(w, "expires_at") == t <==> Says(w, "expires_at", t)
  {
    TextSays(w, "waiver_id", "");
    TextSays(w, "requirement_id", "");
    TextSays(w, "expires_at", "");
  }

  ghost predicate AllDefects(defects: seq<Value>) { forall i | 0 <= i < |defects| :: IsDefect(defects[i]) }

  ghost predicate AllWaivers(waivers: seq<Value>) { forall k | 0 <= k < |waivers| :: IsWaiver(waivers[k]) }

  lemma EntriesAre(defects: seq<Value>, waivers: seq<Value>)
    requires AllDefects(defects) && AllWaivers(waivers)
    ensures Entries(defects) && Entries(waivers)
  {
    hide IsDefect, IsWaiver;
    forall i | 0 <= i < |defects| ensures defects[i].Obj? {
      DefectReads(defects[i]);
    }
    forall k | 0 <= k < |waivers| ensures waivers[k].Obj? {
      WaiverReads(_ => None, waivers[k]);
    }
  }

  /** The dictionary of waivers holds what is in force. */
  lemma DictionaryIsInForce(clock: string -> Option<int>, waivers: seq<Value>, id: string)
    requires AllWaivers(waivers) && Entries(waivers)
    ensures
      var byId := Defects.ById(ReadWaivers(clock, waivers));
      && (id in byId <==> exists k: nat :: InForce(waivers, k, id))
      && forall k: nat | InForce(waivers, k, id) :: id in byId && byId[id] == ReadWaiver(clock, waivers[k])
  {
    hide IsWaiver, ReadWaiver;
    var ws := ReadWaivers(clock, waivers);
    forall k | 0 <= k < |ws| ensures ws[k].id == id <==> Says(waivers[k], "waiver_id", id) {
      WaiverReads(clock, waivers[k]);
    }
    if id in Defects.ById(ws) {
      var k := Defects.LastUnder(ws, id);
      assert InForce(waivers, k, id);
    }
    forall k: nat | InForce(waivers, k, id) ensures id in Defects.ById(ws) && Defects.ById(ws)[id] == ReadWaiver(clock, waivers[k]) {
      Defects.LastWins(ws, k);
    }
  }

  lemma ReferenceIsGood(clock: string -> Option<int>, waivers: seq<Value>, d: Value)
    requires AllWaivers(waivers) && Entries(waivers) && IsDefect(d)
    ensures
      var x, byId := ReadDefect(d), Defects.ById(ReadWaivers(clock, waivers));
      GoodReference(waivers, d) <==>
        (x.waiver.Some? ==> x.severity.Sev2? && x.waiver.value in byId && byId[x.waiver.value].requirement == "ZTAX-QA-REQ-0100")
  {
    hide IsDefect, ReadDefect, ReadWaiver;
    DefectReads(d);
    var x := ReadDefect(d);
    if x.waiver.Some? {
      DictionaryIsInForce(clock, waivers, x.waiver.value);
      forall k: nat | InForce(waivers, k, x.waiver.value)
        ensures ReadWaiver(clock, waivers[k]).requirement == "ZTAX-QA-REQ-0100" <==> Says(waivers[k], "requirement_id", "ZTAX-QA-REQ-0100")
      {
        WaiverReads(clock, waivers[k]);
      }
    }
  }

  lemma CleanIff(clock: string -> Option<int>, defects: seq<Value>, waivers: seq<Value>)
    requires AllDefects(defects) && AllWaivers(waivers) && Entries(defects) && Entries(waivers)
    ensures Defects.Clean(ReadDefects(defects), Defects.ById(ReadWaivers(clock, waivers))) <==>
              NoIdTwice(defects) && forall i | 0 <= i < |defects| :: GoodReference(waivers, defects[i])
  {
    hide IsDefect, ReadDefect, GoodReference;
    var ds := ReadDefects(defects);
    forall i | 0 <= i < |defects|
      ensures forall id :: ds[i].id == id <==> Says(defects[i], "defect_id", id)
      ensures
        var byId := Defects.ById(ReadWaivers(clock, waivers));
        GoodReference(waivers, defects[i]) <==>
          (ds[i].waiver.Some? ==> ds[i].severity.Sev2? && ds[i].waiver.value in byId && byId[ds[i].waiver.value].requirement == "ZTAX-QA-REQ-0100")
    {
      DefectReads(defects[i]);
      ReferenceIsGood(clock, waivers, defects[i]);
    }
    assert forall i | 0 <= i < |ds| :: ds[i] in ds;
    IdsDifferIff(defects, ds);
  }

  lemma IdsDifferIff(defects: seq<Value>, ds: seq<Defects.Defect>)
    requires |ds| == |defects| && forall i, id | 0 <= i < |ds| :: ds[i].id == id <==> Says(defects[i], "defect_id", id)
    ensures NoIdTwice(defects) <==> forall i, j | 0 <= i < j < |ds| :: ds[i].id != ds[j].id
  {
    if NoIdTwice(defects) {
      forall i, j | 0 <= i < j < |ds| ensures ds[i].id != ds[j].id {
        assert Says(defects[i], "defect_id", ds[i].id) && !Says(defects[j], "defect_id", ds[i].id);
      }
    }
  }

  lemma WaivedIff(clock: string -> Option<int>, waivers: seq<Value>, k: nat, d: Value)
    requires AllWaivers(waivers) && Entries(waivers) && IsDefect(d)
    ensures Waived(waivers, k, d) <==>
              var x := ReadDefect(d);
              && x.waiver.Some? && x.waiver.value != "" && InForce(waivers, k, x.waiver.value)
              && ReadWaiver(clock, waivers[k]).requirement == "ZTAX-QA-REQ-0100"
  {
    hide IsDefect, IsWaiver, ReadDefect, ReadWaiver;
    DefectReads(d);
    if k < |waivers| {
      WaiverReads(clock, waivers[k]);
    }
  }

  /** The expiries that are looked at are the same either way. */
  lemma DatesReadIff(clock: string -> Option<int>, defects: seq<Value>, waivers: seq<Value>)
    requires AllDefects(defects) && AllWaivers(waivers) && Entries(defects) && Entries(waivers)
    ensures DatesRead(clock, defects, waivers) <==>
              forall i, k: nat | 0 <= i < |defects| && LooksAt(waivers, k, defects[i]) ::
                exists t :: Says(waivers[k], "expires_at", t) && clock(t).Some?
  {
    hide IsDefect, IsWaiver, ReadDefect, ReadWaiver;
    var ds := ReadDefects(defects);
    forall i, k: nat | 0 <= i < |defects| && k < |waivers|
      ensures LooksAt(waivers, k, defects[i]) <==>
        && Defects.Consults(ds[i], ReadWaiver(clock, waivers[k]))
        && (forall j | k < j < |waivers| :: Text(waivers[j], "waiver_id") != Text(waivers[k], "waiver_id"))
    {
      DefectReads(defects[i]);
      WaivedIff(clock, waivers, k, defects[i]);
      InForceIff(clock, waivers, k);
    }
    forall k: nat | k < |waivers|
      ensures (exists t :: Says(waivers[k], "expires_at", t) && clock(t).Some?) <==> clock(Text(waivers[k], "expires_at")).Some?
    {
      WaiverReads(clock, waivers[k]);
      assert Says(waivers[k], "expires_at", Text(waivers[k], "expires_at"));
    }
    assert forall i | 0 <= i < |ds| :: ds[i] in ds;
    assert forall k: nat, d | LooksAt(waivers, k, d) :: k < |waivers|;
  }

  lemma InForceIff(clock: string -> Option<int>, waivers: seq<Value>, k: nat)
    requires AllWaivers(waivers) && Entries(waivers) && k < |waivers|
    ensures InForce(waivers, k, ReadWaiver(clock, waivers[k]).id) <==>
              forall j | k < j < |waivers| :: Text(waivers[j], "waiver_id") != Text(waivers[k], "waiver_id")
    ensures forall id | InForce(waivers, k, id) :: id == ReadWaiver(clock, waivers[k]).id
  {
    hide IsWaiver;
    forall j | k <= j < |waivers| ensures forall id :: Text(waivers[j], "waiver_id") == id <==> Says(waivers[j], "waiver_id", id) {
      WaiverReads(clock, waivers[j]);
    }
  }

  /** The defect blocks as it is read exactly when it holds up the release by the registers' JSON. */
  lemma BlocksIff(clock: string -> Option<int>, defects: seq<Value>, waivers: seq<Value>, at: int, i: nat)
    requires AllDefects(defects) && AllWaivers(waivers) && Entries(defects) && Entries(waivers)
    requires DatesRead(clock, defects, waivers) && i < |defects|
    ensures Defects.Blocks(ReadDefect(defects[i]), Defects.ById(ReadWaivers(clock, waivers)), at) <==>
              HoldsUp(clock, waivers, at, defects[i])
  {
    hide IsDefect, IsWaiver, ReadDefect, DatesRead;
    var x := ReadDefect(defects[i]);
    DefectReads(defects[i]);
    DatesReadIff(clock, defects, waivers);
    if x.open && x.severity.Sev2? && x.waiver.Some? {
      DictionaryIsInForce(clock, waivers, x.waiver.value);
    }
    forall k: nat
      ensures Waived(waivers, k, defects[i]) <==>
        && x.waiver.Some? && x.waiver.value != "" && InForce(waivers, k, x.waiver.value)
        && ReadWaiver(clock, waivers[k]).requirement == "ZTAX-QA-REQ-0100"
    {
      WaivedIff(clock, waivers, k, defects[i]);
    }
    forall k: nat | LooksAt(waivers, k, defects[i])
      ensures LiveAt(clock, waivers[k], at) <==> at <= ReadWaiver(clock, waivers[k]).expires
    {
      WaiverReads(clock, waivers[k]);
      var t :| Says(waivers[k], "expires_at", t) && clock(t).Some?;
      assert t == Text(waivers[k], "expires_at");
    }
  }

  // ---- the count ----------------------------------------------------------------------------

  function CountTrue(flags: seq<bool>): nat {
    if flags == [] then 0 else CountTrue(flags[..|flags| - 1]) + (if flags[|flags| - 1] then 1 else 0)
  }

  function Places(flags: seq<bool>): set<int> { set i | 0 <= i < |flags| && flags[i] }

  lemma {:induction false} CountIsPlaces(flags: seq<bool>)
    ensures CountTrue(flags) == |Places(flags)|
  {
    if flags == [] {
      assert Places(flags) == {};
    } else {
      var n := |flags| - 1;
      CountIsPlaces(flags[..n]);
      OneMorePlace(flags, n);
    }
  }

  lemma OneMorePlace(flags: seq<bool>, n: nat)
    requires |flags| == n + 1
    ensures |Places(flags)| == |Places(flags[..n])| + (if flags[n] then 1 else 0)
  {
    var all, before := Places(flags), Places(flags[..n]);
    forall i ensures i in all <==> i in before || (flags[n] && i == n) {
      if 0 <= i < n {
        assert flags[..n][i] == flags[i];
      }
    }
    assert n !in before;
    assert all == if flags[n] then before + {n} else before;
  }

  function Flags(ds: seq<Defects.Defect>, byId: map<string, Defects.Waiver>, at: int): (flags: seq<bool>)
    ensures |flags| == |ds| && forall i | 0 <= i < |flags| :: flags[i] == Defects.Blocks(ds[i], byId, at)
  {
    seq(|ds|, i requires 0 <= i < |ds| => Defects.Blocks(ds[i], byId, at))
  }

  lemma {:induction false} BlockingIsCounted(ds: seq<Defects.Defect>, byId: map<string, Defects.Waiver>, at: int)
    ensures |Defects.Blocking(ds, byId, at)| == CountTrue(Flags(ds, byId, at))
  {
    if ds == [] {
    } else {
      hide Defects.Blocks, Defects.Blocking;
      var n := |ds| - 1;
      BlockingIsCounted(ds[..n], byId, at);
      Defects.BlockingAppend(ds[..n], ds[n], byId, at);
      assert Flags(ds, byId, at)[..n] == Flags(ds[..n], byId, at);
      assert ds == ds[..n] + [ds[n]];
    }
  }

  /** The listed defects that hold up the release, by their place in the list. */
  ghost function Blockers(clock: string -> Option<int>, defects: seq<Value>, waivers: seq<Value>, at: int): set<int> {
    set i | 0 <= i < |defects| && HoldsUp(clock, waivers, at, defects[i])
  }

  lemma CountIsBlockers(clock: string -> Option<int>, defects: seq<Value>, waivers: seq<Value>, at: int)
    requires AllDefects(defects) && AllWaivers(waivers) && Entries(defects) && Entries(waivers)
    requires DatesRead(clock, defects, waivers)
    ensures BlockingCount(clock, defects, waivers, at) == |Blockers(clock, defects, waivers, at)|
  {
    hide Defects.Blocks, HoldsUp, DatesRead, ReadDefect;
    var ds, byId := ReadDefects(defects), Defects.ById(ReadWaivers(clock, waivers));
    BlockingIsCounted(ds, byId, at);
    forall i | 0 <= i < |defects| ensures Defects.Blocks(ds[i], byId, at) <==> HoldsUp(clock, waivers, at, defects[i]) {
      BlocksIff(clock, defects, waivers, at, i);
    }
    CountIsPlaces(Flags(ds, byId, at));
    assert Places(Flags(ds, byId, at)) == Blockers(clock, defects, waivers, at);
  }

  // ---- what the manifest says -----------------------------------------------------------------

  /** `m[register][key]`. */
  function At(m: Value, register: string, key: string): Option<Value> {
    if !m.Obj? then None
    else match Get(m.fields, register) case Some(Obj(fields)) => Get(fields, key) case _ => None
  }

  /** The manifest records the arguments, the snapshot and the three lists with their lengths, and counts the
      blockers among the sealed defects by the sealed waivers. */
  ghost predicate Records(m: Value, r: Registers, clock: string -> Option<int>,
                          waivers: seq<Value>, quarantine: seq<Value>, defects: seq<Value>) {
    && m.Obj? && Says(m, "schema_version", "1.1.0")
    && Says(m, "version", r.version) && Says(m, "commit", r.commit) && Says(m, "generated_at", r.generatedAt)
    && Get(m.fields, "traceability") == r.traceability
    && At(m, "waivers", "list") == Some(Arr(waivers)) && At(m, "waivers", "count") == Some(Int(|waivers|))
    && At(m, "quarantine", "entries") == Some(Arr(quarantine)) && At(m, "quarantine", "count") == Some(Int(|quarantine|))
    && At(m, "defects", "list") == Some(Arr(defects)) && At(m, "defects", "count") == Some(Int(|defects|))
    && clock(r.generatedAt).Some?
    && At(m, "defects", "blocking_count") == Some(Int(|Blockers(clock, defects, waivers, clock(r.generatedAt).value)|))
    && Get(m.fields, "rollback_ref") == Some(if r.rollbackRef.Some? then Str(r.rollbackRef.value) else Null)
  }

  /** `assemble` goes through exactly for acceptable registers. */
  lemma AssembledIff(hash: string -> string, r: Registers, rest: (Value, Value) -> bool, clock: string -> Option<int>)
    ensures Assembled(hash, r, rest, clock).Some? <==>
              exists waivers, quarantine, defects :: Acceptable(r, rest, clock, waivers, quarantine, defects)
  {
    hide IsDefect, IsWaiver, DefectShaped, WaiverShaped, NoIdTwice, GoodReference, LooksAt, DatesRead, Defects.Clean, Seal, BodyFields;
    if Assembled(hash, r, rest, clock).Some? {
      var s := Read(r).value;
      ReadsLists(r);
      EntriesAre(s.defects, s.waivers);
      CleanIff(clock, s.defects, s.waivers);
      DatesReadIff(clock, s.defects, s.waivers);
      assert Acceptable(r, rest, clock, s.waivers, s.quarantine, s.defects);
    }
    if exists waivers, quarantine, defects :: Acceptable(r, rest, clock, waivers, quarantine, defects) {
      var waivers, quarantine, defects :| Acceptable(r, rest, clock, waivers, quarantine, defects);
      AcceptedReads(r, rest, clock, waivers, quarantine, defects);
      EntriesAre(defects, waivers);
      CleanIff(clock, defects, waivers);
      DatesReadIff(clock, defects, waivers);
    }
  }

  lemma ReadsLists(r: Registers)
    requires Read(r).Some?
    ensures
      var s := Read(r).value;
      && r.traceability.Some? && Lists(r.waivers, "waivers", s.waivers) && Lists(r.quarantine, "quarantine", s.quarantine)
      && Lists(r.defects, "defects", s.defects) && AllDefects(s.defects) && AllWaivers(s.waivers)
  {
    hide IsDefect, IsWaiver, DefectShaped, WaiverShaped;
    var s := Read(r).value;
    forall i | 0 <= i < |s.defects| ensures IsDefect(s.defects[i]) {
      assert s.defects[i] in s.defects;
      ShapedIsDefect(s.defects[i]);
    }
    forall k | 0 <= k < |s.waivers| ensures IsWaiver(s.waivers[k]) {
      assert s.waivers[k] in s.waivers;
      ShapedIsWaiver(s.waivers[k]);
    }
  }

  lemma AcceptedReads(r: Registers, rest: (Value, Value) -> bool, clock: string -> Option<int>,
                      waivers: seq<Value>, quarantine: seq<Value>, defects: seq<Value>)
    requires Acceptable(r, rest, clock, waivers, quarantine, defects)
    ensures Read(r) == Some(Sources(r.version, r.commit, r.generatedAt, r.traceability.value, waivers, quarantine, defects, r.rollbackRef))
  {
    hide IsDefect, IsWaiver, DefectShaped, WaiverShaped, NoIdTwice, GoodReference, LooksAt;
    forall d | d in defects ensures DefectShaped(d) {
      ShapedIsDefect(d);
    }
    forall w | w in waivers ensures WaiverShaped(w) {
      ShapedIsWaiver(w);
    }
  }

  /** What it makes of them: the manifest records the registers, its `blocking_count` is the number of listed
      defects that hold up the release at the sealed instant, and its hash is that of everything else in it,
      as canonical text. */
  lemma AssembledRecords(hash: string -> string, r: Registers, rest: (Value, Value) -> bool, clock: string -> Option<int>,
                         waivers: seq<Value>, quarantine: seq<Value>, defects: seq<Value>)
    requires Acceptable(r, rest, clock, waivers, quarantine, defects)
    ensures
      var made := Assembled(hash, r, rest, clock);
      && made.Some? && Records(made.value, r, clock, waivers, quarantine, defects)
      && exists body: seq<Member> :: Stamps(hash, made.value, body)
  {
    hide IsDefect, IsWaiver, NoIdTwice, GoodReference, LooksAt, DatesRead, Defects.Clean, Seal, BodyFields, BlockingCount, Blockers;
    AssembledIff(hash, r, rest, clock);
    AcceptedReads(r, rest, clock, waivers, quarantine, defects);
    EntriesAre(defects, waivers);
    DatesReadIff(clock, defects, waivers);
    var at := clock(r.generatedAt).value;
    CountIsBlockers(clock, defects, waivers, at);
    var s := Read(r).value;
    SealedRecords(hash, s, BlockingCount(clock, defects, waivers, at));
    SealStamps(hash, BodyFields(s, BlockingCount(clock, defects, waivers, at)));
  }

  /** All members but the hash come first, and the hash is of their canonical text. */
  ghost predicate Stamps(hash: string -> string, m: Value, body: seq<Member>) {
    m == Obj(body + [Member("manifest_hash", Str(hash(Dumps(Obj(body), false, false))))])
  }

  lemma SealStamps(hash: string -> string, body: seq<Member>)
    ensures Stamps(hash, Seal(hash, body), body)
  {
  }

  lemma SealedRecords(hash: string -> string, s: Sources, blocking: nat)
    ensures
      var m := Seal(hash, BodyFields(s, blocking));
      && m.Obj? && Says(m, "schema_version", "1.1.0")
      && Says(m, "version", s.version) && Says(m, "commit", s.commit) && Says(m, "generated_at", s.generatedAt)
      && Get(m.fields, "traceability") == Some(s.traceability)
      && At(m, "waivers", "list") == Some(Arr(s.waivers)) && At(m, "waivers", "count") == Some(Int(|s.waivers|))
      && At(m, "quarantine", "entries") == Some(Arr(s.quarantine)) && At(m, "quarantine", "count") == Some(Int(|s.quarantine|))
      && At(m, "defects", "list") == Some(Arr(s.defects)) && At(m, "defects", "count") == Some(Int(|s.defects|))
      && At(m, "defects", "blocking_count") == Some(Int(blocking))
      && Get(m.fields, "rollback_ref") == Some(if s.rollbackRef.Some? then Str(s.rollbackRef.value) else Null)
  {
    var f := BodyFields(s, blocking);
    hide ComputeHash, Seal, Get;
    SealedInOrder(hash, f);
    InsideRegisters(s, blocking);
  }

  lemma SealedInOrder(hash: string -> string, f: seq<Member>)
    requires |f| == 9
    requires f[0].key == "schema_version" && f[1].key == "version" && f[2].key == "commit"
    requires f[3].key == "generated_at" && f[4].key == "traceability" && f[5].key == "waivers"
    requires f[6].key == "quarantine" && f[7].key == "defects" && f[8].key == "rollback_ref"
    ensures Seal(hash, f).Obj?
    ensures forall i | 0 <= i < 9 :: Get(Seal(hash, f).fields, f[i].key) == Some(f[i].val)
  {
    hide ComputeHash, Get;
    var all := Seal(hash, f).fields;
    FieldNamesDiffer(f);
    HasIff(f, HASH);
    forall i, j | 0 <= i < j < |all| ensures all[i].key != all[j].key {
      assert all[i] == f[i];
      assert j < |f| ==> all[j] == f[j];
    }
    forall i | 0 <= i < 9 ensures Get(all, f[i].key) == Some(f[i].val) {
      assert all[i] == f[i];
      GetUnique(all, i);
    }
  }

  lemma InsideRegisters(s: Sources, blocking: nat)
    ensures
      var f := BodyFields(s, blocking);
      && f[5].val.Obj? && Get(f[5].val.fields, "list") == Some(Arr(s.waivers)) && Get(f[5].val.fields, "count") == Some(Int(|s.waivers|))
      && f[6].val.Obj? && Get(f[6].val.fields, "entries") == Some(Arr(s.quarantine))
      && Get(f[6].val.fields, "count") == Some(Int(|s.quarantine|))
      && f[7].val.Obj? && Get(f[7].val.fields, "list") == Some(Arr(s.defects)) && Get(f[7].val.fields, "count") == Some(Int(|s.defects|))
      && Get(f[7].val.fields, "blocking_count") == Some(Int(blocking))
  {
    var f := BodyFields(s, blocking);
    assert |"list"| == 4 && |"count"| == 5 && |"entries"| == 7 && |"blocking_count"| == 14;
    GetUnique(f[5].val.fields, 0);
    GetUnique(f[5].val.fields, 1);
    GetUnique(f[6].val.fields, 0);
    GetUnique(f[6].val.fields, 1);
    GetUnique(f[7].val.fields, 0);
    GetUnique(f[7].val.fields, 1);
    GetUnique(f[7].val.fields, 2);
  }

  // ---- what the hash protects, member by member ------------------------------------------------

  /** The two manifests agree on every member but the hash. */
  ghost predicate SameBesidesHash(a: Value, b: Value) {
    && a.Obj? && b.Obj?
    && forall key | key != "manifest_hash" ::
         && (Get(a.fields, key).Some? <==> Get(b.fields, key).Some?)
         && (Get(a.fields, key).Some? ==> SameJson(Get(a.fields, key).value, Get(b.fields, key).value))
  }

  lemma {:induction false} GetWithout(fields: seq<Member>, dropped: string, key: string)
    ensures Get(Without(fields, dropped), key) == if key == dropped then None else Get(fields, key)
  {
    if fields == [] {
    } else {
      GetWithout(fields[1..], dropped, key);
    }
  }

  lemma SameByMembers(f: seq<Member>, g: seq<Member>)
    requires UniqueKeys(f) && UniqueKeys(g)
    requires forall key :: Get(f, key).Some? <==> Get(g, key).Some?
    requires forall key | Get(f, key).Some? :: SameJson(Get(f, key).value, Get(g, key).value)
    ensures SameJson(Obj(f), Obj(g))
  {
    hide SameJson, Get;
    forall key ensures key in Keys(f) <==> key in Keys(g) {
      KeysAre(f, key);
      KeysAre(g, key);
    }
    assert Keys(f) == Keys(g);
    KeyCount(f);
    KeyCount(g);
    forall i | 0 <= i < |f| ensures Has(g, f[i].key) && SameJson(f[i].val, Get(g, f[i].key).value) {
      GetUnique(f, i);
    }
    SameByLookup(f, g);
  }

  lemma MembersOfSame(f: seq<Member>, g: seq<Member>, key: string)
    requires UniqueKeys(f) && UniqueKeys(g) && SameJson(Obj(f), Obj(g))
    ensures Get(f, key).Some? <==> Get(g, key).Some?
    ensures Get(f, key).Some? ==> SameJson(Get(f, key).value, Get(g, key).value)
  {
    assert |f| == |g|;
    assert forall i | 0 <= i < |f| :: Has(g, f[i].key) && SameJson(f[i].val, Get(g, f[i].key).value);
    hide SameJson, Get;
    forall k | k in Keys(f) ensures k in Keys(g) {
      KeysAre(g, k);
    }
    KeyCount(f);
    KeyCount(g);
    assert Keys(f) <= Keys(g) && Keys(g) == Keys(f) + (Keys(g) - Keys(f));
    KeysAre(f, key);
    KeysAre(g, key);
    if Get(f, key).Some? {
      assert Member(key, Get(f, key).value) in f;
    }
  }

  lemma BodiesSameIff(a: Value, b: Value)
    requires a.Obj? && b.Obj? && UniqueKeys(a.fields) && UniqueKeys(b.fields)
    ensures SameJson(Body(a), Body(b)) <==> SameBesidesHash(a, b)
  {
    hide SameJson;
    var f, g := Without(a.fields, HASH), Without(b.fields, HASH);
    WithoutUnique(a.fields, HASH);
    WithoutUnique(b.fields, HASH);
    forall key
      ensures Get(f, key) == if key == HASH then None else Get(a.fields, key)
      ensures Get(g, key) == if key == HASH then None else Get(b.fields, key)
    {
      GetWithout(a.fields, HASH, key);
      GetWithout(b.fields, HASH, key);
    }
    if SameJson(Body(a), Body(b)) {
      forall key | key != HASH
        ensures Get(a.fields, key).Some? <==> Get(b.fields, key).Some?
        ensures Get(a.fields, key).Some? ==> SameJson(Get(a.fields, key).value, Get(b.fields, key).value)
      {
        MembersOfSame(f, g, key);
      }
    }
    if SameBesidesHash(a, b) {
      SameByMembers(f, g);
    }
  }

  /** Tamper evidence: a manifest that still records an intact manifest's hash passes `verify` exactly when it
      agrees with it on every other member. Any other change is reported. */
  lemma ChangeIsReported(hash: string -> string, original: Value, edited: Value)
    requires InjectiveHash(hash)
    requires original.Obj? && edited.Obj? && WellFormed(original) && WellFormed(edited)
    requires Intact(hash, original) && Get(edited.fields, "manifest_hash") == Get(original.fields, "manifest_hash")
    ensures Intact(hash, edited) <==> SameBesidesHash(original, edited)
  {
    ChangedBodyIsReported(hash, original, edited);
    BodiesSameIff(original, edited);
  }
}
