/** Which known defects block a release (QA-REQ-0099, QA-REQ-0100). */
module Defects {
  import opened Options

  datatype Severity = Sev1 | Sev2

  datatype Defect = Defect(id: string, severity: Severity, open: bool, waiver: Option<string>)

  /** `expires` is an instant. */
  datatype Waiver = Waiver(id: string, requirement: string, expires: int)

  const QA_SEV_2_REQUIREMENT := "ZTAX-QA-REQ-0100"

  /** `{w["waiver_id"]: w for w in waivers}`: the last waiver under an id wins. */
  function ById(waivers: seq<Waiver>): map<string, Waiver> {
    if waivers == [] then map[]
    else ById(waivers[..|waivers| - 1])[waivers[|waivers| - 1].id := waivers[|waivers| - 1]]
  }

  predicate Expired(w: Waiver, now: int) { w.expires < now }

  /** The waiver the defect names is registered, is for QA-REQ-0100 and is still live. */
  predicate Covered(d: Defect, byId: map<string, Waiver>, now: int) {
    d.waiver.Some? && d.waiver.value != "" && d.waiver.value in byId &&
    var w := byId[d.waiver.value];
    w.requirement == QA_SEV_2_REQUIREMENT && !Expired(w, now)
  }

  predicate Blocks(d: Defect, byId: map<string, Waiver>, now: int) {
    d.open && (d.severity == Sev1 || !Covered(d, byId, now))
  }

  /** The defects that block, in register order. */
  function Blocking(defects: seq<Defect>, byId: map<string, Waiver>, now: int): seq<Defect> {
    if defects == [] then []
    else if Blocks(defects[0], byId, now) then [defects[0]] + Blocking(defects[1..], byId, now)
    else Blocking(defects[1..], byId, now)
  }

  lemma {:induction false} BlockingAppend(defects: seq<Defect>, d: Defect, byId: map<string, Waiver>, now: int)
    ensures Blocking(defects + [d], byId, now)
         == Blocking(defects, byId, now) + (if Blocks(d, byId, now) then [d] else [])
  {
    if defects == [] {
      assert defects + [d] == [d] && [d][1..] == [];
    } else {
      BlockingAppend(defects[1..], d, byId, now);
      assert (defects + [d])[1..] == defects[1..] + [d];
    }
  }

  /** `blocking_defects`. */
  method BlockingDefects(defects: seq<Defect>, waivers: seq<Waiver>, now: int) returns (blockers: seq<Defect>)
    ensures blockers == Blocking(defects, ById(waivers), now)
    ensures forall d :: d in blockers <==> d in defects && Blocks(d, ById(waivers), now)
  {
    var byId := ById(waivers);
    blockers := [];
    for i := 0 to |defects|
      invariant blockers == Blocking(defects[..i], byId, now)
      invariant forall d :: d in blockers <==> d in defects[..i] && Blocks(d, byId, now)
    {
      var d := defects[i];
      BlockingAppend(defects[..i], d, byId, now);
      assert defects[..i + 1] == defects[..i] + [d];
      if !d.open {
        continue;
      }
      if d.severity == Sev1 {
        blockers := blockers + [d];
        continue;
      }
      if d.waiver.None? || d.waiver.value == "" || d.waiver.value !in byId {
        blockers := blockers + [d];
      } else {
        var w := byId[d.waiver.value];
        if w.requirement != QA_SEV_2_REQUIREMENT || Expired(w, now) {
          blockers := blockers + [d];
        }
      }
    }
    assert defects[..|defects|] == defects;
  }

  /** `t` is what is left of `s` after dropping some elements. */
  ghost predicate Subsequence<T>(t: seq<T>, s: seq<T>) {
    if t == [] then true
    else s != [] && ((t[0] == s[0] && Subsequence(t[1..], s[1..])) || Subsequence(t, s[1..]))
  }

  lemma {:induction false} FewerBlock(defects: seq<Defect>, m: map<string, Waiver>, t: int, n: map<string, Waiver>, u: int)
    requires forall d | d in defects && Blocks(d, m, t) :: Blocks(d, n, u)
    ensures Subsequence(Blocking(defects, m, t), Blocking(defects, n, u))
  {
    if defects == [] {
    } else {
      FewerBlock(defects[1..], m, t, n, u);
      assert defects[0] in defects;
    }
  }

  /** As time passes waivers only lapse, so the list of blockers only grows. */
  lemma TimeOnlyAddsBlockers(defects: seq<Defect>, waivers: seq<Waiver>, now: int, later: int)
    requires now <= later
    ensures Subsequence(Blocking(defects, ById(waivers), now), Blocking(defects, ById(waivers), later))
  {
    FewerBlock(defects, ById(waivers), now, ById(waivers), later);
  }

  /** Registering a waiver under a new id only shrinks the list. */
  lemma FreshWaiverOnlyRemovesBlockers(defects: seq<Defect>, waivers: seq<Waiver>, w: Waiver, now: int)
    requires w.id !in ById(waivers)
    ensures Subsequence(Blocking(defects, ById(waivers + [w]), now), Blocking(defects, ById(waivers), now))
  {
    assert (waivers + [w])[..|waivers + [w]| - 1] == waivers;
    FewerBlock(defects, ById(waivers + [w]), now, ById(waivers), now);
  }

  /** Under an id already taken it can add one: the newcomer replaces a live waiver. */
  lemma ReusedIdCanAddBlocker()
    ensures
      var d := Defect("D1", Sev2, true, Some("W1"));
      var live, stale := Waiver("W1", QA_SEV_2_REQUIREMENT, 10), Waiver("W1", QA_SEV_2_REQUIREMENT, 0);
      !Blocks(d, ById([live]), 5) && Blocks(d, ById([live, stale]), 5)
  {
    var live, stale := Waiver("W1", QA_SEV_2_REQUIREMENT, 10), Waiver("W1", QA_SEV_2_REQUIREMENT, 0);
    assert [live][..0] == [] && [live, stale][..1] == [live];
  }

  /** Adding a waiver never adds a blocker for exactly those defects it leaves alone or covers: the
      list can only shrink if and only if no open QA-SEV-2 defect loses its cover to it. */
  lemma NewWaiverShrinksIff(defects: seq<Defect>, waivers: seq<Waiver>, w: Waiver, now: int)
    ensures (forall d | d in defects && Blocks(d, ById(waivers + [w]), now) :: Blocks(d, ById(waivers), now)) <==>
            !(exists d | d in defects :: d.open && d.severity == Sev2 && d.waiver == Some(w.id)
                && Covered(d, ById(waivers), now) && (w.requirement != QA_SEV_2_REQUIREMENT || Expired(w, now)))
  {
    assert (waivers + [w])[..|waivers + [w]| - 1] == waivers;
  }

  /** An open QA-SEV-1 always blocks, and an open QA-SEV-2 that does not block has a registered, live
      QA-REQ-0100 waiver. */
  lemma WhatIsLeftOut(defects: seq<Defect>, waivers: seq<Waiver>, now: int, d: Defect)
    requires d in defects && d.open
    ensures d.severity == Sev1 ==> d in Blocking(defects, ById(waivers), now)
    ensures d !in Blocking(defects, ById(waivers), now) ==>
              d.severity == Sev2 && d.waiver.Some? && exists w | w in waivers ::
                w.id == d.waiver.value && w.requirement == "ZTAX-QA-REQ-0100" && now <= w.expires
  {
    BlockingMembers(defects, ById(waivers), now);
    if d !in Blocking(defects, ById(waivers), now) {
      var i := LastUnder(waivers, d.waiver.value);
    }
  }

  lemma {:induction false} BlockingMembers(defects: seq<Defect>, byId: map<string, Waiver>, now: int)
    ensures forall d :: d in Blocking(defects, byId, now) <==> d in defects && Blocks(d, byId, now)
  {
    if defects == [] {
    } else {
      BlockingMembers(defects[1..], byId, now);
      assert defects == [defects[0]] + defects[1..];
    }
  }

  /** The last waiver under an id is the one in force. */
  lemma {:induction false} LastWins(waivers: seq<Waiver>, i: nat)
    requires i < |waivers| && forall j | i < j < |waivers| :: waivers[j].id != waivers[i].id
    ensures waivers[i].id in ById(waivers) && ById(waivers)[waivers[i].id] == waivers[i]
  {
    var n := |waivers| - 1;
    if i == n {
    } else {
      LastWins(waivers[..n], i);
      assert waivers[n].id != waivers[i].id;
    }
  }

  lemma {:induction false} LastUnder(waivers: seq<Waiver>, id: string) returns (i: nat)
    requires id in ById(waivers)
    ensures i < |waivers| && waivers[i].id == id && ById(waivers)[id] == waivers[i]
    ensures forall j | i < j < |waivers| :: waivers[j].id != id
  {
    var n := |waivers| - 1;
    if waivers[n].id == id {
      i := n;
    } else {
      i := LastUnder(waivers[..n], id);
    }
  }

  /** Whether deciding on a defect looks at a waiver's expiry, which comes last in the test. */
  predicate Consults(d: Defect, w: Waiver) {
    d.open && d.severity == Sev2 && d.waiver == Some(w.id) && w.id != "" && w.requirement == QA_SEV_2_REQUIREMENT
  }

  /** Waivers that differ in expiries nobody looks at decide alike. */
  lemma SameDecision(d: Defect, m: seq<Waiver>, n: seq<Waiver>, now: int)
    requires |m| == |n| && forall i | 0 <= i < |m| :: m[i].id == n[i].id && m[i].requirement == n[i].requirement
    requires forall i | 0 <= i < |m| && Consults(d, m[i]) && forall j | i < j < |m| :: m[j].id != m[i].id :: m[i] == n[i]
    ensures Blocks(d, ById(m), now) == Blocks(d, ById(n), now)
  {
    if d.waiver.Some? && d.waiver.value in ById(m) {
      var i := LastUnder(m, d.waiver.value);
      LastWins(n, i);
    } else if d.waiver.Some? && d.waiver.value in ById(n) {
      var i := LastUnder(n, d.waiver.value);
      LastWins(m, i);
    }
  }

  lemma {:induction false} SameBlocking(defects: seq<Defect>, m: map<string, Waiver>, n: map<string, Waiver>, now: int)
    requires forall d | d in defects :: Blocks(d, m, now) == Blocks(d, n, now)
    ensures Blocking(defects, m, now) == Blocking(defects, n, now)
  {
    if defects == [] {
    } else {
      SameBlocking(defects[1..], m, n, now);
      assert defects[0] in defects;
    }
  }

  // ---- the register gate ------------------------------------------------------------

  datatype Finding = RegisteredTwice(id: string) | UnknownWaiver(id: string) | Sev1Waived(id: string) | WrongWaiver(id: string)

  /** The rule broken by a defect's own waiver reference. */
  function WaiverFinding(d: Defect, byId: map<string, Waiver>): Option<Finding> {
    if d.waiver.None? then None
    else if d.waiver.value !in byId then Some(UnknownWaiver(d.id))
    else if d.severity == Sev1 then Some(Sev1Waived(d.id))
    else if byId[d.waiver.value].requirement != QA_SEV_2_REQUIREMENT then Some(WrongWaiver(d.id))
    else None
  }

  ghost predicate Repeated(defects: seq<Defect>, id: string) {
    exists i, j | 0 <= i < j < |defects| :: defects[i].id == defects[j].id == id
  }

  /** The defect's waiver reference breaks the rule the finding names. */
  predicate BadReference(d: Defect, byId: map<string, Waiver>, f: Finding) {
    && d.id == f.id && d.waiver.Some?
    && match f
       case RegisteredTwice(_) => false
       case UnknownWaiver(_) => d.waiver.value !in byId
       case Sev1Waived(_) => d.waiver.value in byId && d.severity == Sev1
       case WrongWaiver(_) => d.waiver.value in byId && d.severity == Sev2 && byId[d.waiver.value].requirement != "ZTAX-QA-REQ-0100"
  }

  lemma WaiverFindingIs(d: Defect, byId: map<string, Waiver>, f: Finding)
    ensures WaiverFinding(d, byId) == Some(f) <==> BadReference(d, byId, f)
  {
  }

  ghost predicate Due(defects: seq<Defect>, byId: map<string, Waiver>, f: Finding) {
    if f.RegisteredTwice? then Repeated(defects, f.id)
    else exists d | d in defects :: BadReference(d, byId, f)
  }

  lemma DueAppend(defects: seq<Defect>, d: Defect, byId: map<string, Waiver>, f: Finding)
    ensures Due(defects + [d], byId, f) <==>
      || Due(defects, byId, f) || WaiverFinding(d, byId) == Some(f)
      || (f == RegisteredTwice(d.id) && exists e | e in defects :: e.id == d.id)
  {
    WaiverFindingIs(d, byId, f);
    hide BadReference, WaiverFinding;
    NoReferenceTwice(d, byId, f);
    var all := defects + [d];
    if f.RegisteredTwice? {
      if Repeated(defects, f.id) {
        var i, j :| 0 <= i < j < |defects| && defects[i].id == defects[j].id == f.id;
        assert all[i].id == all[j].id == f.id;
      }
      if f.id == d.id && exists e | e in defects :: e.id == d.id {
        var i :| 0 <= i < |defects| && defects[i].id == d.id;
        assert all[i].id == all[|defects|].id == f.id;
      }
    }
  }

  lemma NoReferenceTwice(d: Defect, byId: map<string, Waiver>, f: Finding)
    ensures f.RegisteredTwice? ==> !BadReference(d, byId, f)
  {
  }

  /** `check_entries`: exactly the repeated ids and the bad waiver references are reported. */
  method CheckEntries(defects: seq<Defect>, byId: map<string, Waiver>) returns (findings: seq<Finding>)
    ensures forall f :: f in findings <==> Due(defects, byId, f)
  {
    hide WaiverFinding, Due;
    findings := [];
    var seen: set<string> := {};
    NothingDue(byId);
    for i := 0 to |defects|
      invariant forall id :: id in seen <==> exists e | e in defects[..i] :: e.id == id
      invariant forall f :: f in findings <==> Due(defects[..i], byId, f)
    {
      var d := defects[i];
      assert defects[..i + 1] == defects[..i] + [d];
      forall f {
        DueAppend(defects[..i], d, byId, f);
      }
      if d.id in seen {
        findings := findings + [RegisteredTwice(d.id)];
      }
      seen := seen + {d.id};
      var f := WaiverFinding(d, byId);
      if f.Some? {
        findings := findings + [f.value];
      }
    }
    assert defects[..|defects|] == defects;
  }

  /** Every id registered once, every waiver reference good. */
  ghost predicate Clean(defects: seq<Defect>, byId: map<string, Waiver>) {
    && (forall i, j | 0 <= i < j < |defects| :: defects[i].id != defects[j].id)
    && (forall d | d in defects && d.waiver.Some? ::
          d.severity == Sev2 && d.waiver.value in byId && byId[d.waiver.value].requirement == "ZTAX-QA-REQ-0100")
  }

  lemma CleanIffNothingDue(defects: seq<Defect>, byId: map<string, Waiver>)
    ensures Clean(defects, byId) <==> forall f :: !Due(defects, byId, f)
  {
    if forall f :: !Due(defects, byId, f) {
      forall d | d in defects && d.waiver.Some?
        ensures d.severity == Sev2 && d.waiver.value in byId && byId[d.waiver.value].requirement == "ZTAX-QA-REQ-0100"
      {
        assert !Due(defects, byId, UnknownWaiver(d.id)) && !Due(defects, byId, Sev1Waived(d.id)) && !Due(defects, byId, WrongWaiver(d.id));
      }
      forall i, j | 0 <= i < j < |defects| ensures defects[i].id != defects[j].id {
        assert !Due(defects, byId, RegisteredTwice(defects[i].id));
      }
    }
  }

  lemma NothingDue(byId: map<string, Waiver>)
    ensures forall f :: !Due([], byId, f)
  {
  }

  /** In a register that passes the gate, an open QA-SEV-2 with a waiver blocks exactly once that
      waiver has expired: nothing else can take its cover away. */
  lemma CleanRegisterBlocksByExpiryOnly(defects: seq<Defect>, waivers: seq<Waiver>, now: int, d: Defect)
    requires d in defects && d.open && d.severity == Sev2 && d.waiver.Some? && d.waiver.value != ""
    requires Clean(defects, ById(waivers))
    ensures d.waiver.value in ById(waivers)
    ensures d in Blocking(defects, ById(waivers), now) <==> ById(waivers)[d.waiver.value].expires < now
  {
    BlockingMembers(defects, ById(waivers), now);
  }
}
