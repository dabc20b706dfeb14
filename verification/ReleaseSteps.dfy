/** The content release directory and the steps of `ztax-contentc` over it. */
module ReleaseSteps {
  import opened Options
  import opened Governance
  import Orders

  /** A manifest file: the canonical bytes of the bundle it decodes to. */
  datatype Manifest = Manifest(bundleId: string, body: string)

  /** The digest of manifest bytes, taken to be injective. */
  datatype Digest = Digest(of: Manifest)

  datatype Statement = Statement(bundleId: string, digest: Digest, role: string, principal: string, at: nat)

  /** Opaque signature bytes beside the key that made them; two signatures over the same bytes differ. */
  datatype Signature = Signature(keyId: string, bytes: int)

  datatype Approval = Approval(payload: Statement, signature: Signature)

  datatype Seal = Seal(bundleId: string, digest: Digest, contentVersion: string, cell: string,
                       issuedAt: nat, approvals: seq<Approval>, signature: Signature)

  /** What is on disk, by bundle id: `<id>.manifest.json`, `<id>.approvals.json`, `<id>.seal.json`. */
  datatype Dir = Dir(manifests: map<string, Manifest>, approvals: map<string, seq<Approval>>, seals: map<string, Seal>)

  const EMPTY := Dir(map[], map[], map[])

  /** One run of a subcommand. `signer` is what the key service answered: nothing when it refused. */
  datatype Step =
    | Compile(manifest: Manifest)
    | Approve(bundle: string, role: string, principal: string, at: nat, signer: Option<Signature>)
    | Sign(bundle: string, contentVersion: string, cell: string, issuedAt: nat, env: string, signer: Option<Signature>)

  // ---- approvals ---------------------------------------------------------------

  /** What `EncodeApprovalStatement` accepts, and so what a stored payload decodes to. */
  predicate ValidStatement(s: Statement) {
    s.bundleId != "" && ValidRole(s.role) && ValidPrincipal(s.principal) && s.at != 0
  }

  predicate Covers(a: Approval, m: Manifest) {
    ValidStatement(a.payload) && a.payload.bundleId == m.bundleId && a.payload.digest == Digest(m)
  }

  function ClaimOf(a: Approval): Claim {
    Claim(a.payload.role, a.payload.principal, a.signature.keyId, a.payload.at)
  }

  function Claims(approvals: seq<Approval>): (claims: seq<Claim>)
    ensures |claims| == |approvals| && forall i | 0 <= i < |claims| :: claims[i] == ClaimOf(approvals[i])
  {
    seq(|approvals|, i requires 0 <= i < |approvals| => ClaimOf(approvals[i]))
  }

  predicate SameSigner(a: Approval, b: Approval) {
    a.payload.principal == b.payload.principal && a.payload.role == b.payload.role
  }

  /** An existing approval survives a new one over the same manifest by somebody else. */
  predicate Survives(e: Approval, a: Approval) {
    e.payload.digest == a.payload.digest && !SameSigner(e, a)
  }

  function Filter<T>(keep: T -> bool, s: seq<T>): seq<T> {
    if s == [] then []
    else if keep(s[0]) then [s[0]] + Filter(keep, s[1..])
    else Filter(keep, s[1..])
  }

  /** Approvals are filed in the order of their canonical payloads. */
  function ByPayload(text: Statement -> string): (Approval, Approval) -> bool {
    (a: Approval, b: Approval) => Orders.Leq(text(a.payload), text(b.payload))
  }

  function Filed(text: Statement -> string, existing: seq<Approval>, a: Approval): seq<Approval> {
    Orders.SortBy(ByPayload(text), [a] + Filter((e: Approval) => Survives(e, a), existing))
  }

  function ApprovalsOf(dir: Dir, bundle: string): seq<Approval> {
    if bundle in dir.approvals then dir.approvals[bundle] else []
  }

  function MakeApproval(m: Manifest, step: Step): Approval
    requires step.Approve? && step.signer.Some?
  {
    Approval(Statement(m.bundleId, Digest(m), step.role, step.principal, step.at), step.signer.value)
  }

  function MakeSeal(m: Manifest, approvals: seq<Approval>, step: Step): Seal
    requires step.Sign? && step.signer.Some?
  {
    Seal(m.bundleId, Digest(m), step.contentVersion, step.cell, step.issuedAt, approvals, step.signer.value)
  }

  // ---- the steps as a transition function ----------------------------------------

  /** `compileSource`, once both gates passed: write the manifest, drop approvals of other bytes. */
  function AfterCompile(dir: Dir, m: Manifest): Option<Dir> {
    if m.bundleId == "" then None
    else
      var kept := ApprovalsOf(dir, m.bundleId);
      var stale := exists e | e in kept :: !Covers(e, m);
      Some(dir.(manifests := dir.manifests[m.bundleId := m],
                approvals := if stale then dir.approvals - {m.bundleId} else dir.approvals))
  }

  function AfterApprove(text: Statement -> string, dir: Dir, step: Step): Option<Dir>
    requires step.Approve?
  {
    if step.bundle !in dir.manifests || step.signer.None? then None
    else
      var a := MakeApproval(dir.manifests[step.bundle], step);
      var existing := ApprovalsOf(dir, step.bundle);
      if !ValidStatement(a.payload) || exists e | e in existing :: !ValidStatement(e.payload) then None
      else Some(dir.(approvals := dir.approvals[step.bundle := Filed(text, existing, a)]))
  }

  /** When `signManifest` goes ahead. */
  ghost predicate MaySeal(m: Manifest, approvals: seq<Approval>, step: Step)
    requires step.Sign?
  {
    && step.signer.Some? && step.contentVersion != "" && step.issuedAt != 0
    && (forall e | e in approvals :: Covers(e, m) && e.payload.at <= step.issuedAt)
    && (FourEyes(Claims(approvals), step.signer.value.keyId) || (step.env == "development" && approvals == []))
  }

  ghost function AfterSign(dir: Dir, step: Step): Option<Dir>
    requires step.Sign?
  {
    if step.bundle !in dir.manifests then None
    else
      var m := dir.manifests[step.bundle];
      var approvals := ApprovalsOf(dir, step.bundle);
      if !MaySeal(m, approvals, step) then None
      else Some(dir.(seals := dir.seals[step.bundle := MakeSeal(m, approvals, step)]))
  }

  ghost function Next(text: Statement -> string, dir: Dir, step: Step): Option<Dir> {
    match step
    case Compile(m) => AfterCompile(dir, m)
    case Approve(_, _, _, _, _) => AfterApprove(text, dir, step)
    case Sign(_, _, _, _, _, _) => AfterSign(dir, step)
  }

  /** A refused step leaves the directory as it was. */
  ghost function Settle(text: Statement -> string, dir: Dir, step: Step): Dir {
    match Next(text, dir, step) case None => dir case Some(d) => d
  }

  // ---- the steps as the tool takes them --------------------------------------------

  class Workspace {
    const text: Statement -> string
    var manifests: map<string, Manifest>
    var approvals: map<string, seq<Approval>>
    var seals: map<string, Seal>

    constructor (text: Statement -> string)
      ensures this.text == text && View() == EMPTY
    {
      this.text := text;
      manifests, approvals, seals := map[], map[], map[];
    }

    ghost function View(): Dir
      reads this
    {
      Dir(manifests, approvals, seals)
    }

    /** `ApprovalsFor`: the claims, if every approval decodes and covers the manifest. */
    method ApprovalsFor(existing: seq<Approval>, m: Manifest) returns (claims: Option<seq<Claim>>)
      ensures claims == if forall e | e in existing :: Covers(e, m) then Some(Claims(existing)) else None
    {
      var out: seq<Claim> := [];
      for i := 0 to |existing|
        invariant forall e | e in existing[..i] :: Covers(e, m)
        invariant out == Claims(existing[..i])
      {
        var e := existing[i];
        if !ValidStatement(e.payload) || e.payload.bundleId != m.bundleId || e.payload.digest != Digest(m) {
          assert e in existing && !Covers(e, m);
          return None;
        }
        out := out + [ClaimOf(e)];
        assert existing[..i + 1] == existing[..i] + [e];
      }
      assert existing[..|existing|] == existing;
      return Some(out);
    }

    method Compile(m: Manifest) returns (ok: bool)
      modifies this
      ensures View() == Settle(text, old(View()), Step.Compile(m))
      ensures ok <==> Next(text, old(View()), Step.Compile(m)).Some?
    {
      if m.bundleId == "" {
        return false;
      }
      manifests := manifests[m.bundleId := m];
      DiscardStaleApprovals(m);
      return true;
    }

    method DiscardStaleApprovals(m: Manifest)
      modifies this`approvals
      ensures approvals == if exists e | e in ApprovalsOf(old(View()), m.bundleId) :: !Covers(e, m)
                           then old(approvals) - {m.bundleId} else old(approvals)
    {
      if m.bundleId !in approvals || approvals[m.bundleId] == [] {
        return;
      }
      var claims := ApprovalsFor(approvals[m.bundleId], m);
      if claims.Some? {
        return;
      }
      approvals := approvals - {m.bundleId};
    }

    /** The loop of `approve` over the approvals already there. */
    method Keep(existing: seq<Approval>, a: Approval) returns (kept: Option<seq<Approval>>)
      ensures kept == if exists e | e in existing :: !ValidStatement(e.payload) then None
                      else Some([a] + Filter((e: Approval) => Survives(e, a), existing))
    {
      var out := [a];
      ghost var keep := (e: Approval) => Survives(e, a);
      for i := 0 to |existing|
        invariant forall e | e in existing[..i] :: ValidStatement(e.payload)
        invariant out == [a] + Filter(keep, existing[..i])
      {
        var e := existing[i];
        assert existing[..i + 1] == existing[..i] + [e];
        FilterAppend(keep, existing[..i], e);
        if !ValidStatement(e.payload) {
          return None;
        }
        if e.payload.digest == a.payload.digest && !SameSigner(e, a) {
          out := out + [e];
        }
      }
      assert existing[..|existing|] == existing;
      return Some(out);
    }

    method Approve(step: Step) returns (ok: bool)
      requires step.Approve?
      modifies this
      ensures View() == Settle(text, old(View()), step)
      ensures ok <==> Next(text, old(View()), step).Some?
    {
      if step.bundle !in manifests || step.signer.None? {
        return false;
      }
      var a := MakeApproval(manifests[step.bundle], step);
      if !ValidStatement(a.payload) {
        return false;
      }
      var existing := if step.bundle in approvals then approvals[step.bundle] else [];
      var kept := Keep(existing, a);
      if kept.None? {
        return false;
      }
      approvals := approvals[step.bundle := Orders.SortBy(ByPayload(text), kept.value)];
      return true;
    }

    method Sign(step: Step) returns (ok: bool)
      requires step.Sign?
      modifies this
      ensures View() == Settle(text, old(View()), step)
      ensures ok <==> Next(text, old(View()), step).Some?
    {
      if step.contentVersion == "" || step.issuedAt == 0 || step.bundle !in manifests || step.signer.None? {
        return false;
      }
      var m := manifests[step.bundle];
      var existing := if step.bundle in approvals then approvals[step.bundle] else [];
      var claims := ApprovalsFor(existing, m);
      if claims.None? {
        return false;
      }
      if exists c | c in claims.value :: c.at > step.issuedAt {
        ClaimTimes(existing, step.issuedAt);
        return false;
      }
      ClaimTimes(existing, step.issuedAt);
      var fourEyes := CheckFourEyes(claims.value, step.signer.value.keyId);
      if !fourEyes && (step.env != "development" || |claims.value| > 0) {
        return false;
      }
      seals := seals[step.bundle := MakeSeal(m, existing, step)];
      return true;
    }
  }

  lemma {:induction false} FilterAppend<T>(keep: T -> bool, s: seq<T>, x: T)
    ensures Filter(keep, s + [x]) == Filter(keep, s) + (if keep(x) then [x] else [])
  {
    if s == [] {
      assert s + [x] == [x] && [x][1..] == [];
    } else {
      FilterAppend(keep, s[1..], x);
      assert (s + [x])[1..] == s[1..] + [x];
    }
  }

  lemma ClaimTimes(approvals: seq<Approval>, issuedAt: nat)
    ensures (exists c | c in Claims(approvals) :: c.at > issuedAt) <==>
            exists e | e in approvals :: e.payload.at > issuedAt
  {
    if e :| e in approvals && e.payload.at > issuedAt {
      var i :| 0 <= i < |approvals| && approvals[i] == e;
      assert Claims(approvals)[i].at > issuedAt;
    }
    if c :| c in Claims(approvals) && c.at > issuedAt {
      var i :| 0 <= i < |approvals| && Claims(approvals)[i] == c;
      assert approvals[i].payload.at > issuedAt;
    }
  }
}
