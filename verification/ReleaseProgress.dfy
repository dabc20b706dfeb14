/** What is in the release directory after any run, read off the steps of the run. */
module ReleaseProgress {
  import opened Options
  import opened Governance
  import opened ReleaseSteps
  import opened ReleaseRuns
  import Orders

  lemma OneMoreStep(text: Statement -> string, run: seq<Step>, step: Step)
    ensures After(text, run + [step]) == Settle(text, After(text, run), step)
  {
    var all := run + [step];
    assert all[..|all| - 1] == run && all[|all| - 1] == step;
  }

  lemma LastStep(text: Statement -> string, run: seq<Step>)
    requires run != []
    ensures After(text, run) == Settle(text, After(text, run[..|run| - 1]), run[|run| - 1])
  {
  }

  lemma NothingAtFirst(text: Statement -> string)
    ensures After(text, []) == EMPTY
  {
  }

  // ---- manifests -----------------------------------------------------------------------

  ghost predicate CompilesAt(run: seq<Step>, i: nat, b: string)
    requires i < |run|
  {
    run[i].Compile? && run[i].manifest.bundleId == b
  }

  ghost predicate LastCompile(run: seq<Step>, i: nat, b: string) {
    i < |run| && CompilesAt(run, i, b) && forall j | i < j < |run| :: !CompilesAt(run, j, b)
  }

  /** What one step does to the manifest of `b`. */
  lemma ManifestAfter(text: Statement -> string, dir: Dir, step: Step, b: string)
    requires b != ""
    ensures
      var after := Settle(text, dir, step);
      if step.Compile? && step.manifest.bundleId == b then b in after.manifests && after.manifests[b] == step.manifest
      else (b in after.manifests <==> b in dir.manifests) && (b in dir.manifests ==> after.manifests[b] == dir.manifests[b])
  {
  }

  ghost predicate EverCompiled(run: seq<Step>, b: string) {
    exists i | 0 <= i < |run| :: CompilesAt(run, i, b)
  }

  lemma OneMoreCompile(run: seq<Step>, b: string)
    requires run != []
    ensures EverCompiled(run, b) <==> EverCompiled(run[..|run| - 1], b) || CompilesAt(run, |run| - 1, b)
  {
    var prev := run[..|run| - 1];
    assert forall i | 0 <= i < |prev| :: CompilesAt(prev, i, b) <==> CompilesAt(run, i, b);
    if EverCompiled(prev, b) {
      var i :| 0 <= i < |prev| && CompilesAt(prev, i, b);
      assert CompilesAt(run, i, b);
    }
  }

  /** A bundle has a manifest on file exactly when some compile of the run was under its id. */
  lemma {:induction false} ManifestIffCompiled(text: Statement -> string, run: seq<Step>, b: string)
    requires b != ""
    ensures b in After(text, run).manifests <==> EverCompiled(run, b)
  {
    hide Settle, After, EverCompiled;
    if run == [] {
      NothingAtFirst(text);
      assert !EverCompiled([], b) by { NothingCompiled(b); }
    } else {
      var prev := run[..|run| - 1];
      LastStep(text, run);
      OneMoreCompile(run, b);
      ManifestIffCompiled(text, prev, b);
      ManifestAfter(text, After(text, prev), run[|run| - 1], b);
    }
  }

  lemma NothingCompiled(b: string)
    ensures !EverCompiled([], b)
  {
  }

  /** And it is the manifest of the last such compile. */
  lemma {:induction false} ManifestIsLastCompiled(text: Statement -> string, run: seq<Step>, i: nat, b: string)
    requires b != "" && LastCompile(run, i, b)
    ensures b in After(text, run).manifests && After(text, run).manifests[b] == run[i].manifest
  {
    hide Settle, After;
    var n := |run| - 1;
    var prev := run[..n];
    LastStep(text, run);
    ManifestAfter(text, After(text, prev), run[n], b);
    if i == n {
    } else {
      assert LastCompile(prev, i, b) by {
        assert forall j | i < j < n :: CompilesAt(prev, j, b) <==> CompilesAt(run, j, b);
      }
      ManifestIsLastCompiled(text, prev, i, b);
      assert !CompilesAt(run, n, b);
    }
  }

  lemma {:induction false} NoNamelessManifest(text: Statement -> string, run: seq<Step>)
    ensures "" !in After(text, run).manifests
  {
    if run == [] {
    } else {
      NoNamelessManifest(text, run[..|run| - 1]);
    }
  }

  /** Everything but what belongs to bundle `b` is as it was. */
  ghost predicate OthersStay(before: Dir, after: Dir, b: string) {
    forall c | c != b ::
      && (c in before.manifests <==> c in after.manifests) && (c in before.manifests ==> before.manifests[c] == after.manifests[c])
      && (c in before.approvals <==> c in after.approvals) && (c in before.approvals ==> before.approvals[c] == after.approvals[c])
      && (c in before.seals <==> c in after.seals) && (c in before.seals ==> before.seals[c] == after.seals[c])
  }

  /** A compile of a named bundle always goes ahead. Afterwards its manifest is on file, the approvals beside
      it are those from before if the manifest has not changed, and none otherwise; seals and other bundles
      are as they were. */
  lemma CompileGoesAhead(text: Statement -> string, run: seq<Step>, m: Manifest)
    requires m.bundleId != ""
    ensures
      var before, after := After(text, run), After(text, run + [Compile(m)]);
      var b := m.bundleId;
      && Next(text, before, Compile(m)).Some?
      && b in after.manifests && after.manifests[b] == m
      && (b in after.approvals <==> b in before.approvals && b in before.manifests && before.manifests[b] == m)
      && (b in after.approvals ==> after.approvals[b] == before.approvals[b])
      && after.seals == before.seals && OthersStay(before, after, b)
  {
    OneMoreStep(text, run, Compile(m));
    AlwaysConsistent(text, run);
    var before := After(text, run);
    if m.bundleId in before.approvals {
      var e := before.approvals[m.bundleId][0];
      assert e in before.approvals[m.bundleId] && Covers(e, before.manifests[m.bundleId]);
      assert Digest(m) == Digest(before.manifests[m.bundleId]) ==> m == before.manifests[m.bundleId];
    }
  }

  lemma NamelessChangesNothing(text: Statement -> string, run: seq<Step>, m: Manifest)
    requires m.bundleId == ""
    ensures After(text, run + [Compile(m)]) == After(text, run)
  {
    OneMoreStep(text, run, Compile(m));
  }

  // ---- approve and sign -----------------------------------------------------------------

  /** An approve step goes ahead exactly when there is a manifest, the key service signs, and a person
      approves in one of the four roles at an instant. Then the approvals file holds the new approval and
      every other but the one by this person in this role, and nothing else changes. */
  lemma ApproveGoesAheadIff(text: Statement -> string, run: seq<Step>, step: Step)
    requires step.Approve?
    ensures
      var before, after := After(text, run), After(text, run + [step]);
      && (Next(text, before, step).Some? <==>
            && step.bundle in before.manifests && step.signer.Some? && step.at != 0 && Person(step.principal)
            && (step.role == "AUTHOR" || step.role == "REVIEWER" || step.role == "APPROVER" || step.role == "SENIOR_APPROVER"))
      && (Next(text, before, step).None? ==> after == before)
      && (Next(text, before, step).Some? ==>
            var b := step.bundle;
            var a := Approval(Statement(b, Digest(before.manifests[b]), step.role, step.principal, step.at), step.signer.value);
            && b in after.approvals
            && (forall e :: e in after.approvals[b] <==>
                  e == a || (b in before.approvals && e in before.approvals[b]
                             && (e.payload.principal != step.principal || e.payload.role != step.role)))
            && after.manifests == before.manifests && after.seals == before.seals && OthersStay(before, after, b))
  {
    hide Filed, Person, OnePerSigner, Survives, Next, After;
    OneMoreStep(text, run, step);
    NoNamelessManifest(text, run);
    AlwaysConsistent(text, run);
    ApproveStep(text, After(text, run), step);
  }

  lemma ApproveStep(text: Statement -> string, dir: Dir, step: Step)
    requires Consistent(dir) && "" !in dir.manifests && step.Approve?
    ensures Next(text, dir, step).Some? <==>
      && step.bundle in dir.manifests && step.signer.Some? && step.at != 0 && Person(step.principal)
      && (step.role == "AUTHOR" || step.role == "REVIEWER" || step.role == "APPROVER" || step.role == "SENIOR_APPROVER")
    ensures Next(text, dir, step).None? ==> Settle(text, dir, step) == dir
    ensures Next(text, dir, step).Some? ==>
      var b, after := step.bundle, Settle(text, dir, step);
      var a := Approval(Statement(b, Digest(dir.manifests[b]), step.role, step.principal, step.at), step.signer.value);
      && b in after.approvals
      && (forall e :: e in after.approvals[b] <==>
            e == a || (b in dir.approvals && e in dir.approvals[b]
                       && (e.payload.principal != step.principal || e.payload.role != step.role)))
      && after.manifests == dir.manifests && after.seals == dir.seals && OthersStay(dir, after, b)
  {
    hide Filed, Person, ValidPrincipal, OnePerSigner;
    PersonIff(step.principal);
    if step.bundle in dir.manifests && step.signer.Some? {
      var existing := ApprovalsOf(dir, step.bundle);
      assert forall e | e in existing :: Covers(e, dir.manifests[step.bundle]);
      OneEach(dir, step.bundle);
      FiledContents(text, existing, MakeApproval(dir.manifests[step.bundle], step));
    }
  }

  lemma OneEach(dir: Dir, b: string)
    requires Consistent(dir)
    ensures OnePerSigner(ApprovalsOf(dir, b))
  {
  }

  /** A sign step goes ahead exactly when there is a manifest, the key service signs, the seal has a version
      and an instant no approval is later than, and the approvals make four eyes, or there are none in
      development. Then it leaves a seal over exactly the manifest and the approvals on file, and nothing
      else changes. */
  lemma SignGoesAheadIff(text: Statement -> string, run: seq<Step>, step: Step)
    requires step.Sign?
    ensures
      var before, after := After(text, run), After(text, run + [step]);
      var b := step.bundle;
      var approvals := if b in before.approvals then before.approvals[b] else [];
      && (Next(text, before, step).Some? <==>
            && b in before.manifests && step.signer.Some? && step.contentVersion != "" && step.issuedAt != 0
            && (forall e | e in approvals :: e.payload.at <= step.issuedAt)
            && (FourEyes(Claims(approvals), step.signer.value.keyId) || (step.env == "development" && approvals == [])))
      && (Next(text, before, step).None? ==> after == before)
      && (Next(text, before, step).Some? ==>
            && b in after.seals
            && after.seals[b] == Seal(b, Digest(before.manifests[b]), step.contentVersion, step.cell, step.issuedAt, approvals,
                                      step.signer.value)
            && after.manifests == before.manifests && after.approvals == before.approvals && OthersStay(before, after, b))
  {
    hide FourEyes, OnePerSigner;
    OneMoreStep(text, run, step);
    AlwaysConsistent(text, run);
  }

  // ---- steps from any directory ----------------------------------------------------------------

  /** What a stored approval must say to decode. */
  ghost predicate Decodes(e: Approval) {
    && e.payload.bundleId != "" && e.payload.at != 0 && Person(e.payload.principal)
    && (e.payload.role == "AUTHOR" || e.payload.role == "REVIEWER" || e.payload.role == "APPROVER" || e.payload.role == "SENIOR_APPROVER")
  }

  /** The approval decodes, and is of exactly this manifest. */
  ghost predicate IsOf(e: Approval, m: Manifest) {
    Decodes(e) && e.payload.bundleId == m.bundleId && e.payload.digest.of == m
  }

  lemma DecodesIff(e: Approval)
    ensures ValidStatement(e.payload) <==> Decodes(e)
  {
    hide ValidPrincipal, Person;
    PersonIff(e.payload.principal);
  }

  lemma IsOfIff(e: Approval, m: Manifest)
    ensures Covers(e, m) <==> IsOf(e, m)
  {
    hide ValidStatement, Decodes;
    DecodesIff(e);
  }

  /** Whatever else has written to the directory, a compile keeps a bundle's approvals exactly if each of them
      decodes and is of the new manifest. */
  lemma CompileAnywhere(text: Statement -> string, dir: Dir, m: Manifest)
    requires m.bundleId != ""
    ensures
      var b, after := m.bundleId, Settle(text, dir, Compile(m));
      && Next(text, dir, Compile(m)).Some?
      && b in after.manifests && after.manifests[b] == m
      && (b in after.approvals <==> b in dir.approvals && forall e | e in dir.approvals[b] :: IsOf(e, m))
      && (b in after.approvals ==> after.approvals[b] == dir.approvals[b])
      && after.seals == dir.seals && OthersStay(dir, after, b)
  {
    hide IsOf, Covers;
    forall e: Approval ensures Covers(e, m) <==> IsOf(e, m) {
      IsOfIff(e, m);
    }
  }

  /** And an approve step goes ahead exactly when, besides, every stored approval decodes. It then keeps exactly
      the stored approvals of the manifest's bytes by anyone else or in another role. */
  lemma ApproveAnywhere(text: Statement -> string, dir: Dir, step: Step)
    requires step.Approve?
    ensures
      var b, after := step.bundle, Settle(text, dir, step);
      && (Next(text, dir, step).Some? <==>
            && b in dir.manifests && dir.manifests[b].bundleId != "" && step.signer.Some? && step.at != 0 && Person(step.principal)
            && (step.role == "AUTHOR" || step.role == "REVIEWER" || step.role == "APPROVER" || step.role == "SENIOR_APPROVER")
            && (b in dir.approvals ==> forall e | e in dir.approvals[b] :: Decodes(e)))
      && (Next(text, dir, step).None? ==> after == dir)
      && (Next(text, dir, step).Some? ==>
            && b in after.approvals && InOrder(text, after.approvals[b])
            && (forall e :: e in after.approvals[b] <==> NowOnFile(dir, step, e))
            && after.manifests == dir.manifests && after.seals == dir.seals && OthersStay(dir, after, b))
  {
    hide Decodes, Person, ValidPrincipal, ValidStatement, Filed, ByPayload, InOrder;
    forall e: Approval ensures ValidStatement(e.payload) <==> Decodes(e) {
      DecodesIff(e);
    }
    if step.bundle in dir.manifests && step.signer.Some? {
      var existing, a := ApprovalsOf(dir, step.bundle), MakeApproval(dir.manifests[step.bundle], step);
      DecodesIs(a);
      FiledIs(text, existing, a);
    }
  }

  lemma DecodesIs(a: Approval)
    ensures Decodes(a) <==>
      && a.payload.bundleId != "" && a.payload.at != 0 && Person(a.payload.principal)
      && (a.payload.role == "AUTHOR" || a.payload.role == "REVIEWER" || a.payload.role == "APPROVER" || a.payload.role == "SENIOR_APPROVER")
  {
  }

  /** The approval just made, or one that was on file of the same bytes by somebody else or in another role. */
  ghost predicate NowOnFile(dir: Dir, step: Step, e: Approval)
    requires step.Approve? && step.signer.Some? && step.bundle in dir.manifests
  {
    var m := dir.manifests[step.bundle];
    || e == Approval(Statement(m.bundleId, Digest(m), step.role, step.principal, step.at), step.signer.value)
    || (step.bundle in dir.approvals && e in dir.approvals[step.bundle] && e.payload.digest.of == m
        && (e.payload.principal != step.principal || e.payload.role != step.role))
  }

  lemma FiledIs(text: Statement -> string, existing: seq<Approval>, a: Approval)
    ensures forall e :: e in Filed(text, existing, a) <==>
              e == a || (e in existing && e.payload.digest.of == a.payload.digest.of
                         && (e.payload.principal != a.payload.principal || e.payload.role != a.payload.role))
    ensures InOrder(text, Filed(text, existing, a))
  {
    var keep := (e: Approval) => Survives(e, a);
    var file := Filed(text, existing, a);
    FilterKeeps(keep, existing);
    Orders.SortByMultiset(ByPayload(text), [a] + Filter(keep, existing));
    Orders.SameElements([a] + Filter(keep, existing), file);
    FiledSorted(text, existing, a);
    forall i, j | 0 <= i < j < |file| ensures Orders.Leq(text(file[i].payload), text(file[j].payload)) {
      assert ByPayload(text)(file[i], file[j]);
    }
  }

  /** And a sign step goes ahead exactly when, besides, every stored approval decodes and is of the manifest. */
  lemma SignAnywhere(text: Statement -> string, dir: Dir, step: Step)
    requires step.Sign?
    ensures
      var b, after := step.bundle, Settle(text, dir, step);
      var file := if b in dir.approvals then dir.approvals[b] else [];
      && (Next(text, dir, step).Some? <==>
            && b in dir.manifests && step.signer.Some? && step.contentVersion != "" && step.issuedAt != 0
            && (forall e | e in file :: IsOf(e, dir.manifests[b]) && e.payload.at <= step.issuedAt)
            && (FourEyes(Claims(file), step.signer.value.keyId) || (step.env == "development" && file == [])))
      && (Next(text, dir, step).None? ==> after == dir)
      && (Next(text, dir, step).Some? ==>
            && b in after.seals
            && after.seals[b] == Seal(dir.manifests[b].bundleId, Digest(dir.manifests[b]), step.contentVersion, step.cell,
                                      step.issuedAt, file, step.signer.value)
            && after.manifests == dir.manifests && after.approvals == dir.approvals && OthersStay(dir, after, b))
  {
    hide IsOf, Covers, FourEyes;
    forall e: Approval, m: Manifest ensures Covers(e, m) <==> IsOf(e, m) {
      IsOfIff(e, m);
    }
  }

  // ---- the approvals file, approval by approval -----------------------------------------------

  ghost predicate WentAhead(text: Statement -> string, run: seq<Step>, j: nat)
    requires j < |run|
  {
    Next(text, After(text, run[..j]), run[j]).Some?
  }

  /** Step `j` replaces `a`: it approves the bundle as the same person in the same role. */
  ghost predicate Replaces(text: Statement -> string, run: seq<Step>, j: nat, b: string, a: Approval)
    requires j < |run|
  {
    && run[j].Approve? && run[j].bundle == b && WentAhead(text, run, j)
    && run[j].principal == a.payload.principal && run[j].role == a.payload.role
  }

  /** Step `j` compiles the bundle to something else than `a` approves. */
  ghost predicate Outdates(run: seq<Step>, j: nat, b: string, a: Approval)
    requires j < |run|
  {
    CompilesAt(run, j, b) && run[j].manifest != a.payload.digest.of
  }

  /** Step `i` made the approval `a`, and no later step replaced or outdated it. */
  ghost predicate Stands(text: Statement -> string, run: seq<Step>, i: nat, b: string, a: Approval) {
    && i < |run| && ApprovedAt(text, run, i, b, a.payload.digest.of, a)
    && forall j | i < j < |run| :: !Replaces(text, run, j, b, a) && !Outdates(run, j, b, a)
  }

  lemma PrefixSteps(text: Statement -> string, run: seq<Step>, j: nat, b: string, a: Approval)
    requires j < |run| - 1
    ensures Replaces(text, run[..|run| - 1], j, b, a) <==> Replaces(text, run, j, b, a)
    ensures Outdates(run[..|run| - 1], j, b, a) <==> Outdates(run, j, b, a)
  {
    assert run[..|run| - 1][..j] == run[..j];
  }

  ghost predicate HasStanding(text: Statement -> string, run: seq<Step>, b: string, a: Approval) {
    exists i: nat :: Stands(text, run, i, b, a)
  }

  ghost predicate OnFile(dir: Dir, b: string, a: Approval) { b in dir.approvals && a in dir.approvals[b] }

  /** Up to the last step, standing is the same in the run and in the run before it. */
  lemma StandsBefore(text: Statement -> string, run: seq<Step>, i: nat, b: string, a: Approval)
    requires i < |run| - 1
    ensures Stands(text, run, i, b, a) <==>
      && Stands(text, run[..|run| - 1], i, b, a)
      && !Replaces(text, run, |run| - 1, b, a) && !Outdates(run, |run| - 1, b, a)
  {
    hide Replaces, Outdates, After, Next;
    var n := |run| - 1;
    var prev := run[..n];
    assert prev[..i] == run[..i];
    forall j | 0 <= j < n
      ensures (Replaces(text, prev, j, b, a) <==> Replaces(text, run, j, b, a)) && (Outdates(prev, j, b, a) <==> Outdates(run, j, b, a))
    {
      PrefixSteps(text, run, j, b, a);
    }
  }

  /** What one step does to an approval on file. */
  lemma ApprovalAfter(text: Statement -> string, run: seq<Step>, step: Step, b: string, a: Approval)
    requires OnFile(After(text, run), b, a)
    ensures b in After(text, run).manifests
    ensures OnFile(After(text, run + [step]), b, a) <==>
      && !(step.Compile? && step.manifest.bundleId == b && step.manifest != a.payload.digest.of)
      && (step.Approve? && step.bundle == b && Next(text, After(text, run), step).Some?
          && step.principal == a.payload.principal && step.role == a.payload.role
          ==> a == MakeApproval(After(text, run).manifests[b], step))
  {
    hide After, Next, OnePerSigner;
    AlwaysConsistent(text, run);
    NoNamelessManifest(text, run);
    assert Covers(a, After(text, run).manifests[b]);
    match step
    case Compile(m) =>
      if m.bundleId != "" {
        CompileGoesAhead(text, run, m);
      } else {
        NamelessChangesNothing(text, run, m);
      }
    case Approve(_, _, _, _, _) => ApproveGoesAheadIff(text, run, step);
    case Sign(_, _, _, _, _, _) => SignGoesAheadIff(text, run, step);
  }

  /** An approval that is on file after a step, and was not before or was by the same signer, is the step's. */
  lemma JustMade(text: Statement -> string, prev: seq<Step>, step: Step, b: string, a: Approval)
    requires OnFile(After(text, prev + [step]), b, a)
    requires
      || !OnFile(After(text, prev), b, a)
      || (step.Approve? && step.bundle == b && Next(text, After(text, prev), step).Some?
          && step.principal == a.payload.principal && step.role == a.payload.role)
    ensures step.Approve? && step.bundle == b && Next(text, After(text, prev), step).Some?
    ensures b in After(text, prev).manifests && a == MakeApproval(After(text, prev).manifests[b], step)
    ensures a.payload.digest.of == After(text, prev).manifests[b]
  {
    hide After, Next, OnePerSigner;
    AlwaysConsistent(text, prev);
    match step
    case Compile(m) =>
      if m.bundleId != "" {
        CompileGoesAhead(text, prev, m);
      } else {
        NamelessChangesNothing(text, prev, m);
      }
    case Approve(_, _, _, _, _) => ApproveGoesAheadIff(text, prev, step);
    case Sign(_, _, _, _, _, _) => SignGoesAheadIff(text, prev, step);
  }

  /** An approval is on file after a run exactly when some approve step made it and nothing since, no
      re-approval by the same person in the same role and no compile to other bytes, has displaced it. */
  lemma {:induction false} OnFileIffStanding(text: Statement -> string, run: seq<Step>, b: string, a: Approval)
    ensures OnFile(After(text, run), b, a) <==> HasStanding(text, run, b, a)
  {
    if run == [] {
      NothingAtFirst(text);
    } else {
      hide After, Next, OnFile;
      var n := |run| - 1;
      var prev := run[..n];
      assert run == prev + [run[n]];
      OnFileIffStanding(text, prev, b, a);
      if HasStanding(text, run, b, a) {
        var i: nat :| Stands(text, run, i, b, a);
        StandingIsOnFile(text, run, i, b, a);
      }
      if OnFile(After(text, run), b, a) {
        OnFileStands(text, run, b, a);
      }
    }
  }

  lemma StandingIsOnFile(text: Statement -> string, run: seq<Step>, i: nat, b: string, a: Approval)
    requires Stands(text, run, i, b, a)
    requires OnFile(After(text, run[..|run| - 1]), b, a) <==> HasStanding(text, run[..|run| - 1], b, a)
    ensures OnFile(After(text, run), b, a)
  {
    hide After, Next;
    var n := |run| - 1;
    var prev, step := run[..n], run[n];
    assert run == prev + [step] && run[..n] == prev;
    if i == n {
      AlwaysConsistent(text, prev);
      ApproveGoesAheadIff(text, prev, step);
    } else {
      StandsBefore(text, run, i, b, a);
      hide Stands;
      assert Stands(text, prev, i, b, a) && HasStanding(text, prev, b, a);
      ApprovalAfter(text, prev, step, b, a);
    }
  }

  lemma OnFileStands(text: Statement -> string, run: seq<Step>, b: string, a: Approval)
    requires run != [] && OnFile(After(text, run), b, a)
    requires OnFile(After(text, run[..|run| - 1]), b, a) <==> HasStanding(text, run[..|run| - 1], b, a)
    ensures HasStanding(text, run, b, a)
  {
    hide After, Next, OnFile;
    var n := |run| - 1;
    var prev, step := run[..n], run[n];
    assert run == prev + [step] && run[..n] == prev;
    if Replaces(text, run, n, b, a) || !OnFile(After(text, prev), b, a) {
      JustMade(text, prev, step, b, a);
      assert Stands(text, run, n, b, a);
    } else {
      var i: nat :| Stands(text, prev, i, b, a);
      ApprovalAfter(text, prev, step, b, a);
      StandsBefore(text, run, i, b, a);
      assert Stands(text, run, i, b, a);
    }
  }

  // ---- seals ------------------------------------------------------------------------------

  ghost predicate SignsAt(text: Statement -> string, run: seq<Step>, k: nat, b: string)
    requires k < |run|
  {
    run[k].Sign? && run[k].bundle == b && WentAhead(text, run, k)
  }

  ghost predicate LastSign(text: Statement -> string, run: seq<Step>, k: nat, b: string) {
    k < |run| && SignsAt(text, run, k, b) && forall j | k < j < |run| :: !SignsAt(text, run, j, b)
  }

  lemma SealAfter(text: Statement -> string, dir: Dir, step: Step, b: string)
    requires !(step.Sign? && step.bundle == b && Next(text, dir, step).Some?)
    ensures (b in Settle(text, dir, step).seals <==> b in dir.seals) && (b in dir.seals ==> Settle(text, dir, step).seals[b] == dir.seals[b])
  {
  }

  ghost predicate EverSigned(text: Statement -> string, run: seq<Step>, b: string) {
    exists k | 0 <= k < |run| :: SignsAt(text, run, k, b)
  }

  lemma SignsBefore(text: Statement -> string, run: seq<Step>, k: nat, b: string)
    requires k < |run| - 1
    ensures SignsAt(text, run[..|run| - 1], k, b) <==> SignsAt(text, run, k, b)
  {
    assert run[..|run| - 1][..k] == run[..k];
  }

  lemma OneMoreSign(text: Statement -> string, run: seq<Step>, b: string)
    requires run != []
    ensures EverSigned(text, run, b) <==> EverSigned(text, run[..|run| - 1], b) || SignsAt(text, run, |run| - 1, b)
  {
    hide SignsAt;
    var prev := run[..|run| - 1];
    forall k | 0 <= k < |prev| ensures SignsAt(text, prev, k, b) <==> SignsAt(text, run, k, b) {
      SignsBefore(text, run, k, b);
    }
    if EverSigned(text, prev, b) {
      var k :| 0 <= k < |prev| && SignsAt(text, prev, k, b);
      assert SignsAt(text, run, k, b);
    }
  }

  /** A bundle has a seal on file exactly when some sign step of the run went ahead for it. */
  lemma {:induction false} SealIffSigned(text: Statement -> string, run: seq<Step>, b: string)
    ensures b in After(text, run).seals <==> EverSigned(text, run, b)
  {
    hide Settle, Next, After, EverSigned;
    if run == [] {
      NothingAtFirst(text);
      NothingSigned(text, b);
    } else {
      var n := |run| - 1;
      var prev := run[..n];
      assert run == prev + [run[n]];
      LastStep(text, run);
      OneMoreSign(text, run, b);
      SealIffSigned(text, prev, b);
      if SignsAt(text, run, n, b) {
        SignGoesAheadIff(text, prev, run[n]);
      } else {
        SealAfter(text, After(text, prev), run[n], b);
      }
    }
  }

  lemma NothingSigned(text: Statement -> string, b: string)
    ensures !EverSigned(text, [], b)
  {
  }

  /** And it is the seal that the last of them left. */
  lemma {:induction false} SealIsLastSigned(text: Statement -> string, run: seq<Step>, k: nat, b: string)
    requires LastSign(text, run, k, b)
    ensures b in After(text, run).seals && b in After(text, run[..k + 1]).seals
    ensures After(text, run).seals[b] == After(text, run[..k + 1]).seals[b]
  {
    hide Settle, Next, After, SignsAt;
    var n := |run| - 1;
    var prev := run[..n];
    assert run == prev + [run[n]] && run[..n + 1] == run;
    SealIffSigned(text, run, b);
    if k == n {
    } else {
      assert LastSign(text, prev, k, b) by {
        forall j | 0 <= j < n ensures SignsAt(text, prev, j, b) <==> SignsAt(text, run, j, b) {
          SignsBefore(text, run, j, b);
        }
      }
      SealIsLastSigned(text, prev, k, b);
      assert prev[..k + 1] == run[..k + 1];
      LastStep(text, run);
      NotSigned(text, run, b);
      SealAfter(text, After(text, prev), run[n], b);
    }
  }

  lemma NotSigned(text: Statement -> string, run: seq<Step>, b: string)
    requires run != [] && !SignsAt(text, run, |run| - 1, b)
    ensures
      var step := run[|run| - 1];
      !(step.Sign? && step.bundle == b && Next(text, After(text, run[..|run| - 1]), step).Some?)
  {
  }

  // ---- how an approvals file is laid out -------------------------------------------------------

  ghost predicate InOrder(text: Statement -> string, approvals: seq<Approval>) {
    forall i, j | 0 <= i < j < |approvals| :: Orders.Leq(text(approvals[i].payload), text(approvals[j].payload))
  }

  lemma FileStaysInOrder(text: Statement -> string, dir: Dir, step: Step, b: string)
    requires InOrder(text, ApprovalsOf(dir, b))
    ensures InOrder(text, ApprovalsOf(Settle(text, dir, step), b))
  {
    if step.Approve? && step.bundle == b && step.signer.Some? && b in dir.manifests {
      FiledIs(text, ApprovalsOf(dir, b), MakeApproval(dir.manifests[b], step));
    }
  }

  /** After any run, an approvals file is in the order of its payloads, holds at most one approval per person
      and role, and is about the bytes of the manifest beside it. */
  lemma {:induction false} FilesAreInOrder(text: Statement -> string, run: seq<Step>, b: string)
    ensures
      var dir := After(text, run);
      var file := ApprovalsOf(dir, b);
      && InOrder(text, file)
      && (forall i, j | 0 <= i < j < |file| ::
            file[i].payload.principal != file[j].payload.principal || file[i].payload.role != file[j].payload.role)
      && (forall i | 0 <= i < |file| ::
            b in dir.manifests && file[i].payload.bundleId == b && file[i].payload.digest.of == dir.manifests[b])
  {
    hide After, InOrder, Settle, Consistent;
    AlwaysConsistent(text, run);
    SaidOfTheFile(After(text, run), b);
    if run == [] {
      NothingAtFirst(text);
      EmptyInOrder(text);
    } else {
      FilesAreInOrder(text, run[..|run| - 1], b);
      LastStep(text, run);
      FileStaysInOrder(text, After(text, run[..|run| - 1]), run[|run| - 1], b);
    }
  }

  lemma EmptyInOrder(text: Statement -> string)
    ensures InOrder(text, [])
  {
  }

  lemma SaidOfTheFile(dir: Dir, b: string)
    requires Consistent(dir)
    ensures
      var file := ApprovalsOf(dir, b);
      && (forall i, j | 0 <= i < j < |file| ::
            file[i].payload.principal != file[j].payload.principal || file[i].payload.role != file[j].payload.role)
      && (forall i | 0 <= i < |file| ::
            b in dir.manifests && file[i].payload.bundleId == b && file[i].payload.digest.of == dir.manifests[b])
  {
    hide ValidStatement;
    var file := ApprovalsOf(dir, b);
    forall i, j | 0 <= i < j < |file|
      ensures file[i].payload.principal != file[j].payload.principal || file[i].payload.role != file[j].payload.role
    {
      assert !SameSigner(file[i], file[j]);
    }
    forall i | 0 <= i < |file|
      ensures b in dir.manifests && file[i].payload.bundleId == b && file[i].payload.digest.of == dir.manifests[b]
    {
      assert file[i] in dir.approvals[b];
    }
  }
}
