/** Four-eyes safety over whole runs of compile, approve and sign from an empty directory. */
module ReleaseRuns {
  import opened Governance
  import opened ReleaseSteps
  import Orders

  // ---- what every step keeps -----------------------------------------------------

  /** At most one approval per person and role. */
  ghost predicate OnePerSigner(approvals: seq<Approval>) {
    forall i, j | 0 <= i < j < |approvals| :: !SameSigner(approvals[i], approvals[j])
  }

  /** Manifests sit under their own id, an approvals file is never empty, and every approval in it covers the
      manifest beside it. */
  ghost predicate Consistent(dir: Dir) {
    && (forall b | b in dir.manifests :: dir.manifests[b].bundleId == b)
    && (forall b | b in dir.approvals ::
          && b in dir.manifests && dir.approvals[b] != []
          && (forall a | a in dir.approvals[b] :: Covers(a, dir.manifests[b]))
          && OnePerSigner(dir.approvals[b]))
  }

  lemma {:induction false} FilterKeeps<T>(keep: T -> bool, s: seq<T>)
    ensures forall x :: x in Filter(keep, s) <==> x in s && keep(x)
    ensures |Filter(keep, s)| <= |s|
  {
    if s == [] {
    } else {
      FilterKeeps(keep, s[1..]);
      assert s == [s[0]] + s[1..];
    }
  }

  lemma {:induction false} FilterOnePerSigner(keep: Approval -> bool, s: seq<Approval>)
    requires OnePerSigner(s)
    ensures OnePerSigner(Filter(keep, s))
  {
    if s == [] {
    } else {
      FilterOnePerSigner(keep, s[1..]);
      FilterKeeps(keep, s[1..]);
      var rest := Filter(keep, s[1..]);
      forall j | 0 <= j < |rest| ensures !SameSigner(s[0], rest[j]) {
        assert rest[j] in s[1..];
      }
    }
  }

  lemma {:induction false} SignersInOrder(s: seq<Approval>, a: Approval)
    requires OnePerSigner(s)
    ensures multiset(s)[a] <= 1
  {
    if s == [] {
    } else {
      SignersInOrder(s[1..], a);
      assert s == [s[0]] + s[1..];
      assert s[0] !in s[1..];
    }
  }

  lemma SignersApart(t: seq<Approval>, i: nat, j: nat)
    requires i < j < |t| && multiset(t)[t[i]] <= 1
    ensures t[i] != t[j]
  {
    assert t == t[..j] + t[j..];
    assert t[i] in t[..j] && t[j] in t[j..];
    assert multiset(t) == multiset(t[..j]) + multiset(t[j..]);
    assert multiset(t[..j])[t[i]] >= 1 && multiset(t[j..])[t[j]] >= 1;
  }

  lemma OnePerSignerForgetsOrder(s: seq<Approval>, t: seq<Approval>)
    requires OnePerSigner(s) && multiset(s) == multiset(t)
    ensures OnePerSigner(t)
  {
    Orders.SameElements(s, t);
    forall i, j | 0 <= i < j < |t| ensures !SameSigner(t[i], t[j]) {
      SignersInOrder(s, t[i]);
      SignersApart(t, i, j);
      assert t[i] in s && t[j] in s;
    }
  }

  lemma NewFirst(a: Approval, rest: seq<Approval>)
    requires OnePerSigner(rest) && forall e | e in rest :: !SameSigner(e, a)
    ensures OnePerSigner([a] + rest)
  {
    forall j | 0 <= j < |rest| ensures !SameSigner(a, rest[j]) {
      assert rest[j] in rest;
    }
  }

  /** What a new approval leaves on file: itself and the survivors, one per signer. */
  lemma FiledContents(text: Statement -> string, existing: seq<Approval>, a: Approval)
    requires OnePerSigner(existing)
    ensures forall e :: e in Filed(text, existing, a) <==> e == a || (e in existing && Survives(e, a))
    ensures OnePerSigner(Filed(text, existing, a))
  {
    var keep := (e: Approval) => Survives(e, a);
    var kept := [a] + Filter(keep, existing);
    FilterKeeps(keep, existing);
    FilterOnePerSigner(keep, existing);
    NewFirst(a, Filter(keep, existing));
    Orders.SortByMultiset(ByPayload(text), kept);
    Orders.SameElements(kept, Filed(text, existing, a));
    OnePerSignerForgetsOrder(kept, Filed(text, existing, a));
  }

  lemma CompileConsistent(dir: Dir, m: Manifest)
    requires Consistent(dir) && AfterCompile(dir, m).Some?
    ensures Consistent(AfterCompile(dir, m).value)
  {
  }

  lemma ApproveConsistent(text: Statement -> string, dir: Dir, step: Step)
    requires Consistent(dir) && step.Approve? && AfterApprove(text, dir, step).Some?
    ensures Consistent(AfterApprove(text, dir, step).value)
  {
    FiledContents(text, ApprovalsOf(dir, step.bundle), MakeApproval(dir.manifests[step.bundle], step));
    assert MakeApproval(dir.manifests[step.bundle], step) in AfterApprove(text, dir, step).value.approvals[step.bundle];
  }

  /** Whatever step runs, the directory stays consistent. */
  lemma StepConsistent(text: Statement -> string, dir: Dir, step: Step)
    requires Consistent(dir)
    ensures Consistent(Settle(text, dir, step))
  {
    match step
    case Compile(m) => if m.bundleId != "" { CompileConsistent(dir, m); }
    case Approve(_, _, _, _, _) => if AfterApprove(text, dir, step).Some? { ApproveConsistent(text, dir, step); }
    case Sign(_, _, _, _, _, _) =>
  }

  // ---- runs ------------------------------------------------------------------------

  /** The directory after a run of steps from nothing. */
  ghost function After(text: Statement -> string, run: seq<Step>): Dir {
    if run == [] then EMPTY else Settle(text, After(text, run[..|run| - 1]), run[|run| - 1])
  }

  lemma {:induction false} AlwaysConsistent(text: Statement -> string, run: seq<Step>)
    ensures Consistent(After(text, run))
  {
    if run == [] {
    } else {
      AlwaysConsistent(text, run[..|run| - 1]);
      StepConsistent(text, After(text, run[..|run| - 1]), run[|run| - 1]);
    }
  }

  /** Step `i` of the run was a successful approval, by its own signer's key, of the manifest `m`
      then on file for bundle `b`, and left the record `a`. */
  ghost predicate ApprovedAt(text: Statement -> string, run: seq<Step>, i: nat, b: string, m: Manifest, a: Approval)
    requires i < |run|
  {
    var dir := After(text, run[..i]);
    && run[i].Approve? && run[i].bundle == b
    && Next(text, dir, run[i]).Some?
    && dir.manifests[b] == m && a == MakeApproval(m, run[i])
  }

  /** From step `i` to the end of the run the bundle's manifest was always exactly `m`. */
  ghost predicate HeldSince(text: Statement -> string, run: seq<Step>, i: nat, b: string, m: Manifest) {
    forall k | i <= k <= |run| :: b in After(text, run[..k]).manifests && After(text, run[..k]).manifests[b] == m
  }

  lemma PrefixOfPrefix(run: seq<Step>, k: nat)
    requires k < |run|
    ensures run[..|run| - 1][..k] == run[..k]
  {
  }

  lemma ExtendHeld(text: Statement -> string, run: seq<Step>, i: nat, b: string, m: Manifest)
    requires run != [] && i < |run|
    requires HeldSince(text, run[..|run| - 1], i, b, m)
    requires b in After(text, run).manifests && After(text, run).manifests[b] == m
    ensures HeldSince(text, run, i, b, m)
  {
    var prev := run[..|run| - 1];
    forall k | i <= k <= |run|
      ensures b in After(text, run[..k]).manifests && After(text, run[..k]).manifests[b] == m
    {
      if k < |run| {
        PrefixOfPrefix(run, k);
        assert After(text, prev[..k]).manifests[b] == m;
      } else {
        assert run[..k] == run;
      }
    }
  }

  lemma ExtendApproved(text: Statement -> string, run: seq<Step>, i: nat, b: string, m: Manifest, a: Approval)
    requires run != [] && i < |run| - 1 && ApprovedAt(text, run[..|run| - 1], i, b, m, a)
    ensures ApprovedAt(text, run, i, b, m, a)
  {
    PrefixOfPrefix(run, i);
  }

  /** A step that leaves approval `a` on file for `b` either just made it, or found it there and kept
      the manifest it covers. */
  lemma WhereApprovalsComeFrom(text: Statement -> string, dir: Dir, step: Step, b: string, a: Approval)
    requires Consistent(dir)
    requires b in Settle(text, dir, step).approvals && a in Settle(text, dir, step).approvals[b]
    ensures b in dir.manifests && b in Settle(text, dir, step).manifests
    ensures Settle(text, dir, step).manifests[b] == dir.manifests[b]
    ensures || (b in dir.approvals && a in dir.approvals[b])
            || (step.Approve? && step.bundle == b && Next(text, dir, step).Some? && a == MakeApproval(dir.manifests[b], step))
  {
    match step
    case Compile(m) =>
      if m.bundleId == b {
        assert a in dir.approvals[b] && Covers(a, m) && Covers(a, dir.manifests[b]);
      }
    case Approve(_, _, _, _, _) =>
      if step.bundle == b && AfterApprove(text, dir, step).Some? {
        FiledContents(text, ApprovalsOf(dir, b), MakeApproval(dir.manifests[b], step));
      }
    case Sign(_, _, _, _, _, _) =>
  }

  /** Every approval on file was made by an approve step of the run, over exactly the manifest on
      file now, which has not changed since. */
  lemma {:induction false} ApprovalsHaveAStep(text: Statement -> string, run: seq<Step>, b: string, a: Approval) returns (i: nat)
    requires b in After(text, run).approvals && a in After(text, run).approvals[b]
    ensures b in After(text, run).manifests && i < |run|
    ensures ApprovedAt(text, run, i, b, After(text, run).manifests[b], a)
    ensures HeldSince(text, run, i, b, After(text, run).manifests[b])
  {
    hide Settle, Consistent, ApprovedAt, HeldSince;
    var n := |run| - 1;
    var prev := After(text, run[..n]);
    AlwaysConsistent(text, run[..n]);
    WhereApprovalsComeFrom(text, prev, run[n], b, a);
    if b !in prev.approvals || a !in prev.approvals[b] {
      i := n;
      JustApproved(text, run, b, a);
    } else {
      i := ApprovalsHaveAStep(text, run[..n], b, a);
      ExtendApproved(text, run, i, b, prev.manifests[b], a);
      ExtendHeld(text, run, i, b, prev.manifests[b]);
    }
  }

  lemma JustApproved(text: Statement -> string, run: seq<Step>, b: string, a: Approval)
    requires run != [] && run[|run| - 1].Approve? && run[|run| - 1].bundle == b
    requires b in After(text, run).manifests && b in After(text, run[..|run| - 1]).manifests
    requires After(text, run).manifests[b] == After(text, run[..|run| - 1]).manifests[b]
    requires Next(text, After(text, run[..|run| - 1]), run[|run| - 1]).Some?
    requires a == MakeApproval(After(text, run).manifests[b], run[|run| - 1])
    ensures ApprovedAt(text, run, |run| - 1, b, After(text, run).manifests[b], a)
    ensures HeldSince(text, run, |run| - 1, b, After(text, run).manifests[b])
  {
    hide Settle, Next;
    assert run[..|run|] == run;
  }

  /** Step `k` of the run was a successful sign that left `seal` for bundle `b`. */
  ghost predicate SealedAt(text: Statement -> string, run: seq<Step>, k: nat, b: string, seal: Seal)
    requires k < |run|
  {
    var dir := After(text, run[..k]);
    && run[k].Sign? && run[k].bundle == b
    && Next(text, dir, run[k]).Some?
    && seal == MakeSeal(dir.manifests[b], ApprovalsOf(dir, b), run[k])
  }

  lemma {:induction false} SealsHaveAStep(text: Statement -> string, run: seq<Step>, b: string) returns (k: nat)
    requires b in After(text, run).seals
    ensures k < |run| && SealedAt(text, run, k, b, After(text, run).seals[b])
  {
    var n := |run| - 1;
    var prev := After(text, run[..n]);
    if run[n].Sign? && run[n].bundle == b && Next(text, prev, run[n]).Some? {
      k := n;
    } else {
      assert b in prev.seals && prev.seals[b] == After(text, run).seals[b];
      k := SealsHaveAStep(text, run[..n], b);
      PrefixOfPrefix(run, k);
    }
  }

  // ---- the safety theorem ------------------------------------------------------------

  /** Before step `k`, steps `i` and `j` were approvals of the sealed manifest by an author and an
      approver: different people, different keys, neither the release key, both recorded in the
      seal, and the manifest did not change from either of them to the sealing. */
  ghost predicate TwoPeople(text: Statement -> string, run: seq<Step>, k: nat, i: nat, j: nat, b: string, seal: Seal)
    requires k <= |run| && i < k && j < k
  {
    var before := run[..k];
    && run[i].Approve? && run[j].Approve? && run[i].signer.Some? && run[j].signer.Some?
    && run[i].role == "AUTHOR" && ApproverRole(run[j].role)
    && run[i].principal != run[j].principal
    && run[i].signer.value.keyId != run[j].signer.value.keyId
    && run[i].signer.value.keyId != seal.signature.keyId && run[j].signer.value.keyId != seal.signature.keyId
    && ApprovedAt(text, before, i, b, seal.digest.of, MakeApproval(seal.digest.of, run[i]))
    && ApprovedAt(text, before, j, b, seal.digest.of, MakeApproval(seal.digest.of, run[j]))
    && MakeApproval(seal.digest.of, run[i]) in seal.approvals
    && MakeApproval(seal.digest.of, run[j]) in seal.approvals
    && HeldSince(text, before, i, b, seal.digest.of) && HeldSince(text, before, j, b, seal.digest.of)
  }

  lemma FourEyesGivesSteps(text: Statement -> string, run: seq<Step>, k: nat, b: string, seal: Seal) returns (i: nat, j: nat)
    requires k < |run| && SealedAt(text, run, k, b, seal)
    requires FourEyes(Claims(seal.approvals), seal.signature.keyId)
    ensures i < k && j < k && TwoPeople(text, run, k, i, j, b, seal)
  {
    var before := run[..k];
    var x, y := FourEyesMeansTwoPeople(Claims(seal.approvals), seal.signature.keyId);
    i := ApprovalsHaveAStep(text, before, b, seal.approvals[x]);
    j := ApprovalsHaveAStep(text, before, b, seal.approvals[y]);
    assert run[i] == before[i] && run[j] == before[j];
  }

  /** Over every run from an empty directory: a seal was made by some sign step, over the manifest
      then on file. With approvals in it, two people approved exactly those bytes beforehand. Without
      any, it was made in development. */
  lemma EverySealHasFourEyes(text: Statement -> string, run: seq<Step>, b: string) returns (k: nat)
    requires b in After(text, run).seals
    ensures
      var seal := After(text, run).seals[b];
      && k < |run| && SealedAt(text, run, k, b, seal)
      && (seal.approvals == [] ==> run[k].env == "development")
      && (seal.approvals != [] ==>
            exists i: nat, j: nat :: i < k && j < k && TwoPeople(text, run, k, i, j, b, seal))
  {
    k := SealsHaveAStep(text, run, b);
    var seal := After(text, run).seals[b];
    assert MaySeal(After(text, run[..k]).manifests[b], seal.approvals, run[k]);
    if seal.approvals != [] {
      var i, j := FourEyesGivesSteps(text, run, k, b, seal);
    }
  }

  /** The in-process signer only works in development. */
  ghost predicate LocalSigner(step: Step) {
    step.Sign? && step.signer.Some? ==> step.env == "development"
  }

  /** Outside development nothing is sealed without an author and an approver; and while every signer
      is the in-process one, nothing is sealed outside development at all. */
  lemma ProductionSealsHaveFourEyes(text: Statement -> string, run: seq<Step>, b: string) returns (k: nat)
    requires b in After(text, run).seals
    ensures k < |run| && SealedAt(text, run, k, b, After(text, run).seals[b])
    ensures run[k].env != "development" ==>
              exists i: nat, j: nat :: i < k && j < k && TwoPeople(text, run, k, i, j, b, After(text, run).seals[b])
    ensures (forall s | 0 <= s < |run| :: LocalSigner(run[s])) ==> run[k].env == "development"
  {
    k := EverySealHasFourEyes(text, run, b);
  }

  // ---- what a cell makes of it ---------------------------------------------------------

  /** `Loader.Load` on one bundle, with `trusted` saying which keys' signatures verify. */
  ghost predicate CellAccepts(dir: Dir, b: string, cell: string, env: string, trusted: string -> bool) {
    && b in dir.manifests && b in dir.seals
    && var seal, m := dir.seals[b], dir.manifests[b];
    && trusted(seal.signature.keyId)
    && seal.digest == Digest(m) && seal.bundleId == m.bundleId
    && (forall a | a in seal.approvals :: trusted(a.signature.keyId) && Covers(a, m) && a.payload.at <= seal.issuedAt)
    && (seal.cell == "" || seal.cell == cell)
    && ((env == "development" && seal.approvals == []) || FourEyes(Claims(seal.approvals), seal.signature.keyId))
  }

  /** A production cell only ever accepts a manifest that an author and a different approver approved
      byte for byte, signed and approved under keys it trusts and sealed for this cell or for all: a seal
      left over from other bytes is refused. */
  lemma AcceptedMeansApproved(text: Statement -> string, run: seq<Step>, b: string, cell: string, env: string,
                              trusted: string -> bool) returns (k: nat, i: nat, j: nat)
    requires CellAccepts(After(text, run), b, cell, env, trusted) && env != "development"
    ensures k < |run| && i < k && j < k && SealedAt(text, run, k, b, After(text, run).seals[b])
    ensures TwoPeople(text, run, k, i, j, b, After(text, run).seals[b])
    ensures After(text, run).seals[b].digest.of == After(text, run).manifests[b]
    ensures trusted(run[k].signer.value.keyId) && trusted(run[i].signer.value.keyId) && trusted(run[j].signer.value.keyId)
    ensures run[k].cell == "" || run[k].cell == cell
  {
    k := SealsHaveAStep(text, run, b);
    i, j := FourEyesGivesSteps(text, run, k, b, After(text, run).seals[b]);
  }

  /** What sign just sealed, a cell that trusts the keys accepts: everywhere if there were approvals,
      and in development otherwise. */
  lemma SignedIsAccepted(dir: Dir, step: Step, env: string, trusted: string -> bool)
    requires Consistent(dir) && step.Sign? && AfterSign(dir, step).Some?
    requires trusted(step.signer.value.keyId)
    requires forall a | a in ApprovalsOf(dir, step.bundle) :: trusted(a.signature.keyId)
    ensures CellAccepts(AfterSign(dir, step).value, step.bundle, step.cell, env, trusted) <==>
            env == "development" || ApprovalsOf(dir, step.bundle) != []
  {
    if ApprovalsOf(dir, step.bundle) == [] {
      assert Claims(ApprovalsOf(dir, step.bundle)) == [];
    }
  }

  // ---- the order of approvals does not matter ---------------------------------------------

  lemma {:induction false} FilterMultiset<T>(keep: T -> bool, s: seq<T>, x: T)
    ensures multiset(Filter(keep, s))[x] == if keep(x) then multiset(s)[x] else 0
  {
    if s == [] {
    } else {
      FilterMultiset(keep, s[1..], x);
      assert s == [s[0]] + s[1..];
    }
  }

  /** How many times `e` is on file after `a` was added. */
  lemma FiledCount(text: Statement -> string, existing: seq<Approval>, a: Approval, e: Approval)
    ensures multiset(Filed(text, existing, a))[e]
         == (if e == a then 1 else 0) + (if Survives(e, a) then multiset(existing)[e] else 0)
  {
    var keep := (x: Approval) => Survives(x, a);
    FilterMultiset(keep, existing, e);
    Orders.SortByMultiset(ByPayload(text), [a] + Filter(keep, existing));
  }

  ghost predicate Injective(text: Statement -> string) {
    forall s, t :: text(s) == text(t) ==> s == t
  }

  lemma PayloadOrder(text: Statement -> string)
    ensures Orders.TotalPreorder(ByPayload(text))
    ensures forall a, b :: ByPayload(text)(a, b) && ByPayload(text)(b, a) ==> text(a.payload) == text(b.payload)
  {
    Orders.KeyOrder((a: Approval) => text(a.payload), ByPayload(text));
  }

  lemma OnePerSignerNoTies(text: Statement -> string, s: seq<Approval>)
    requires Injective(text) && OnePerSigner(s)
    ensures Orders.NoTies(ByPayload(text), s)
  {
    PayloadOrder(text);
    forall a, b | a in s && b in s && ByPayload(text)(a, b) && ByPayload(text)(b, a) ensures a == b {
      assert a.payload == b.payload;
      var i :| 0 <= i < |s| && s[i] == a;
      var j :| 0 <= j < |s| && s[j] == b;
      assert SameSigner(s[i], s[j]);
      assert i == j;
    }
  }

  /** Two files with the same approvals are the same file. */
  lemma SameFile(text: Statement -> string, s: seq<Approval>, t: seq<Approval>)
    requires Injective(text) && OnePerSigner(s) && multiset(s) == multiset(t)
    requires Orders.SortedBy(ByPayload(text), s) && Orders.SortedBy(ByPayload(text), t)
    ensures s == t
  {
    OnePerSignerNoTies(text, s);
    Orders.SortedUnique(ByPayload(text), s, t);
  }

  lemma FiledSorted(text: Statement -> string, existing: seq<Approval>, a: Approval)
    ensures Orders.SortedBy(ByPayload(text), Filed(text, existing, a))
  {
    PayloadOrder(text);
    Orders.SortBySorted(ByPayload(text), [a] + Filter((e: Approval) => Survives(e, a), existing));
  }

  /** Approving again in the same role replaces the earlier approval and nothing else. */
  lemma ReapprovingReplaces(text: Statement -> string, existing: seq<Approval>, a: Approval, again: Approval)
    requires Injective(text) && OnePerSigner(existing)
    requires a.payload.digest == again.payload.digest && SameSigner(a, again)
    ensures Filed(text, Filed(text, existing, a), again) == Filed(text, existing, again)
  {
    var x := Filed(text, existing, a);
    FiledContents(text, existing, a);
    FiledContents(text, existing, again);
    FiledContents(text, x, again);
    forall e ensures multiset(Filed(text, x, again))[e] == multiset(Filed(text, existing, again))[e] {
      FiledCount(text, existing, a, e);
      FiledCount(text, existing, again, e);
      FiledCount(text, x, again, e);
    }
    FiledSorted(text, x, again);
    FiledSorted(text, existing, again);
    SameFile(text, Filed(text, x, again), Filed(text, existing, again));
  }

  // ---- a whole batch of approvals -----------------------------------------------------------

  /** The file after a sequence of approvals of one manifest. */
  function FileAll(text: Statement -> string, existing: seq<Approval>, added: seq<Approval>): seq<Approval> {
    if added == [] then existing
    else Filed(text, FileAll(text, existing, added[..|added| - 1]), added[|added| - 1])
  }

  /** Approvals of one manifest by different signers. */
  ghost predicate Batch(added: seq<Approval>) {
    forall i, j | 0 <= i < j < |added| ::
      added[i].payload.digest == added[j].payload.digest && !SameSigner(added[i], added[j])
  }

  lemma {:induction false} FileAllKeepsOnePerSigner(text: Statement -> string, existing: seq<Approval>, added: seq<Approval>)
    requires OnePerSigner(existing)
    ensures OnePerSigner(FileAll(text, existing, added))
    ensures added != [] ==> Orders.SortedBy(ByPayload(text), FileAll(text, existing, added))
  {
    if added == [] {
    } else {
      var n := |added| - 1;
      FileAllKeepsOnePerSigner(text, existing, added[..n]);
      FiledContents(text, FileAll(text, existing, added[..n]), added[n]);
      FiledSorted(text, FileAll(text, existing, added[..n]), added[n]);
    }
  }

  lemma EarlierSurvive(added: seq<Approval>, e: Approval)
    requires Batch(added) && added != [] && e in added[..|added| - 1]
    ensures Survives(e, added[|added| - 1])
  {
    var i :| 0 <= i < |added| - 1 && added[i] == e;
  }

  lemma OwnSignerGoes(a: Approval)
    ensures !Survives(a, a)
  {
  }

  /** Everything added is on file, and what was there before is kept if it survives everything added. */
  lemma {:induction false} FileAllCount(text: Statement -> string, existing: seq<Approval>, added: seq<Approval>, e: Approval)
    requires Batch(added)
    ensures multiset(FileAll(text, existing, added))[e]
         == multiset(added)[e] + (if forall a | a in added :: Survives(e, a) then multiset(existing)[e] else 0)
  {
    hide Filed, Survives;
    if added == [] {
    } else {
      var n := |added| - 1;
      var before, a := added[..n], added[n];
      assert added == before + [a];
      FileAllCount(text, existing, before, e);
      FiledCount(text, FileAll(text, existing, before), a, e);
      if e in before {
        EarlierSurvive(added, e);
      }
      OwnSignerGoes(a);
      OutlastsOneMore(before, a, e);
    }
  }

  lemma OutlastsOneMore(before: seq<Approval>, a: Approval, e: Approval)
    ensures (forall x | x in before + [a] :: Survives(e, x)) <==> Survives(e, a) && forall x | x in before :: Survives(e, x)
  {
    hide Survives;
    assert a in before + [a] && forall x | x in before :: x in before + [a];
  }

  /** Different signers may approve in any order at all: the approvals file is the same. */
  lemma BatchForgetsOrder(text: Statement -> string, existing: seq<Approval>, added: seq<Approval>, other: seq<Approval>)
    requires Injective(text) && OnePerSigner(existing) && Batch(added) && Batch(other)
    requires multiset(added) == multiset(other)
    ensures FileAll(text, existing, added) == FileAll(text, existing, other)
  {
    hide Filed, OnePerSigner, Batch;
    Orders.SameElements(added, other);
    if added != [] {
      var x, y := FileAll(text, existing, added), FileAll(text, existing, other);
      forall e ensures multiset(x)[e] == multiset(y)[e] {
        FileAllCount(text, existing, added, e);
        FileAllCount(text, existing, other, e);
      }
      FileAllKeepsOnePerSigner(text, existing, added);
      FileAllKeepsOnePerSigner(text, existing, other);
      SameFile(text, x, y);
    }
  }

  // ---- the same, as runs of approve steps ------------------------------------------------------

  /** Approve steps for one bundle by different signers. */
  ghost predicate ApproveSteps(steps: seq<Step>, b: string) {
    && (forall i | 0 <= i < |steps| :: steps[i].Approve? && steps[i].bundle == b)
    && forall i, j | 0 <= i < j < |steps| ::
         steps[i].principal != steps[j].principal || steps[i].role != steps[j].role
  }

  /** The step goes ahead over manifest `m`: the key service signs and the statement encodes. */
  predicate GoesAhead(m: Manifest, step: Step)
    requires step.Approve?
  {
    step.signer.Some? && ValidStatement(MakeApproval(m, step).payload)
  }

  predicate MakesOver(m: Manifest, step: Step, a: Approval)
    requires step.Approve?
  {
    GoesAhead(m, step) && a == MakeApproval(m, step)
  }

  /** The approvals the steps make over `m`, refused steps making none. */
  function Made(m: Manifest, steps: seq<Step>): (made: seq<Approval>)
    requires forall i | 0 <= i < |steps| :: steps[i].Approve?
    ensures forall a :: a in made <==> exists i | 0 <= i < |steps| :: MakesOver(m, steps[i], a)
  {
    if steps == [] then []
    else
      var last := steps[|steps| - 1];
      assert forall i | 0 <= i < |steps| - 1 :: steps[..|steps| - 1][i] == steps[i];
      Made(m, steps[..|steps| - 1]) + (if GoesAhead(m, last) then [MakeApproval(m, last)] else [])
  }

  lemma {:induction false} MadeIsBatch(m: Manifest, steps: seq<Step>, b: string)
    requires ApproveSteps(steps, b)
    ensures Batch(Made(m, steps)) && Orders.Distinct(Made(m, steps))
  {
    if steps == [] {
    } else {
      var n := |steps| - 1;
      var before, last := Made(m, steps[..n]), steps[n];
      MadeIsBatch(m, steps[..n], b);
      forall k | 0 <= k < |before| && GoesAhead(m, last)
        ensures before[k].payload.digest == MakeApproval(m, last).payload.digest && !SameSigner(before[k], MakeApproval(m, last))
      {
        assert before[k] in before;
        var i :| 0 <= i < n && MakesOver(m, steps[..n][i], before[k]);
        assert steps[i].principal != last.principal || steps[i].role != last.role;
      }
    }
  }

  /** What a run of approve steps does to the directory. */
  ghost function AfterBatch(text: Statement -> string, dir: Dir, b: string, steps: seq<Step>): Dir
    requires ApproveSteps(steps, b)
  {
    if b !in dir.manifests || Made(dir.manifests[b], steps) == [] then dir
    else dir.(approvals := dir.approvals[b := FileAll(text, ApprovalsOf(dir, b), Made(dir.manifests[b], steps))])
  }

  lemma {:induction false} RunOfApprovals(text: Statement -> string, run: seq<Step>, b: string, steps: seq<Step>)
    requires ApproveSteps(steps, b)
    ensures After(text, run + steps) == AfterBatch(text, After(text, run), b, steps)
  {
    hide Filed, ValidStatement;
    if steps == [] {
      assert run + steps == run;
    } else {
      var n := |steps| - 1;
      var all := run + steps;
      assert all[..|all| - 1] == run + steps[..n] && all[|all| - 1] == steps[n];
      RunOfApprovals(text, run, b, steps[..n]);
      AlwaysConsistent(text, run + steps[..n]);
      OneMoreApproval(text, After(text, run), b, steps);
    }
  }

  /** A step that goes ahead files its approval; any other leaves the directory alone. */
  lemma OneApproval(text: Statement -> string, dir: Dir, step: Step)
    requires Consistent(dir) && step.Approve? && step.bundle in dir.manifests
    ensures
      var b, m := step.bundle, dir.manifests[step.bundle];
      Settle(text, dir, step) ==
        if GoesAhead(m, step) then dir.(approvals := dir.approvals[b := Filed(text, ApprovalsOf(dir, b), MakeApproval(m, step))])
        else dir
  {
    hide Filed;
    var b, m := step.bundle, dir.manifests[step.bundle];
    assert forall e | e in ApprovalsOf(dir, b) :: Covers(e, m);
  }

  lemma OneMoreApproval(text: Statement -> string, dir: Dir, b: string, steps: seq<Step>)
    requires steps != [] && ApproveSteps(steps, b) && ApproveSteps(steps[..|steps| - 1], b)
    requires Consistent(AfterBatch(text, dir, b, steps[..|steps| - 1]))
    ensures Settle(text, AfterBatch(text, dir, b, steps[..|steps| - 1]), steps[|steps| - 1]) == AfterBatch(text, dir, b, steps)
  {
    hide Filed, Consistent, ValidStatement;
    var n := |steps| - 1;
    var mid, last := AfterBatch(text, dir, b, steps[..n]), steps[n];
    if b in dir.manifests {
      hide Settle;
      var m := dir.manifests[b];
      var made := Made(m, steps[..n]);
      OneApproval(text, mid, last);
      assert ApprovalsOf(mid, b) == FileAll(text, ApprovalsOf(dir, b), made);
      if GoesAhead(m, last) {
        var a := MakeApproval(m, last);
        assert (made + [a])[..|made + [a]| - 1] == made;
        assert Made(m, steps) == made + [a];
      } else {
        assert Made(m, steps) == made + [] == made;
      }
    }
  }

  /** Different signers may run their approve steps in any order, after any run: the directory ends up
      the same. */
  lemma ApproveStepsForgetOrder(text: Statement -> string, run: seq<Step>, b: string, steps: seq<Step>, other: seq<Step>)
    requires Injective(text) && multiset(steps) == multiset(other)
    requires ApproveSteps(steps, b) && ApproveSteps(other, b)
    ensures After(text, run + steps) == After(text, run + other)
  {
    hide FileAll, GoesAhead, OnePerSigner, Made, Settle, Injective, Batch;
    RunOfApprovals(text, run, b, steps);
    RunOfApprovals(text, run, b, other);
    var dir := After(text, run);
    if b in dir.manifests {
      var m := dir.manifests[b];
      MadeIsBatch(m, steps, b);
      MadeIsBatch(m, other, b);
      SameStepsSameApprovals(m, b, steps, other);
      OnFileOnePerSigner(text, run, b);
      BatchForgetsOrder(text, ApprovalsOf(dir, b), Made(m, steps), Made(m, other));
    }
  }

  lemma SameStepsSameApprovals(m: Manifest, b: string, steps: seq<Step>, other: seq<Step>)
    requires multiset(steps) == multiset(other) && ApproveSteps(steps, b) && ApproveSteps(other, b)
    ensures multiset(Made(m, steps)) == multiset(Made(m, other))
    ensures Made(m, steps) == [] <==> Made(m, other) == []
  {
    hide MakesOver;
    Orders.SameElements(steps, other);
    MadeIsBatch(m, steps, b);
    MadeIsBatch(m, other, b);
    forall a ensures a in Made(m, steps) <==> a in Made(m, other) {
      if a in Made(m, steps) {
        var i :| 0 <= i < |steps| && MakesOver(m, steps[i], a);
        assert steps[i] in other;
      }
      if a in Made(m, other) {
        var i :| 0 <= i < |other| && MakesOver(m, other[i], a);
        assert other[i] in steps;
      }
    }
    Orders.SameMembersSameMultiset(Made(m, steps), Made(m, other));
    Orders.SameElements(Made(m, steps), Made(m, other));
  }

  lemma OnFileOnePerSigner(text: Statement -> string, run: seq<Step>, b: string)
    ensures OnePerSigner(ApprovalsOf(After(text, run), b))
  {
    AlwaysConsistent(text, run);
  }

  /** After any run, the approvals on file for a bundle: one per person and role, all over the
      current manifest. */
  lemma ApprovalsOnFile(text: Statement -> string, run: seq<Step>, b: string)
    requires b in After(text, run).approvals
    ensures OnePerSigner(After(text, run).approvals[b])
    ensures b in After(text, run).manifests
    ensures forall a | a in After(text, run).approvals[b] :: Covers(a, After(text, run).manifests[b])
  {
    AlwaysConsistent(text, run);
  }
}
