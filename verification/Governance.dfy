/** The four-eyes rule over a set of approvals (CONT-001 section 8). */
module Governance {

  /** An approval as the rule reads it: who, in which role, with which key, when (0 is no instant). */
  datatype Claim = Claim(role: string, principal: string, keyId: string, at: nat)

  predicate ValidRole(role: string) {
    role in {"AUTHOR", "REVIEWER", "APPROVER", "SENIOR_APPROVER"}
  }

  predicate ApproverRole(role: string) { role in {"APPROVER", "SENIOR_APPROVER"} }

  const NON_HUMAN: set<string> := {"ai", "agent", "model", "bot", "service", "system", "workload"}

  function Kind(principal: string): string {
    if principal == "" || principal[0] == ':' then "" else [principal[0]] + Kind(principal[1..])
  }

  /** A person, named as `kind:identifier` with a lower-case kind and no whitespace. */
  predicate ValidPrincipal(principal: string) {
    var kind := Kind(principal);
    && kind != "" && |kind| + 1 < |principal|
    && kind !in NON_HUMAN
    && (forall i | 0 <= i < |kind| :: !('A' <= kind[i] <= 'Z'))
    && (forall i | 0 <= i < |principal| :: principal[i] !in {' ', '\t', '\n'})
  }

  // ---- who may approve ---------------------------------------------------------------

  /** The name says `kind:identifier`, the kind is in lower case and none of a machine's, and nothing in it
      is blank. */
  ghost predicate PersonOf(principal: string, kind: string, id: string) {
    && principal == kind + ":" + id && ':' !in kind && kind != "" && id != ""
    && kind != "ai" && kind != "agent" && kind != "model" && kind != "bot"
    && kind != "service" && kind != "system" && kind != "workload"
    && (forall c | c in kind :: !('A' <= c <= 'Z'))
    && ' ' !in principal && '\t' !in principal && '\n' !in principal
  }

  ghost predicate Person(principal: string) {
    exists kind: string, id: string :: PersonOf(principal, kind, id)
  }

  lemma {:induction false} KindSplits(principal: string)
    ensures Kind(principal) <= principal && ':' !in Kind(principal)
    ensures |Kind(principal)| < |principal| ==> principal[|Kind(principal)|] == ':'
  {
    if principal == "" || principal[0] == ':' {
    } else {
      KindSplits(principal[1..]);
      assert principal == [principal[0]] + principal[1..];
    }
  }

  lemma {:induction false} KindStops(p: string, k: nat)
    requires k < |p| && p[k] == ':' && ':' !in p[..k]
    ensures Kind(p) == p[..k]
  {
    if k == 0 {
    } else {
      assert p[..k][0] == p[0] && p[1..][..k - 1] == p[..k][1..];
      KindStops(p[1..], k - 1);
    }
  }

  /** The code's test of a principal accepts exactly the people. */
  lemma PersonIff(principal: string)
    ensures ValidPrincipal(principal) <==> Person(principal)
  {
    if ValidPrincipal(principal) {
      KindSplits(principal);
      var kind := Kind(principal);
      var id := principal[|kind| + 1..];
      assert principal == kind + ":" + id;
      assert PersonOf(principal, kind, id);
    }
    if Person(principal) {
      var kind: string, id: string :| PersonOf(principal, kind, id);
      assert principal[..|kind|] == kind && principal[|kind|] == ':';
      KindStops(principal, |kind|);
      KindIsHuman(kind);
      assert Kind(principal) == kind && |kind| + 1 < |principal|;
      forall i | 0 <= i < |principal| ensures principal[i] !in {' ', '\t', '\n'} {
        assert principal[i] in principal;
      }
      forall i | 0 <= i < |kind| ensures !('A' <= kind[i] <= 'Z') {
        assert kind[i] in kind;
      }
    }
  }

  lemma KindIsHuman(kind: string)
    ensures kind !in NON_HUMAN <==>
      && kind != "ai" && kind != "agent" && kind != "model" && kind != "bot"
      && kind != "service" && kind != "system" && kind != "workload"
  {
  }

  // ---- the rule ------------------------------------------------------------------------

  /** A person with a key, at an instant, in one of the four roles. */
  ghost predicate Sound(c: Claim) {
    && (c.role == "AUTHOR" || c.role == "REVIEWER" || c.role == "APPROVER" || c.role == "SENIOR_APPROVER")
    && Person(c.principal) && c.keyId != "" && c.at != 0
  }

  /** Everyone is a named person with a key, all people and all keys are different, and none is the
      release key. */
  ghost predicate Separate(claims: seq<Claim>, releaseKey: string) {
    && (forall i | 0 <= i < |claims| :: Sound(claims[i]))
    && (forall i, j | 0 <= i < j < |claims| ::
          claims[i].principal != claims[j].principal && claims[i].keyId != claims[j].keyId)
    && (forall i | 0 <= i < |claims| :: claims[i].keyId != releaseKey)
  }

  /** Separate people, with an author and an approver among them. */
  ghost predicate FourEyes(claims: seq<Claim>, releaseKey: string) {
    && Separate(claims, releaseKey)
    && Holds(claims, "AUTHOR")
    && (Holds(claims, "APPROVER") || Holds(claims, "SENIOR_APPROVER"))
  }

  predicate Holds(claims: seq<Claim>, role: string) {
    exists i | 0 <= i < |claims| :: claims[i].role == role
  }

  lemma HoldsOneMore(claims: seq<Claim>, n: nat)
    requires n < |claims|
    ensures forall role :: Holds(claims[..n + 1], role) <==> Holds(claims[..n], role) || claims[n].role == role
  {
    forall role ensures Holds(claims[..n + 1], role) <==> Holds(claims[..n], role) || claims[n].role == role {
      assert claims[..n + 1][n] == claims[n];
      assert forall i | 0 <= i < n :: claims[..n + 1][i] == claims[..n][i];
    }
  }

  lemma SeparateOneMore(claims: seq<Claim>, n: nat, releaseKey: string)
    requires n < |claims|
    ensures Separate(claims[..n + 1], releaseKey) <==>
      && Separate(claims[..n], releaseKey) && Sound(claims[n]) && claims[n].keyId != releaseKey
      && forall i | 0 <= i < n :: claims[i].principal != claims[n].principal && claims[i].keyId != claims[n].keyId
  {
    hide Sound;
    var before, after := claims[..n], claims[..n + 1];
    assert after[n] == claims[n] && forall i | 0 <= i < n :: after[i] == before[i] == claims[i];
  }

  lemma SeparatePrefix(claims: seq<Claim>, n: nat, releaseKey: string)
    requires n <= |claims| && Separate(claims, releaseKey)
    ensures Separate(claims[..n], releaseKey)
  {
    hide Sound;
  }

  /** `CheckFourEyes`: one pass that remembers the people and keys seen so far. The code compares a key
      with the release key only if there is one, which is no difference since every key has a name. */
  method CheckFourEyes(claims: seq<Claim>, releaseKey: string) returns (ok: bool)
    ensures ok <==> FourEyes(claims, releaseKey)
  {
    hide ValidPrincipal, Person, Separate, Holds;
    var principals: set<string> := {};
    var keys: set<string> := {};
    var author, approver := false, false;
    NobodyIsSeparate(releaseKey);
    for n := 0 to |claims|
      invariant principals == set i | 0 <= i < n :: claims[i].principal
      invariant keys == set i | 0 <= i < n :: claims[i].keyId
      invariant Separate(claims[..n], releaseKey)
      invariant author <==> Holds(claims[..n], "AUTHOR")
      invariant approver <==> Holds(claims[..n], "APPROVER") || Holds(claims[..n], "SENIOR_APPROVER")
    {
      var a := claims[n];
      PersonIff(a.principal);
      HoldsOneMore(claims, n);
      SeparateOneMore(claims, n, releaseKey);
      if Separate(claims, releaseKey) {
        SeparatePrefix(claims, n + 1, releaseKey);
      }
      if !ValidRole(a.role) || !ValidPrincipal(a.principal) || a.keyId == "" || a.at == 0 {
        return false;
      }
      if a.principal in principals {
        return false;
      }
      principals := principals + {a.principal};
      if a.keyId in keys {
        return false;
      }
      keys := keys + {a.keyId};
      if releaseKey != "" && a.keyId == releaseKey {
        return false;
      }
      if a.role == "AUTHOR" {
        author := true;
      } else if ApproverRole(a.role) {
        approver := true;
      }
    }
    assert claims[..|claims|] == claims;
    return author && approver;
  }

  lemma NobodyIsSeparate(releaseKey: string)
    ensures Separate([], releaseKey) && forall role :: !Holds([], role)
  {
  }

  lemma ApproverIsNotAuthor(role: string)
    requires ApproverRole(role)
    ensures role != "AUTHOR"
  {
    assert |"AUTHOR"| == 6 && |"APPROVER"| == 8 && |"SENIOR_APPROVER"| == 15;
  }

  /** What passing the rule gives: an author and an approver who are different people with different
      keys, neither of them the release key. */
  lemma FourEyesMeansTwoPeople(claims: seq<Claim>, releaseKey: string) returns (i: nat, j: nat)
    requires FourEyes(claims, releaseKey)
    ensures i < |claims| && j < |claims|
    ensures claims[i].role == "AUTHOR" && ApproverRole(claims[j].role)
    ensures claims[i].principal != claims[j].principal && claims[i].keyId != claims[j].keyId
    ensures claims[i].keyId != releaseKey && claims[j].keyId != releaseKey
  {
    i :| 0 <= i < |claims| && claims[i].role == "AUTHOR";
    j :| 0 <= j < |claims| && ApproverRole(claims[j].role);
    ApproverIsNotAuthor(claims[j].role);
    assert Sound(claims[i]) && Sound(claims[j]);
    if j < i {
      assert claims[j].principal != claims[i].principal && claims[j].keyId != claims[i].keyId;
    }
  }

  /** The rule as documented: separate people, an AUTHOR and an APPROVER among them. */
  ghost predicate Documented(claims: seq<Claim>, releaseKey: string) {
    Separate(claims, releaseKey) && Holds(claims, "AUTHOR") && Holds(claims, "APPROVER")
  }

  /** The code and the documented rule agree on a set of approvals exactly unless it is a separate author
      and senior approver without an APPROVER, which the code lets through. */
  lemma AgreesWithDocumentIff(claims: seq<Claim>, releaseKey: string)
    ensures (FourEyes(claims, releaseKey) <==> Documented(claims, releaseKey))
       <==> !(Separate(claims, releaseKey) && Holds(claims, "AUTHOR")
              && Holds(claims, "SENIOR_APPROVER") && !Holds(claims, "APPROVER"))
  {
    hide Separate, Holds;
  }

  /** An author and a senior approver pass the code and not the documented rule. */
  lemma SeniorApproverSuffices()
    ensures
      var claims := [Claim("AUTHOR", "user:a", "k1", 1), Claim("SENIOR_APPROVER", "user:b", "k2", 1)];
      FourEyes(claims, "release") && !Documented(claims, "release")
  {
    hide Person;
    var claims := [Claim("AUTHOR", "user:a", "k1", 1), Claim("SENIOR_APPROVER", "user:b", "k2", 1)];
    UserIsPerson("a");
    UserIsPerson("b");
    assert "user:" + "a" == "user:a" && "user:" + "b" == "user:b" && "user:a"[5] != "user:b"[5] && "k1"[1] != "k2"[1] && |"release"| == 7;
    assert |"AUTHOR"| == 6 && |"APPROVER"| == 8 && |"SENIOR_APPROVER"| == 15;
    assert claims[0].role == "AUTHOR" && claims[1].role == "SENIOR_APPROVER";
  }

  lemma UserIsPerson(id: string)
    requires id != "" && ' ' !in id && '\t' !in id && '\n' !in id
    ensures Person("user:" + id)
  {
    assert |"user"| == 4 && "user"[0] == 'u' && |"ai"| == 2 && |"bot"| == 3 && "agent"[0] == 'a' && "model"[0] == 'm'
        && "service"[0] == 's' && "system"[0] == 's' && "workload"[0] == 'w';
    assert "user:" + id == "user" + ":" + id;
    assert PersonOf("user:" + id, "user", id);
  }

  /** Approvals of the same claims in another order pass or fail alike. */
  lemma FourEyesForgetsOrder(s: seq<Claim>, t: seq<Claim>, releaseKey: string)
    requires FourEyes(s, releaseKey) && multiset(s) == multiset(t)
    ensures FourEyes(t, releaseKey)
  {
    hide Sound;
    assert forall c :: c in s <==> c in multiset(s);
    assert forall c :: c in t <==> c in multiset(t);
    forall i | 0 <= i < |t| ensures Sound(t[i]) && t[i].keyId != releaseKey {
      assert t[i] in s;
    }
    forall i, j | 0 <= i < j < |t|
      ensures t[i].principal != t[j].principal && t[i].keyId != t[j].keyId
    {
      assert t[i] in s && t[j] in s;
      TwiceIn(t, i, j);
      OnceOnly(s, t[i]);
    }
    forall role | Holds(s, role) ensures Holds(t, role) {
      var a :| 0 <= a < |s| && s[a].role == role;
      assert s[a] in t;
    }
  }

  lemma TwiceIn(t: seq<Claim>, i: nat, j: nat)
    requires i < j < |t|
    ensures t[i] == t[j] ==> multiset(t)[t[i]] >= 2
  {
    assert t == t[..j] + t[j..];
    assert t[i] in t[..j] && t[j] in t[j..];
  }

  lemma {:induction false} OnceOnly(s: seq<Claim>, c: Claim)
    requires forall i, j | 0 <= i < j < |s| :: s[i].principal != s[j].principal
    ensures multiset(s)[c] <= 1
  {
    if s == [] {
    } else {
      OnceOnly(s[1..], c);
      assert s == [s[0]] + s[1..];
      assert s[0] !in s[1..];
    }
  }
}
