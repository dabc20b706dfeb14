/** What the NFR gate asks of a service card and of a resilience profile against its card. */
module NfrServices {
  import opened Options
  import opened NfrDocuments
  import Orders

  const C0_FORBIDDEN_SYNC: set<string> := {"model_gateway", "authority", "content_plane", "geocoder"}
  const C0_FAIL_CLOSED: set<string> := {"database", "kms", "secrets", "object_store"}
  const C0_STATED: set<string> := {"database", "kms", "object_store"}
  const C0_MAX_RPO_S := 60
  const C0_MAX_RTO_S := 15 * 60

  // ---- dictionaries inside a card --------------------------------------------------------

  /** `{j["journey_id"]: j ...}[id]["class"]`: the last journey under an id counts. */
  function ClassOf(journeys: seq<Journey>, id: string): (r: Option<string>)
    ensures r.None? <==> forall j | j in journeys :: j.id != id
  {
    if journeys == [] then None
    else
      var j := journeys[|journeys| - 1];
      assert journeys == journeys[..|journeys| - 1] + [j];
      if j.id == id then Some(j.cls) else ClassOf(journeys[..|journeys| - 1], id)
  }

  /** `{dep["name"]: dep ...}.get(name)`. */
  function DependencyNamed(dependencies: seq<Dependency>, name: string): (r: Option<Dependency>)
    ensures r.Some? ==> r.value in dependencies && r.value.name == name
    ensures r.None? <==> forall d | d in dependencies :: d.name != name
  {
    if dependencies == [] then None
    else
      var d := dependencies[|dependencies| - 1];
      assert dependencies == dependencies[..|dependencies| - 1] + [d];
      if d.name == name then Some(d) else DependencyNamed(dependencies[..|dependencies| - 1], name)
  }

  /** A journey of this id and class that no later one of the id follows. */
  ghost predicate Stands(journeys: seq<Journey>, id: string, cls: string) {
    exists i | 0 <= i < |journeys| :: journeys[i].id == id && journeys[i].cls == cls && forall k | i < k < |journeys| :: journeys[k].id != id
  }

  lemma {:induction false} ClassOfIs(journeys: seq<Journey>, id: string, cls: string)
    ensures ClassOf(journeys, id) == Some(cls) <==> Stands(journeys, id, cls)
  {
    if journeys != [] {
      var n := |journeys| - 1;
      var rest := journeys[..n];
      assert journeys == rest + [journeys[n]];
      ClassOfIs(rest, id, cls);
      if journeys[n].id != id {
        StandsEarlier(journeys, id, cls);
      }
    }
  }

  lemma StandsEarlier(journeys: seq<Journey>, id: string, cls: string)
    requires journeys != [] && journeys[|journeys| - 1].id != id
    ensures Stands(journeys, id, cls) <==> Stands(journeys[..|journeys| - 1], id, cls)
  {
    var rest := journeys[..|journeys| - 1];
    assert forall i | 0 <= i < |rest| :: rest[i] == journeys[i];
    if Stands(rest, id, cls) {
      var i :| 0 <= i < |rest| && rest[i].id == id && rest[i].cls == cls && forall k | i < k < |rest| :: rest[k].id != id;
      assert journeys[i].id == id;
    }
  }

  /** The dependency of the name that no later one of the name follows. */
  ghost predicate InCard(dependencies: seq<Dependency>, name: string, d: Dependency) {
    d.name == name && exists i | 0 <= i < |dependencies| :: dependencies[i] == d && forall k | i < k < |dependencies| :: dependencies[k].name != name
  }

  lemma {:induction false} DependencyNamedIs(dependencies: seq<Dependency>, name: string, d: Dependency)
    ensures DependencyNamed(dependencies, name) == Some(d) <==> InCard(dependencies, name, d)
  {
    if dependencies != [] {
      var n := |dependencies| - 1;
      var rest := dependencies[..n];
      assert dependencies == rest + [dependencies[n]];
      DependencyNamedIs(rest, name, d);
      if dependencies[n].name != name {
        InCardEarlier(dependencies, name, d);
      }
    }
  }

  lemma InCardEarlier(dependencies: seq<Dependency>, name: string, d: Dependency)
    requires dependencies != [] && dependencies[|dependencies| - 1].name != name
    ensures InCard(dependencies, name, d) <==> InCard(dependencies[..|dependencies| - 1], name, d)
  {
    var rest := dependencies[..|dependencies| - 1];
    assert forall i | 0 <= i < |rest| :: rest[i] == dependencies[i];
    if InCard(rest, name, d) {
      var i :| 0 <= i < |rest| && rest[i] == d && forall k | i < k < |rest| :: rest[k].name != name;
      assert dependencies[i] == d;
    }
  }

  /** `order.index`. */
  function Rank(cls: string): nat {
    if cls == "C0" then 0 else if cls == "C1" then 1 else if cls == "C2" then 2 else if cls == "C3" then 3
    else if cls == "C4" then 4 else 5
  }

  // ---- a service card ------------------------------------------------------------------------

  /** The class some journey in force has. */
  ghost predicate InForce(journeys: seq<Journey>, cls: string) {
    exists j | j in journeys :: ClassOf(journeys, j.id) == Some(cls)
  }

  /** The class in force of the `i`-th journey's id. */
  function ClassAt(journeys: seq<Journey>, i: nat): (cls: string)
    requires i < |journeys|
    ensures InForce(journeys, cls)
  {
    ClassOf(journeys, journeys[i].id).value
  }

  /** Some journey in force has the class, and none has a more critical one. */
  ghost predicate IsHighest(journeys: seq<Journey>, cls: string) {
    InForce(journeys, cls) && forall i | 0 <= i < |journeys| :: Rank(cls) <= Rank(ClassAt(journeys, i))
  }

  /** The class is at least as critical as the other one. */
  predicate AsCritical(cls: string, other: string) {
    && (other == "C0" ==> cls == "C0")
    && (other == "C1" ==> cls in {"C0", "C1"})
    && (other == "C2" ==> cls in {"C0", "C1", "C2"})
    && (other == "C3" ==> cls in {"C0", "C1", "C2", "C3"})
    && (other == "C4" ==> cls in {"C0", "C1", "C2", "C3", "C4"})
  }

  /** A journey that counts has the class, and none that counts is more critical. */
  ghost predicate OperatedTo(journeys: seq<Journey>, cls: string) {
    && (exists id :: Stands(journeys, id, cls))
    && forall id, other | Stands(journeys, id, other) :: AsCritical(cls, other)
  }

  lemma RankIsCriticality(cls: string, other: string)
    ensures Rank(cls) <= Rank(other) <==> AsCritical(cls, other)
  {
  }

  lemma InForceIff(journeys: seq<Journey>, cls: string)
    ensures InForce(journeys, cls) <==> exists id :: Stands(journeys, id, cls)
  {
    hide ClassOf, Stands;
    if InForce(journeys, cls) {
      var j :| j in journeys && ClassOf(journeys, j.id) == Some(cls);
      ClassOfIs(journeys, j.id, cls);
    }
    if id :| Stands(journeys, id, cls) {
      ClassOfIs(journeys, id, cls);
    }
  }

  lemma OperatedToIff(journeys: seq<Journey>, cls: string)
    ensures IsHighest(journeys, cls) <==> OperatedTo(journeys, cls)
  {
    hide ClassOf, Rank, InForce, AsCritical, Stands;
    InForceIff(journeys, cls);
    if IsHighest(journeys, cls) {
      forall id, other | Stands(journeys, id, other) ensures AsCritical(cls, other) {
        ClassOfIs(journeys, id, other);
        var i :| 0 <= i < |journeys| && journeys[i].id == id;
        assert ClassAt(journeys, i) == other;
        RankIsCriticality(cls, other);
      }
    }
    if OperatedTo(journeys, cls) {
      forall i | 0 <= i < |journeys| ensures Rank(cls) <= Rank(ClassAt(journeys, i)) {
        ClassOfIs(journeys, journeys[i].id, ClassAt(journeys, i));
        RankIsCriticality(cls, ClassAt(journeys, i));
      }
    }
  }

  predicate OnC0Path(journeys: seq<Journey>, d: Dependency) {
    exists jid | jid in d.synchronousOn :: ClassOf(journeys, jid) == Some("C0")
  }

  predicate NamesUnknown(journeys: seq<Journey>, d: Dependency) {
    exists jid | jid in d.synchronousOn :: ClassOf(journeys, jid).None?
  }

  /** What each complaint about a dependency of a card means. */
  predicate BadDependency(journeys: seq<Journey>, d: Dependency, problem: Problem) {
    match problem
    case UnknownJourney => NamesUnknown(journeys, d)
    case ForbiddenCall => OnC0Path(journeys, d) && d.kind in C0_FORBIDDEN_SYNC
    case NotFailClosed => OnC0Path(journeys, d) && d.kind in C0_FAIL_CLOSED && d.onFailure != "fail_closed"
    case _ => false
  }

  ghost predicate CardUnsound(c: Document, problem: Problem)
    requires c.body.Criticality?
  {
    match problem
    case ClassNotHighest => !IsHighest(c.body.journeys, c.body.cls)
    case DuplicateDependency => !Orders.Distinct(Names(c.body.dependencies))
    case _ => exists d | d in c.body.dependencies :: BadDependency(c.body.journeys, d, problem)
  }

  function Names(dependencies: seq<Dependency>): (names: seq<string>)
    ensures |names| == |dependencies| && forall i | 0 <= i < |names| :: names[i] == dependencies[i].name
  {
    seq(|dependencies|, i requires 0 <= i < |dependencies| => dependencies[i].name)
  }

  /** A journey that counts and is C0 calls the dependency synchronously. */
  ghost predicate CalledFromC0(journeys: seq<Journey>, d: Dependency) {
    exists id | id in d.synchronousOn :: Stands(journeys, id, "C0")
  }

  /** The dependency names known journeys only; from a C0 one it is no model gateway, authority, content plane
      or geocoder, and a database, a key service, a secret store or an object store fails closed. */
  ghost predicate DependencySound(journeys: seq<Journey>, d: Dependency) {
    && (forall id | id in d.synchronousOn :: exists j | j in journeys :: j.id == id)
    && (CalledFromC0(journeys, d) ==>
          && d.kind !in {"model_gateway", "authority", "content_plane", "geocoder"}
          && (d.kind in {"database", "kms", "secrets", "object_store"} ==> d.onFailure == "fail_closed"))
  }

  /** A service is operated to its most critical journey, no two dependencies share a name, and each is sound. */
  ghost predicate CardSound(c: Document)
    requires c.body.Criticality?
  {
    var deps := c.body.dependencies;
    && OperatedTo(c.body.journeys, c.body.cls)
    && (forall i, j | 0 <= i < j < |deps| :: deps[i].name != deps[j].name)
    && forall d | d in deps :: DependencySound(c.body.journeys, d)
  }

  lemma CalledFromC0Iff(journeys: seq<Journey>, d: Dependency)
    ensures OnC0Path(journeys, d) <==> CalledFromC0(journeys, d)
  {
    hide ClassOf, Stands;
    forall id ensures ClassOf(journeys, id) == Some("C0") <==> Stands(journeys, id, "C0") {
      ClassOfIs(journeys, id, "C0");
    }
  }

  lemma DependencySoundIff(journeys: seq<Journey>, d: Dependency)
    ensures (forall p :: !BadDependency(journeys, d, p)) <==> DependencySound(journeys, d)
  {
    hide ClassOf, OnC0Path, CalledFromC0;
    CalledFromC0Iff(journeys, d);
    if forall p :: !BadDependency(journeys, d, p) {
      assert !BadDependency(journeys, d, UnknownJourney) && !BadDependency(journeys, d, ForbiddenCall)
          && !BadDependency(journeys, d, NotFailClosed);
    }
  }

  lemma CardSoundIff(c: Document)
    requires c.body.Criticality?
    ensures (forall p :: !CardUnsound(c, p)) <==> CardSound(c)
  {
    hide IsHighest, OperatedTo, BadDependency, DependencySound;
    NoOtherBadDependency(c);
    OperatedToIff(c.body.journeys, c.body.cls);
    if forall p :: !CardUnsound(c, p) {
      assert !CardUnsound(c, ClassNotHighest) && !CardUnsound(c, DuplicateDependency);
      forall d | d in c.body.dependencies ensures DependencySound(c.body.journeys, d) {
        forall p ensures !BadDependency(c.body.journeys, d, p) {
          assert !CardUnsound(c, p);
        }
        DependencySoundIff(c.body.journeys, d);
      }
    }
    if CardSound(c) {
      forall d | d in c.body.dependencies ensures forall p :: !BadDependency(c.body.journeys, d, p) {
        DependencySoundIff(c.body.journeys, d);
      }
    }
  }

  /** `min((j["class"] for j in journeys.values()), key=order.index)`; the schema asks for a journey. */
  method Highest(journeys: seq<Journey>) returns (highest: string)
    requires journeys != []
    ensures IsHighest(journeys, highest)
  {
    hide Rank, ClassOf, InForce;
    highest := ClassAt(journeys, 0);
    for i := 1 to |journeys|
      invariant InForce(journeys, highest) && forall k | 0 <= k < i :: Rank(highest) <= Rank(ClassAt(journeys, k))
    {
      var cls := ClassAt(journeys, i);
      if Rank(cls) < Rank(highest) {
        highest := cls;
      }
    }
  }

  method DependencyProblems(journeys: seq<Journey>, d: Dependency) returns (found: seq<Problem>)
    ensures forall p :: p in found <==> BadDependency(journeys, d, p)
  {
    hide ClassOf;
    found := [];
    for i := 0 to |d.synchronousOn|
      invariant forall p :: p in found <==>
                  || (p == UnknownJourney && exists k | 0 <= k < i :: ClassOf(journeys, d.synchronousOn[k]).None?)
                  || (p == ForbiddenCall && d.kind in C0_FORBIDDEN_SYNC
                        && exists k | 0 <= k < i :: ClassOf(journeys, d.synchronousOn[k]) == Some("C0"))
    {
      var cls := ClassOf(journeys, d.synchronousOn[i]);
      if cls.None? {
        found := found + [UnknownJourney];
      } else if cls.value == "C0" && d.kind in C0_FORBIDDEN_SYNC {
        found := found + [ForbiddenCall];
      }
    }
    found := found + Complain(d.onFailure != "fail_closed" && OnC0Path(journeys, d) && d.kind in C0_FAIL_CLOSED, NotFailClosed);
  }

  method AllDependencyProblems(c: Document) returns (found: seq<Problem>)
    requires c.body.Criticality?
    ensures forall p :: p in found <==> exists d | d in c.body.dependencies :: BadDependency(c.body.journeys, d, p)
  {
    hide BadDependency;
    found := [];
    for i := 0 to |c.body.dependencies|
      invariant forall p :: p in found <==> exists k | 0 <= k < i :: BadDependency(c.body.journeys, c.body.dependencies[k], p)
    {
      var more := DependencyProblems(c.body.journeys, c.body.dependencies[i]);
      found := found + more;
    }
  }

  /** What the schema asks of a card and the gate relies on: journeys, with classes it can rank. */
  predicate CardShaped(c: Document)
    requires c.body.Criticality?
  {
    c.body.journeys != [] && forall j | j in c.body.journeys :: j.cls in {"C0", "C1", "C2", "C3", "C4"}
  }

  method CardProblems(c: Document) returns (found: seq<Problem>)
    requires c.body.Criticality? && CardShaped(c)
    ensures forall p :: p in found <==> CardUnsound(c, p)
  {
    hide Rank, IsHighest, BadDependency, Orders.Distinct;
    RanksAreLow(c.body.journeys);
    var highest := Highest(c.body.journeys);
    HighestIsTheClass(c.body.journeys, highest, c.body.cls);
    var names := Names(c.body.dependencies);
    DistinctIsUnrepeated(names);
    found := Complain(c.body.cls != highest, ClassNotHighest)
           + Complain(|names| != |set n | n in names|, DuplicateDependency);
    var more := AllDependencyProblems(c);
    found := found + more;
    NoOtherBadDependency(c);
  }

  lemma RanksAreLow(journeys: seq<Journey>)
    requires forall j | j in journeys :: j.cls in {"C0", "C1", "C2", "C3", "C4"}
    ensures forall j | j in journeys :: Rank(j.cls) < 5
  {
  }

  lemma DistinctIsUnrepeated(names: seq<string>)
    ensures |names| != |set n | n in names| <==> !Orders.Distinct(names)
  {
    Orders.RepeatsShrinkTheSet(names);
  }

  lemma NoOtherBadDependency(c: Document)
    requires c.body.Criticality?
    ensures forall d :: !BadDependency(c.body.journeys, d, ClassNotHighest) && !BadDependency(c.body.journeys, d, DuplicateDependency)
  {
  }

  lemma {:induction false} ClassesInForce(journeys: seq<Journey>, id: string)
    requires ClassOf(journeys, id).Some?
    ensures exists j | j in journeys :: j.cls == ClassOf(journeys, id).value
  {
    var j := journeys[|journeys| - 1];
    assert journeys == journeys[..|journeys| - 1] + [j];
    if j.id == id {
    } else {
      ClassesInForce(journeys[..|journeys| - 1], id);
    }
  }

  /** Ranks tell the classes apart, so a class is the highest exactly when it is the minimum found. */
  lemma HighestIsTheClass(journeys: seq<Journey>, highest: string, cls: string)
    requires forall j | j in journeys :: Rank(j.cls) < 5
    requires IsHighest(journeys, highest)
    ensures IsHighest(journeys, cls) <==> cls == highest
  {
    hide ClassOf, Rank;
    if IsHighest(journeys, cls) {
      ClassRankAt(journeys, cls, highest);
      ClassRankAt(journeys, highest, cls);
      SameRank(cls, highest);
    }
  }

  lemma SameRank(a: string, b: string)
    requires Rank(a) == Rank(b) < 5
    ensures a == b
  {
  }

  lemma ClassRankAt(journeys: seq<Journey>, cls: string, highest: string)
    requires forall j | j in journeys :: Rank(j.cls) < 5
    requires InForce(journeys, cls) && IsHighest(journeys, highest)
    ensures Rank(highest) <= Rank(cls) < 5
  {
    hide ClassOf, Rank;
    var j :| j in journeys && ClassOf(journeys, j.id) == Some(cls);
    ClassesInForce(journeys, j.id);
    var i :| 0 <= i < |journeys| && journeys[i] == j;
    assert ClassAt(journeys, i) == cls;
  }

  // ---- a resilience profile -----------------------------------------------------------------

  predicate Stated(r: Document, name: string)
    requires r.body.Resilience?
  {
    exists f | f in r.body.failures :: f.dependency == name
  }

  /** A dependency some journey calls synchronously whose failure a C0 profile must state. */
  predicate MustBeStated(d: Dependency) { d.synchronousOn != [] && d.kind in C0_STATED }

  /** The card declares the dependency, with the same behaviour. */
  ghost predicate Declared(card: Document, f: Failure)
    requires card.body.Criticality?
  {
    exists d :: InCard(card.body.dependencies, f.dependency, d) && d.onFailure == f.behavior
  }

  predicate FailureWrong(card: Document, f: Failure, problem: Problem)
    requires card.body.Criticality?
  {
    var d := DependencyNamed(card.body.dependencies, f.dependency);
    match problem
    case UndeclaredDependency => d.None?
    case BehaviorDiffers => d.Some? && d.value.onFailure != f.behavior
    case _ => false
  }

  /** What each C0 complaint about a profile means. */
  predicate RecoveryWrong(r: Document, card: Document, problem: Problem)
    requires r.body.Resilience? && card.body.Criticality?
  {
    match problem
    case ZonesBelowThree => r.body.zonesMin < 3
    case RpoAbove => Seconds(r.body.rpo) > C0_MAX_RPO_S
    case RtoAbove => Seconds(r.body.rto) > C0_MAX_RTO_S
    case EvidenceLost => Seconds(r.body.evidenceRpo) != 0
    case FailureUnstated => exists d | d in card.body.dependencies :: MustBeStated(d) && !Stated(r, d.name)
    case _ => false
  }

  /** Without a card the rest is not looked at. */
  predicate ResilienceUnsound(r: Document, card: Option<Document>, problem: Problem)
    requires r.body.Resilience? && (card.Some? ==> card.value.body.Criticality?)
  {
    if card.None? then problem == NoCriticality
    else
      || (exists f | f in r.body.failures :: FailureWrong(card.value, f, problem))
      || (r.body.cls == "C0" && RecoveryWrong(r, card.value, problem))
  }

  /** The profile agrees with its service's card, and a C0 one meets the recovery objectives and states
      every synchronous store's failure. */
  ghost predicate ResilienceSound(r: Document, card: Option<Document>)
    requires r.body.Resilience? && (card.Some? ==> card.value.body.Criticality?)
  {
    && card.Some?
    && (forall f | f in r.body.failures :: Declared(card.value, f))
    && (r.body.cls == "C0" ==>
          && r.body.zonesMin >= 3 && Seconds(r.body.rpo) <= 60 && Seconds(r.body.rto) <= 900
          && Seconds(r.body.evidenceRpo) == 0
          && forall d | d in card.value.body.dependencies && d.synchronousOn != [] && d.kind in {"database", "kms", "object_store"} ::
               exists f | f in r.body.failures :: f.dependency == d.name)
  }

  lemma RecoveryRightIff(r: Document, card: Document)
    requires r.body.Resilience? && card.body.Criticality?
    ensures (forall p :: !RecoveryWrong(r, card, p)) <==>
      && r.body.zonesMin >= 3 && Seconds(r.body.rpo) <= 60 && Seconds(r.body.rto) <= 900
      && Seconds(r.body.evidenceRpo) == 0
      && forall d | d in card.body.dependencies && d.synchronousOn != [] && d.kind in {"database", "kms", "object_store"} ::
           exists f | f in r.body.failures :: f.dependency == d.name
  {
    hide Seconds;
    if forall p :: !RecoveryWrong(r, card, p) {
      assert !RecoveryWrong(r, card, ZonesBelowThree) && !RecoveryWrong(r, card, RpoAbove) && !RecoveryWrong(r, card, RtoAbove)
          && !RecoveryWrong(r, card, EvidenceLost) && !RecoveryWrong(r, card, FailureUnstated);
    }
  }

  lemma FailureRightIff(card: Document, f: Failure)
    requires card.body.Criticality?
    ensures (forall p :: !FailureWrong(card, f, p)) <==> Declared(card, f)
  {
    hide DependencyNamed, InCard;
    var deps := card.body.dependencies;
    forall d ensures DependencyNamed(deps, f.dependency) == Some(d) <==> InCard(deps, f.dependency, d) {
      DependencyNamedIs(deps, f.dependency, d);
    }
    if forall p :: !FailureWrong(card, f, p) {
      assert !FailureWrong(card, f, UndeclaredDependency) && !FailureWrong(card, f, BehaviorDiffers);
    }
  }

  lemma ResilienceSoundIff(r: Document, card: Option<Document>)
    requires r.body.Resilience? && (card.Some? ==> card.value.body.Criticality?)
    ensures (forall p :: !ResilienceUnsound(r, card, p)) <==> ResilienceSound(r, card)
  {
    hide Seconds, FailureWrong, RecoveryWrong, Declared, MustBeStated, Stated;
    if card.None? {
      assert ResilienceUnsound(r, card, NoCriticality);
    } else {
      RecoveryRightIff(r, card.value);
      if forall p :: !ResilienceUnsound(r, card, p) {
        forall f | f in r.body.failures ensures Declared(card.value, f) {
          forall p ensures !FailureWrong(card.value, f, p) {
            assert !ResilienceUnsound(r, card, p);
          }
          FailureRightIff(card.value, f);
        }
        forall p ensures r.body.cls == "C0" ==> !RecoveryWrong(r, card.value, p) {
          assert !ResilienceUnsound(r, card, p);
        }
      }
      if ResilienceSound(r, card) {
        forall f | f in r.body.failures ensures forall p :: !FailureWrong(card.value, f, p) {
          FailureRightIff(card.value, f);
        }
      }
    }
  }

  method FailureProblems(r: Document, card: Document) returns (found: seq<Problem>)
    requires r.body.Resilience? && card.body.Criticality?
    ensures forall p :: p in found <==> exists f | f in r.body.failures :: FailureWrong(card, f, p)
  {
    hide DependencyNamed;
    found := [];
    for i := 0 to |r.body.failures|
      invariant forall p :: p in found <==> exists k | 0 <= k < i :: FailureWrong(card, r.body.failures[k], p)
    {
      var f := r.body.failures[i];
      var d := DependencyNamed(card.body.dependencies, f.dependency);
      var here := if d.None? then [UndeclaredDependency] else Complain(d.value.onFailure != f.behavior, BehaviorDiffers);
      assert forall p :: p in here <==> FailureWrong(card, f, p);
      found := found + here;
    }
  }

  method AnyUnstated(r: Document, card: Document) returns (any: bool)
    requires r.body.Resilience? && card.body.Criticality?
    ensures any <==> exists d | d in card.body.dependencies :: MustBeStated(d) && !Stated(r, d.name)
  {
    var stores := set d | d in card.body.dependencies && MustBeStated(d) :: d.name;
    var covered := set f | f in r.body.failures :: f.dependency;
    StoresCovered(r, card);
    return stores - covered != {};
  }

  method RecoveryProblems(r: Document, card: Document) returns (found: seq<Problem>)
    requires r.body.Resilience? && card.body.Criticality?
    ensures forall p :: p in found <==> RecoveryWrong(r, card, p)
  {
    hide Seconds, MustBeStated, Stated;
    var unstated := AnyUnstated(r, card);
    var numbers := RecoveryNumbers(r);
    found := numbers + Complain(unstated, FailureUnstated);
  }

  method RecoveryNumbers(r: Document) returns (found: seq<Problem>)
    requires r.body.Resilience?
    ensures forall p :: p in found <==>
              || (p == ZonesBelowThree && r.body.zonesMin < 3) || (p == RpoAbove && Seconds(r.body.rpo) > C0_MAX_RPO_S)
              || (p == RtoAbove && Seconds(r.body.rto) > C0_MAX_RTO_S) || (p == EvidenceLost && Seconds(r.body.evidenceRpo) != 0)
  {
    hide Seconds;
    found := Complain(r.body.zonesMin < 3, ZonesBelowThree)
           + Complain(Seconds(r.body.rpo) > C0_MAX_RPO_S, RpoAbove)
           + Complain(Seconds(r.body.rto) > C0_MAX_RTO_S, RtoAbove)
           + Complain(Seconds(r.body.evidenceRpo) != 0, EvidenceLost);
  }

  lemma StoresCovered(r: Document, card: Document)
    requires r.body.Resilience? && card.body.Criticality?
    ensures
      var stores := set d | d in card.body.dependencies && MustBeStated(d) :: d.name;
      var covered := set f | f in r.body.failures :: f.dependency;
      stores - covered != {} <==> exists d | d in card.body.dependencies :: MustBeStated(d) && !Stated(r, d.name)
  {
    var stores := set d | d in card.body.dependencies && MustBeStated(d) :: d.name;
    var covered := set f | f in r.body.failures :: f.dependency;
    if stores - covered != {} {
      var name :| name in stores - covered;
      var d :| d in card.body.dependencies && MustBeStated(d) && d.name == name;
      assert !Stated(r, d.name);
    }
    if d :| d in card.body.dependencies && MustBeStated(d) && !Stated(r, d.name) {
      assert d.name in stores - covered;
    }
  }

  method ResilienceProblems(r: Document, card: Option<Document>) returns (found: seq<Problem>)
    requires r.body.Resilience? && (card.Some? ==> card.value.body.Criticality?)
    ensures forall p :: p in found <==> ResilienceUnsound(r, card, p)
  {
    hide FailureWrong, RecoveryWrong;
    if card.None? {
      return [NoCriticality];
    }
    found := FailureProblems(r, card.value);
    if r.body.cls == "C0" {
      var more := RecoveryProblems(r, card.value);
      found := found + more;
    }
  }
}
