/** The cross-document gate over a schema-valid NFR corpus: what an empty finding list means. */
module NfrGate {
  import opened Options
  import opened NfrDocuments
  import opened NfrServices
  import Pointers

  // ---- duplicates ----------------------------------------------------------------------

  ghost predicate EarlierTwin(docs: seq<Document>, i: nat)
    requires i < |docs|
  {
    exists k | 0 <= k < i :: KindOf(docs[k]) == KindOf(docs[i]) && docs[k].id == docs[i].id
  }

  method DuplicateErrors(docs: seq<Document>) returns (errors: seq<Finding>)
    ensures errors == [] <==> UniqueIds(docs)
    ensures forall f :: f in errors <==> f.problem == DuplicateId && exists i | 0 <= i < |docs| :: f.rel == docs[i].rel && EarlierTwin(docs, i)
  {
    hide KindOf, UniqueIds;
    var seen: set<(Kind, string)> := {};
    errors := [];
    for i := 0 to |docs|
      invariant seen == set k | 0 <= k < i :: (KindOf(docs[k]), docs[k].id)
      invariant errors == [] <==> forall k | 0 <= k < i :: !EarlierTwin(docs, k)
      invariant forall f :: f in errors <==> f.problem == DuplicateId && exists k | 0 <= k < i :: f.rel == docs[k].rel && EarlierTwin(docs, k)
    {
      var key := (KindOf(docs[i]), docs[i].id);
      assert key in seen <==> EarlierTwin(docs, i);
      errors := errors + About(docs[i].rel, Complain(key in seen, DuplicateId));
      seen := seen + {key};
    }
    UniqueIffNoTwin(docs);
  }

  lemma UniqueIffNoTwin(docs: seq<Document>)
    ensures UniqueIds(docs) <==> forall i | 0 <= i < |docs| :: !EarlierTwin(docs, i)
  {
    hide KindOf;
    if forall i | 0 <= i < |docs| :: !EarlierTwin(docs, i) {
      forall i, j | 0 <= i < j < |docs| && KindOf(docs[i]) == KindOf(docs[j]) ensures docs[i].id != docs[j].id {
        assert !EarlierTwin(docs, j);
      }
    }
  }

  // ---- one SLO -------------------------------------------------------------------------

  predicate ClassListed(card: Option<Document>, cls: string) {
    card.Some? && card.value.body.Criticality? && exists j | j in card.value.body.journeys :: j.cls == cls
  }

  predicate FitsObjective(objective: Objective, measurement: Measurement) {
    match objective
    case RatioTarget(_) => measurement.Ratio?
    case LatencyBound(_, _) => measurement.Distribution?
    case Zero => measurement.Count?
  }

  predicate FineWindows(b: Burn, window: string) {
    Seconds(b.short) < Seconds(b.long) <= Seconds(window)
  }

  /** A card of the service is there, and one of its journeys has the class. */
  ghost predicate CardHasClass(card: Option<Document>, cls: string) {
    card.Some? && card.value.body.Criticality?
    && exists i :: 0 <= i < |card.value.body.journeys| && card.value.body.journeys[i].cls == cls
  }

  /** Ratio objectives alert on burn rate, over proper windows; the others hold for a while and do not. */
  predicate FineAlerts(o: Document)
    requires o.body.Slo?
  {
    && (o.body.objective.RatioTarget? <==> o.body.burns.Some? && o.body.burns.value != [])
    && (!o.body.objective.RatioTarget? ==> o.body.hold.Some?)
    && (o.body.burns.Some? ==> forall b | b in o.body.burns.value :: FineWindows(b, o.body.window))
  }

  predicate FineSli(o: Document, s: Document)
    requires o.body.Slo?
  {
    && s.body.Sli? && s.body.service == o.body.service
    && (o.body.objective.RatioTarget? <==> s.body.measurement.Ratio?)
    && (o.body.objective.LatencyBound? <==> s.body.measurement.Distribution?)
    && (o.body.objective.LatencyBound? ==> s.body.family == "latency")
    && (o.body.approved ==> s.body.instrumented)
  }

  predicate FineProfile(o: Document, p: Document)
    requires o.body.Slo?
  {
    && p.body.Profile? && p.body.service == o.body.service
    && (o.body.approved ==> p.body.status == ApprovedProfile)
  }

  predicate FineThreshold(o: Document, p: Document)
    requires o.body.Slo?
  {
    (o.body.objective.LatencyBound? && o.body.objective.percentile == 99.0 && p.body.Profile?) ==>
      o.body.objective.ms in {p.body.p99, p.body.single99}
  }

  // What each complaint about an SLO means.

  predicate CardBroken(o: Document, card: Option<Document>, problem: Problem)
    requires o.body.Slo?
  {
    match problem
    case NoCriticality => card.None?
    case NoSuchJourneyClass => card.Some? && !ClassListed(card, o.body.cls)
    case _ => false
  }

  predicate SliBroken(o: Document, s: Document, problem: Problem)
    requires o.body.Slo? && s.body.Sli?
  {
    match problem
    case SliElsewhere => s.body.service != o.body.service
    case WrongMeasurement => !FitsObjective(o.body.objective, s.body.measurement)
    case NotLatencyFamily => o.body.objective.LatencyBound? && s.body.family != "latency"
    case NotInstrumented => o.body.approved && !s.body.instrumented
    case _ => false
  }

  predicate AlertBroken(o: Document, problem: Problem)
    requires o.body.Slo?
  {
    match problem
    case NoBurnRates => o.body.objective.RatioTarget? && Burns(o) == []
    case BurnRatesMisplaced => !o.body.objective.RatioTarget? && Burns(o) != []
    case NoHold => !o.body.objective.RatioTarget? && o.body.hold.None?
    case ShortNotShorter => exists b | b in Burns(o) :: Seconds(b.short) >= Seconds(b.long)
    case LongExceedsWindow => exists b | b in Burns(o) :: Seconds(b.long) > Seconds(o.body.window)
    case _ => false
  }

  predicate ProfileBroken(o: Document, profile: Option<Document>, problem: Problem)
    requires o.body.Slo? && (profile.Some? ==> profile.value.body.Profile?)
  {
    match problem
    case NoProfile => Given(o.body.profileRef) && profile.None?
    case ProfileElsewhere => profile.Some? && profile.value.body.service != o.body.service
    case ProfileNotApproved => o.body.approved && profile.Some? && profile.value.body.status != ApprovedProfile
    case _ => false
  }

  /** Without an SLI the rest is not looked at. */
  predicate Broken(o: Document, card: Option<Document>, sli: Option<Document>, profile: Option<Document>, problem: Problem)
    requires o.body.Slo? && (sli.Some? ==> sli.value.body.Sli?) && (profile.Some? ==> profile.value.body.Profile?)
  {
    || CardBroken(o, card, problem)
    || (sli.None? && problem == NoSli)
    || (sli.Some? && (SliBroken(o, sli.value, problem) || AlertBroken(o, problem) || ProfileBroken(o, profile, problem)))
  }

  method SloProblems(o: Document, card: Option<Document>, sli: Option<Document>, profile: Option<Document>)
      returns (found: seq<Problem>)
    requires o.body.Slo? && (card.Some? ==> card.value.body.Criticality?)
    requires (sli.Some? ==> sli.value.body.Sli?) && (profile.Some? ==> profile.value.body.Profile?)
    requires profile.Some? ==> Given(o.body.profileRef)
    ensures forall p :: p in found <==> Broken(o, card, sli, profile, p)
  {
    hide SliBroken, AlertBroken, ProfileBroken;
    found := if card.None? then [NoCriticality] else Complain(!ClassListed(card, o.body.cls), NoSuchJourneyClass);
    if sli.None? {
      found := found + [NoSli];
      return;
    }
    var asSli := SliProblems(o, sli.value);
    var asAlerts := AlertProblems(o);
    var asProfile := ProfileRefProblems(o, profile);
    found := found + asSli + asAlerts + asProfile;
  }

  method SliProblems(o: Document, s: Document) returns (found: seq<Problem>)
    requires o.body.Slo? && s.body.Sli?
    ensures forall p :: p in found <==> SliBroken(o, s, p)
  {
    found := Complain(s.body.service != o.body.service, SliElsewhere)
           + Complain(!FitsObjective(o.body.objective, s.body.measurement), WrongMeasurement)
           + Complain(o.body.objective.LatencyBound? && s.body.family != "latency", NotLatencyFamily)
           + Complain(o.body.approved && !s.body.instrumented, NotInstrumented);
  }

  method AlertProblems(o: Document) returns (found: seq<Problem>)
    requires o.body.Slo?
    ensures forall p :: p in found <==> AlertBroken(o, p)
  {
    hide Seconds;
    var ratio := o.body.objective.RatioTarget?;
    found := Complain(ratio && Burns(o) == [], NoBurnRates)
           + Complain(!ratio && Burns(o) != [], BurnRatesMisplaced)
           + Complain(!ratio && o.body.hold.None?, NoHold);
    var windows := WindowProblems(o);
    found := found + windows;
  }

  method ProfileRefProblems(o: Document, profile: Option<Document>) returns (found: seq<Problem>)
    requires o.body.Slo? && (profile.Some? ==> profile.value.body.Profile?)
    ensures forall p :: p in found <==> ProfileBroken(o, profile, p)
  {
    found := Complain(Given(o.body.profileRef) && profile.None?, NoProfile)
           + Complain(profile.Some? && profile.value.body.service != o.body.service, ProfileElsewhere)
           + Complain(o.body.approved && profile.Some? && profile.value.body.status != ApprovedProfile, ProfileNotApproved);
  }

  lemma SliFineIff(o: Document, s: Document)
    requires o.body.Slo? && s.body.Sli?
    ensures (forall p :: !SliBroken(o, s, p)) <==> FineSli(o, s)
  {
    assert SliBroken(o, s, SliElsewhere) || SliBroken(o, s, WrongMeasurement) || SliBroken(o, s, NotLatencyFamily)
        || SliBroken(o, s, NotInstrumented) || FineSli(o, s);
  }

  lemma AlertsFineIff(o: Document)
    requires o.body.Slo?
    ensures (forall p :: !AlertBroken(o, p)) <==> FineAlerts(o)
  {
    hide Seconds;
    assert AlertBroken(o, NoBurnRates) || AlertBroken(o, BurnRatesMisplaced) || AlertBroken(o, NoHold)
        || AlertBroken(o, ShortNotShorter) || AlertBroken(o, LongExceedsWindow) || FineAlerts(o);
  }

  lemma ProfileFineIff(o: Document, profile: Option<Document>)
    requires o.body.Slo? && (profile.Some? ==> profile.value.body.Profile? && Given(o.body.profileRef))
    ensures (forall p :: !ProfileBroken(o, profile, p))
      <==> (Given(o.body.profileRef) ==> profile.Some? && FineProfile(o, profile.value))
  {
    assert ProfileBroken(o, profile, NoProfile) || ProfileBroken(o, profile, ProfileElsewhere)
        || ProfileBroken(o, profile, ProfileNotApproved)
        || (Given(o.body.profileRef) ==> profile.Some? && FineProfile(o, profile.value));
  }

  lemma CardFineIff(o: Document, card: Option<Document>)
    requires o.body.Slo? && (card.Some? ==> card.value.body.Criticality?)
    ensures (forall p :: !CardBroken(o, card, p)) <==> ClassListed(card, o.body.cls)
  {
    assert CardBroken(o, card, NoCriticality) || CardBroken(o, card, NoSuchJourneyClass) || ClassListed(card, o.body.cls);
  }

  /** An SLO draws no complaint exactly when it is fine by its card, its SLI and its profile. */
  lemma UnbrokenIsFine(o: Document, card: Option<Document>, sli: Option<Document>, profile: Option<Document>)
    requires o.body.Slo? && (card.Some? ==> card.value.body.Criticality?)
    requires (sli.Some? ==> sli.value.body.Sli?) && (profile.Some? ==> profile.value.body.Profile?)
    requires profile.Some? ==> Given(o.body.profileRef)
    ensures (forall p :: !Broken(o, card, sli, profile, p)) <==>
      && ClassListed(card, o.body.cls) && FineAlerts(o)
      && sli.Some? && FineSli(o, sli.value)
      && (Given(o.body.profileRef) ==> profile.Some? && FineProfile(o, profile.value))
  {
    hide CardBroken, SliBroken, AlertBroken, ProfileBroken, FineAlerts, FineSli, FineProfile, ClassListed;
    CardFineIff(o, card);
    AlertsFineIff(o);
    ProfileFineIff(o, profile);
    if sli.Some? {
      SliFineIff(o, sli.value);
    } else {
      assert Broken(o, card, sli, profile, NoSli);
    }
    if forall p :: !Broken(o, card, sli, profile, p) {
      forall p ensures !CardBroken(o, card, p) && !SliBroken(o, sli.value, p) && !AlertBroken(o, p) && !ProfileBroken(o, profile, p) {
        assert !Broken(o, card, sli, profile, p);
      }
    }
  }

  method WindowProblems(o: Document) returns (found: seq<Problem>)
    requires o.body.Slo?
    ensures forall p :: p in found <==> BadWindow(o, Burns(o), p)
  {
    hide Seconds;
    found := [];
    for i := 0 to |Burns(o)|
      invariant forall p :: p in found <==> BadWindow(o, Burns(o)[..i], p)
    {
      var b := Burns(o)[i];
      assert Burns(o)[..i + 1] == Burns(o)[..i] + [b];
      found := found + Complain(Seconds(b.short) >= Seconds(b.long), ShortNotShorter)
                     + Complain(Seconds(b.long) > Seconds(o.body.window), LongExceedsWindow);
    }
    assert Burns(o)[..|Burns(o)|] == Burns(o);
  }

  predicate BadWindow(o: Document, burns: seq<Burn>, problem: Problem)
    requires o.body.Slo?
  {
    match problem
    case ShortNotShorter => exists b | b in burns :: Seconds(b.short) >= Seconds(b.long)
    case LongExceedsWindow => exists b | b in burns :: Seconds(b.long) > Seconds(o.body.window)
    case _ => false
  }

  // ---- one CapacityProfile ---------------------------------------------------------------

  predicate Resolves(p: Document, pointer: string)
    requires p.body.Profile?
  {
    Pointers.Walk(p.body.data, Pointers.Tokens(pointer)).Some?
  }

  /** A measured or approved profile has no placeholders and a benchmark; its numbers are in order. */
  predicate ProfileSound(c: Document)
    requires c.body.Profile?
  {
    && (forall p | p in c.body.placeholders :: Resolves(c, p))
    && (c.body.status != Placeholder ==> c.body.placeholders == [] && c.body.benchmark.Some? && c.body.benchmark.value != "")
    && c.body.p95 < c.body.p99
    && c.body.replicasMin <= c.body.replicasMax
    && c.body.lines50 <= c.body.lines95 <= c.body.linesMax
    && (c.body.cls == "C0" && c.body.status != Placeholder ==> c.body.zones >= 3)
  }

  /** What each complaint about a profile means. */
  predicate Unsound(c: Document, problem: Problem)
    requires c.body.Profile?
  {
    match problem
    case DanglingPlaceholder => exists p | p in c.body.placeholders :: !Resolves(c, p)
    case PlaceholdersLeft => c.body.status != Placeholder && c.body.placeholders != []
    case NoBenchmark => c.body.status != Placeholder && !Given(c.body.benchmark)
    case P95NotBelow => c.body.p95 >= c.body.p99
    case ReplicaRange => c.body.replicasMax < c.body.replicasMin
    case LineCounts => !(c.body.lines50 <= c.body.lines95 <= c.body.linesMax)
    case TooFewZones => c.body.cls == "C0" && c.body.zones < 3 && c.body.status != Placeholder
    case _ => false
  }

  method PlaceholderProblems(c: Document) returns (found: seq<Problem>)
    requires c.body.Profile?
    ensures forall p :: p in found <==> p == DanglingPlaceholder && exists q | q in c.body.placeholders :: !Resolves(c, q)
  {
    hide Pointers.Walk, Pointers.Tokens;
    found := [];
    for i := 0 to |c.body.placeholders|
      invariant forall p :: p in found <==> p == DanglingPlaceholder && exists k | 0 <= k < i :: !Resolves(c, c.body.placeholders[k])
    {
      var resolved := Pointers.JsonPointer(c.body.data, c.body.placeholders[i]);
      found := found + Complain(!resolved, DanglingPlaceholder);
    }
  }

  method ProfileProblems(c: Document) returns (found: seq<Problem>)
    requires c.body.Profile?
    ensures forall p :: p in found <==> Unsound(c, p)
  {
    hide Resolves, Given;
    found := PlaceholderProblems(c);
    if c.body.status in {Measured, ApprovedProfile} {
      found := found + Complain(c.body.placeholders != [], PlaceholdersLeft) + Complain(!Given(c.body.benchmark), NoBenchmark);
    }
    var numbers := NumberProblems(c);
    found := found + numbers;
  }

  method NumberProblems(c: Document) returns (found: seq<Problem>)
    requires c.body.Profile?
    ensures forall p :: p in found <==> p in {P95NotBelow, ReplicaRange, LineCounts, TooFewZones} && Unsound(c, p)
  {
    found := Complain(c.body.p95 >= c.body.p99, P95NotBelow)
           + Complain(c.body.replicasMax < c.body.replicasMin, ReplicaRange)
           + Complain(!(c.body.lines50 <= c.body.lines95 <= c.body.linesMax), LineCounts)
           + Complain(c.body.cls == "C0" && c.body.zones < 3 && c.body.status != Placeholder, TooFewZones);
  }

  lemma UnsoundIff(c: Document)
    requires c.body.Profile?
    ensures (forall p :: !Unsound(c, p)) <==> ProfileSound(c)
  {
    hide Resolves;
    if forall p :: !Unsound(c, p) {
      assert !Unsound(c, DanglingPlaceholder) && !Unsound(c, PlaceholdersLeft) && !Unsound(c, NoBenchmark)
          && !Unsound(c, P95NotBelow) && !Unsound(c, ReplicaRange) && !Unsound(c, LineCounts) && !Unsound(c, TooFewZones);
    }
  }

  // ---- the gate --------------------------------------------------------------------------

  predicate IsIndicator(d: Document, id: string) { d.body.Sli? && d.id == id }
  predicate IsProfile(d: Document, id: string) { d.body.Profile? && d.id == id }

  /** What the gate asks of one SLO, said about the documents themselves. */
  ghost predicate SloHolds(docs: seq<Document>, o: Document)
    requires o.body.Slo?
  {
    && CardHasClass(LastCard(docs, o.body.service), o.body.cls)
    && FineAlerts(o)
    && (exists s | s in docs :: IsIndicator(s, o.body.sliRef) && FineSli(o, s))
    && (o.body.profileRef.Some? && o.body.profileRef.value != "" ==>
          exists p | p in docs :: IsProfile(p, o.body.profileRef.value) && FineProfile(o, p) && FineThreshold(o, p))
  }

  ghost predicate SliHolds(docs: seq<Document>, s: Document) {
    exists c | c in docs :: c.body.Criticality? && c.body.service == s.body.service
  }

  /** Every service's card in force is sound. Earlier cards for the same service are not looked at. */
  ghost predicate CardsHold(docs: seq<Document>) {
    forall service | LastCard(docs, service).Some? :: CardSound(LastCard(docs, service).value)
  }

  /** The corpus is sound: said about the documents themselves and the last card of each service. */
  ghost predicate Sound(docs: seq<Document>) {
    && UniqueIds(docs)
    && CardsHold(docs)
    && (forall s | s in docs && s.body.Sli? :: SliHolds(docs, s))
    && (forall o | o in docs && o.body.Slo? :: SloHolds(docs, o))
    && (forall c | c in docs && c.body.Profile? :: ProfileSound(c))
    && (forall r | r in docs && r.body.Resilience? :: ResilienceSound(r, LastCard(docs, r.body.service)))
  }

  /** Every card has its schema's shape. */
  ghost predicate CardsShaped(docs: seq<Document>) {
    forall c | c in docs && c.body.Criticality? :: CardShaped(c)
  }

  lemma KindsAreBodies(docs: seq<Document>)
    ensures forall d | d in Of(docs, Criticalities) :: d.body.Criticality?
    ensures forall d | d in Of(docs, Indicators) :: d.body.Sli?
    ensures forall d | d in Of(docs, Objectives) :: d.body.Slo?
    ensures forall d | d in Of(docs, Profiles) :: d.body.Profile?
    ensures forall d | d in Of(docs, Resiliences) :: d.body.Resilience?
  {
    OfHolds(docs, Criticalities);
    OfHolds(docs, Indicators);
    OfHolds(docs, Objectives);
    OfHolds(docs, Profiles);
    OfHolds(docs, Resiliences);
  }

  function SliFor(docs: seq<Document>, o: Document): Option<Document>
    requires o.body.Slo?
  {
    Lookup(Of(docs, Indicators), o.body.sliRef)
  }

  function ProfileFor(docs: seq<Document>, o: Document): Option<Document>
    requires o.body.Slo?
  {
    if Given(o.body.profileRef) then Lookup(Of(docs, Profiles), o.body.profileRef.value) else None
  }

  /** What the dictionaries say of one SLO. */
  ghost predicate SloClean(docs: seq<Document>, o: Document)
    requires o.body.Slo?
  {
    && ClassListed(CardFor(Of(docs, Criticalities), o.body.service), o.body.cls) && FineAlerts(o)
    && SliFor(docs, o).Some? && FineSli(o, SliFor(docs, o).value)
    && (Given(o.body.profileRef) ==>
          ProfileFor(docs, o).Some? && FineProfile(o, ProfileFor(docs, o).value) && FineThreshold(o, ProfileFor(docs, o).value))
  }

  lemma ClassListedIff(card: Option<Document>, cls: string)
    ensures ClassListed(card, cls) <==> CardHasClass(card, cls)
  {
    if CardHasClass(card, cls) {
      var i :| 0 <= i < |card.value.body.journeys| && card.value.body.journeys[i].cls == cls;
      assert card.value.body.journeys[i] in card.value.body.journeys;
    }
  }

  /** With unique ids, reading through the dictionaries is reading the documents. */
  lemma SloCleanIffHolds(docs: seq<Document>, o: Document)
    requires UniqueIds(docs) && o.body.Slo?
    ensures SloClean(docs, o) <==> SloHolds(docs, o)
  {
    ClassListedIff(LastCard(docs, o.body.service), o.body.cls);
    hide FineSli, FineProfile, FineThreshold, FineAlerts, ClassListed, CardHasClass, Of, UniqueIds, LastCard, CardFor;
    UniqueIdsCover(docs, Indicators);
    UniqueIdsCover(docs, Profiles);
    CardIsLast(docs, o.body.service);
    KindsAreBodies(docs);
    if SloClean(docs, o) {
      assert IsIndicator(SliFor(docs, o).value, o.body.sliRef);
      if Given(o.body.profileRef) {
        assert IsProfile(ProfileFor(docs, o).value, o.body.profileRef.value);
      }
    }
    if SloHolds(docs, o) {
      var s :| s in docs && IsIndicator(s, o.body.sliRef) && FineSli(o, s);
      assert KindOf(s) == Indicators;
      if Given(o.body.profileRef) {
        var p :| p in docs && IsProfile(p, o.body.profileRef.value) && FineProfile(o, p) && FineThreshold(o, p);
        assert KindOf(p) == Profiles;
      }
    }
  }

  method SliErrors(docs: seq<Document>) returns (errors: seq<Finding>)
    ensures errors == [] <==> forall s | s in Of(docs, Indicators) :: CardFor(Of(docs, Criticalities), s.body.service).Some?
  {
    var slis, crit := Of(docs, Indicators), Of(docs, Criticalities);
    errors := [];
    for i := 0 to |slis|
      invariant errors == [] <==> forall k | 0 <= k < i :: CardFor(crit, slis[k].body.service).Some?
    {
      errors := errors + About(slis[i].rel, Complain(CardFor(crit, slis[i].body.service).None?, NoCriticality));
    }
  }

  ghost predicate SloPasses(docs: seq<Document>, o: Document)
    requires o.body.Slo?
  {
    && ClassListed(CardFor(Of(docs, Criticalities), o.body.service), o.body.cls) && FineAlerts(o)
    && SliFor(docs, o).Some? && FineSli(o, SliFor(docs, o).value)
    && (Given(o.body.profileRef) ==> ProfileFor(docs, o).Some? && FineProfile(o, ProfileFor(docs, o).value))
  }

  ghost predicate ThresholdPasses(docs: seq<Document>, o: Document)
    requires o.body.Slo?
  {
    ProfileFor(docs, o).Some? ==> FineThreshold(o, ProfileFor(docs, o).value)
  }

  /** The complaint about an SLO, read through the dictionaries. */
  ghost predicate SloFinding(docs: seq<Document>, o: Document, f: Finding) {
    KindsAreBodies(docs);
    o.body.Slo? && f.rel == o.rel
    && Broken(o, CardFor(Of(docs, Criticalities), o.body.service), SliFor(docs, o), ProfileFor(docs, o), f.problem)
  }

  method AllSloErrors(docs: seq<Document>) returns (errors: seq<Finding>)
    ensures errors == [] <==> forall o | o in Of(docs, Objectives) :: o.body.Slo? && SloPasses(docs, o)
    ensures forall f :: f in errors <==> exists o | o in Of(docs, Objectives) :: SloFinding(docs, o, f)
  {
    hide SloPasses, FineAlerts, FineSli, FineProfile, Of, CardFor, ClassListed, Broken;
    var slos := Of(docs, Objectives);
    KindsAreBodies(docs);
    errors := [];
    for i := 0 to |slos|
      invariant errors == [] <==> forall k | 0 <= k < i :: slos[k].body.Slo? && SloPasses(docs, slos[k])
      invariant forall f :: f in errors <==> exists k | 0 <= k < i :: SloFinding(docs, slos[k], f)
    {
      var o := slos[i];
      assert o in slos && o.body.Slo?;
      var card, sli, profile := CardFor(Of(docs, Criticalities), o.body.service), SliFor(docs, o), ProfileFor(docs, o);
      var more := SloProblems(o, card, sli, profile);
      assert more != [] ==> more[0] in more;
      UnbrokenIsFine(o, card, sli, profile);
      SloPassesIs(docs, o);
      errors := errors + About(o.rel, more);
    }
  }

  lemma SloPassesIs(docs: seq<Document>, o: Document)
    requires o.body.Slo?
    ensures SloPasses(docs, o) <==>
      && ClassListed(CardFor(Of(docs, Criticalities), o.body.service), o.body.cls) && FineAlerts(o)
      && SliFor(docs, o).Some? && FineSli(o, SliFor(docs, o).value)
      && (Given(o.body.profileRef) ==> ProfileFor(docs, o).Some? && FineProfile(o, ProfileFor(docs, o).value))
  {
  }

  method ThresholdErrors(docs: seq<Document>) returns (errors: seq<Finding>)
    ensures errors == [] <==> forall o | o in Of(docs, Objectives) :: o.body.Slo? && ThresholdPasses(docs, o)
  {
    hide Of;
    var slos := Of(docs, Objectives);
    KindsAreBodies(docs);
    errors := [];
    for i := 0 to |slos|
      invariant errors == [] <==> forall k | 0 <= k < i :: slos[k].body.Slo? && ThresholdPasses(docs, slos[k])
    {
      var o := slos[i];
      assert o in slos && o.body.Slo?;
      var profile := ProfileFor(docs, o);
      if profile.Some? && o.body.objective.LatencyBound? {
        assert profile.value in Of(docs, Profiles);
        var unlisted := o.body.objective.ms !in {profile.value.body.p99, profile.value.body.single99};
        errors := errors + About(o.rel, Complain(o.body.objective.percentile == 99.0 && unlisted, ThresholdUnlisted));
      }
    }
  }

  method AllProfileErrors(docs: seq<Document>) returns (errors: seq<Finding>)
    ensures errors == [] <==> forall c | c in Of(docs, Profiles) :: c.body.Profile? && ProfileSound(c)
    ensures forall f :: f in errors <==> exists c | c in Of(docs, Profiles) :: c.body.Profile? && f.rel == c.rel && Unsound(c, f.problem)
  {
    hide ProfileSound, Of, Unsound;
    var profiles := Of(docs, Profiles);
    KindsAreBodies(docs);
    errors := [];
    for i := 0 to |profiles|
      invariant errors == [] <==> forall k | 0 <= k < i :: profiles[k].body.Profile? && ProfileSound(profiles[k])
      invariant forall f :: f in errors <==>
                  exists k | 0 <= k < i :: profiles[k].body.Profile? && f.rel == profiles[k].rel && Unsound(profiles[k], f.problem)
    {
      assert profiles[i] in profiles;
      var more := ProfileProblems(profiles[i]);
      assert more != [] ==> more[0] in more;
      UnsoundIff(profiles[i]);
      errors := errors + About(profiles[i].rel, more);
    }
  }

  /** What the gate sees of the cards. */
  ghost predicate CardsPass(docs: seq<Document>) {
    forall c | c in Cards(Of(docs, Criticalities)) :: c.body.Criticality? && CardSound(c)
  }

  ghost predicate ResiliencePasses(docs: seq<Document>, r: Document) {
    KindsAreBodies(docs);
    r.body.Resilience? && ResilienceSound(r, CardFor(Of(docs, Criticalities), r.body.service))
  }

  lemma CardsAreCards(docs: seq<Document>)
    requires CardsShaped(docs)
    ensures forall c | c in Cards(Of(docs, Criticalities)) :: c.body.Criticality? && CardShaped(c)
  {
    hide CardShaped, Of;
    OfHolds(docs, Criticalities);
    forall c | c in Cards(Of(docs, Criticalities)) ensures c.body.Criticality? && CardShaped(c) {
      assert CardFor(Of(docs, Criticalities), c.body.service) == Some(c);
      assert c in Of(docs, Criticalities) && c in docs && KindOf(c) == Criticalities;
    }
  }

  method CardErrors(cards: seq<Document>) returns (errors: seq<Finding>)
    requires forall c | c in cards :: c.body.Criticality? && CardShaped(c)
    ensures errors == [] <==> forall c | c in cards :: c.body.Criticality? && CardSound(c)
    ensures forall f :: f in errors <==> exists c | c in cards :: c.body.Criticality? && f.rel == c.rel && CardUnsound(c, f.problem)
  {
    hide CardSound, CardUnsound, CardShaped;
    errors := [];
    for i := 0 to |cards|
      invariant errors == [] <==> forall k | 0 <= k < i :: cards[k].body.Criticality? && CardSound(cards[k])
      invariant forall f :: f in errors <==>
                  exists k | 0 <= k < i :: cards[k].body.Criticality? && f.rel == cards[k].rel && CardUnsound(cards[k], f.problem)
    {
      var c := cards[i];
      assert c in cards;
      var more := CardProblems(c);
      assert more != [] ==> more[0] in more;
      CardSoundIff(c);
      errors := errors + About(c.rel, more);
    }
  }

  method AllCardErrors(docs: seq<Document>) returns (errors: seq<Finding>)
    requires CardsShaped(docs)
    ensures errors == [] <==> CardsPass(docs)
    ensures forall f :: f in errors <==>
              exists c | c in Cards(Of(docs, Criticalities)) :: c.body.Criticality? && f.rel == c.rel && CardUnsound(c, f.problem)
  {
    hide CardSound, CardUnsound, CardShaped, Of;
    CardsAreCards(docs);
    errors := CardErrors(Cards(Of(docs, Criticalities)));
  }

  method AllResilienceErrors(docs: seq<Document>) returns (errors: seq<Finding>)
    ensures errors == [] <==> forall r | r in Of(docs, Resiliences) :: ResiliencePasses(docs, r)
    ensures forall f :: f in errors <==> exists r | r in Of(docs, Resiliences) :: ResilienceFinding(docs, r, f)
  {
    hide ResilienceSound, Of, ResilienceUnsound, CardFor;
    var profiles := Of(docs, Resiliences);
    KindsAreBodies(docs);
    errors := [];
    for i := 0 to |profiles|
      invariant errors == [] <==> forall k | 0 <= k < i :: ResiliencePasses(docs, profiles[k])
      invariant forall f :: f in errors <==> exists k | 0 <= k < i :: ResilienceFinding(docs, profiles[k], f)
    {
      var r := profiles[i];
      assert r in profiles && r.body.Resilience?;
      var card := CardFor(Of(docs, Criticalities), r.body.service);
      var more := ResilienceProblems(r, card);
      assert more != [] ==> more[0] in more;
      ResilienceSoundIff(r, card);
      errors := errors + About(r.rel, more);
    }
  }

  ghost predicate ResilienceFinding(docs: seq<Document>, r: Document, f: Finding) {
    KindsAreBodies(docs);
    r.body.Resilience? && f.rel == r.rel
    && ResilienceUnsound(r, CardFor(Of(docs, Criticalities), r.body.service), f.problem)
  }

  /** `cross_reference_errors`: silent exactly on sound corpora. */
  method CrossReferenceErrors(docs: seq<Document>) returns (errors: seq<Finding>)
    requires CardsShaped(docs)
    ensures errors == [] <==> Sound(docs)
  {
    hide Sound, UniqueIds, CardsPass, SloPasses, ThresholdPasses, ProfileSound, ResiliencePasses, Of, CardFor, CardsShaped;
    var duplicates := DuplicateErrors(docs);
    var cards := AllCardErrors(docs);
    var slis := SliErrors(docs);
    var slos := AllSloErrors(docs);
    var profiles := AllProfileErrors(docs);
    var thresholds := ThresholdErrors(docs);
    var resiliences := AllResilienceErrors(docs);
    errors := duplicates + cards + slis + slos + profiles + thresholds + resiliences;
    if Sound(docs) {
      SoundIsUnique(docs);
    }
    if UniqueIds(docs) {
      CleanIffSound(docs);
    }
  }

  lemma SoundIsUnique(docs: seq<Document>)
    requires Sound(docs)
    ensures UniqueIds(docs)
  {
  }

  lemma CleanIffSound(docs: seq<Document>)
    requires UniqueIds(docs)
    ensures Sound(docs) <==>
      && CardsPass(docs)
      && (forall s | s in Of(docs, Indicators) :: CardFor(Of(docs, Criticalities), s.body.service).Some?)
      && (forall o | o in Of(docs, Objectives) :: o.body.Slo? && SloPasses(docs, o))
      && (forall c | c in Of(docs, Profiles) :: c.body.Profile? && ProfileSound(c))
      && (forall o | o in Of(docs, Objectives) :: o.body.Slo? && ThresholdPasses(docs, o))
      && (forall r | r in Of(docs, Resiliences) :: ResiliencePasses(docs, r))
  {
    hide CardsPass, CardsHold, SloPasses, ThresholdPasses, ProfileSound, ResiliencePasses, ResilienceSound, SloHolds, SliHolds,
         Of, CardFor, LastCard;
    CardsPassIff(docs);
    IndicatorsPassIff(docs);
    ObjectivesPassIff(docs);
    ProfilesPassIff(docs);
    ResiliencesPassIff(docs);
  }

  /** With unique ids, the cards the gate sees are the last ones of their services. */
  lemma CardsPassIff(docs: seq<Document>)
    requires UniqueIds(docs)
    ensures CardsPass(docs) <==> CardsHold(docs)
  {
    hide CardSound, Of, CardFor, LastCard, UniqueIds;
    var dict := Of(docs, Criticalities);
    forall service ensures CardFor(dict, service) == LastCard(docs, service) {
      CardIsLast(docs, service);
    }
    if CardsPass(docs) {
      forall service | LastCard(docs, service).Some? ensures CardSound(LastCard(docs, service).value) {
        assert LastCard(docs, service).value in Cards(dict);
      }
    }
    if CardsHold(docs) {
      forall c | c in Cards(dict) ensures c.body.Criticality? && CardSound(c) {
        assert LastCard(docs, c.body.service) == Some(c);
      }
    }
  }

  lemma IndicatorsPassIff(docs: seq<Document>)
    requires UniqueIds(docs)
    ensures (forall s | s in docs && s.body.Sli? :: SliHolds(docs, s)) <==>
            forall s | s in Of(docs, Indicators) :: CardFor(Of(docs, Criticalities), s.body.service).Some?
  {
    hide SliHolds, Of, CardFor, UniqueIds;
    UniqueIdsCover(docs, Indicators);
    forall s | s in docs && s.body.Sli? ensures SliHolds(docs, s) <==> CardFor(Of(docs, Criticalities), s.body.service).Some? {
      SliHoldsIff(docs, s);
    }
    assert forall d | d in docs :: d.body.Sli? <==> KindOf(d) == Indicators;
  }

  lemma ObjectivesPassIff(docs: seq<Document>)
    requires UniqueIds(docs)
    ensures (forall o | o in docs && o.body.Slo? :: SloHolds(docs, o)) <==>
      && (forall o | o in Of(docs, Objectives) :: o.body.Slo? && SloPasses(docs, o))
      && (forall o | o in Of(docs, Objectives) :: o.body.Slo? && ThresholdPasses(docs, o))
  {
    hide SloHolds, SloPasses, ThresholdPasses, Of, UniqueIds;
    UniqueIdsCover(docs, Objectives);
    forall o | o in docs && o.body.Slo? ensures SloHolds(docs, o) <==> SloPasses(docs, o) && ThresholdPasses(docs, o) {
      SloCleanIffHolds(docs, o);
      CleanIsBoth(docs, o);
    }
    assert forall d | d in docs :: d.body.Slo? <==> KindOf(d) == Objectives;
  }

  lemma ProfilesPassIff(docs: seq<Document>)
    requires UniqueIds(docs)
    ensures (forall c | c in docs && c.body.Profile? :: ProfileSound(c)) <==>
            forall c | c in Of(docs, Profiles) :: c.body.Profile? && ProfileSound(c)
  {
    hide ProfileSound, Of, UniqueIds;
    UniqueIdsCover(docs, Profiles);
    assert forall d | d in docs :: d.body.Profile? <==> KindOf(d) == Profiles;
  }

  lemma ResiliencesPassIff(docs: seq<Document>)
    requires UniqueIds(docs)
    ensures (forall r | r in docs && r.body.Resilience? :: ResilienceSound(r, LastCard(docs, r.body.service))) <==>
            forall r | r in Of(docs, Resiliences) :: ResiliencePasses(docs, r)
  {
    hide ResilienceSound, Of, UniqueIds, CardFor, LastCard;
    UniqueIdsCover(docs, Resiliences);
    forall r | r in docs && r.body.Resilience?
      ensures ResiliencePasses(docs, r) <==> ResilienceSound(r, LastCard(docs, r.body.service))
    {
      CardIsLast(docs, r.body.service);
    }
    assert forall d | d in docs :: d.body.Resilience? <==> KindOf(d) == Resiliences;
  }

  lemma CleanIsBoth(docs: seq<Document>, o: Document)
    requires o.body.Slo?
    ensures SloClean(docs, o) <==> SloPasses(docs, o) && ThresholdPasses(docs, o)
  {
  }

  lemma SliHoldsIff(docs: seq<Document>, s: Document)
    requires UniqueIds(docs)
    ensures SliHolds(docs, s) <==> CardFor(Of(docs, Criticalities), s.body.service).Some?
  {
    UniqueIdsCover(docs, Criticalities);
    KindsAreBodies(docs);
    if SliHolds(docs, s) {
      var c :| c in docs && c.body.Criticality? && c.body.service == s.body.service;
      assert KindOf(c) == Criticalities;
    }
  }

  /** Nothing approved rests on a placeholder: what a silent gate gives for every approved SLO. */
  lemma ApprovedRestsOnMeasurement(docs: seq<Document>, o: Document)
    requires Sound(docs) && o in docs && o.body.Slo? && o.body.approved
    ensures exists s | s in docs :: IsIndicator(s, o.body.sliRef) && s.body.instrumented && s.body.service == o.body.service
    ensures o.body.profileRef.Some? && o.body.profileRef.value != "" ==>
      exists p | p in docs :: IsProfile(p, o.body.profileRef.value) && p.body.status == ApprovedProfile
        && p.body.placeholders == [] && p.body.benchmark.Some? && p.body.service == o.body.service
        && FineThreshold(o, p)
  {
    assert SloHolds(docs, o);
    if Given(o.body.profileRef) {
      var p :| p in docs && IsProfile(p, o.body.profileRef.value) && FineProfile(o, p) && FineThreshold(o, p);
      assert ProfileSound(p);
    }
  }
}
