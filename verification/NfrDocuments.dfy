/** The NFR documents, once their schemas hold, and the dictionaries a corpus is read through. */
module NfrDocuments {
  import opened Options
  import opened Numerals
  import Json

  datatype Kind = Criticalities | Indicators | Objectives | Profiles | Resiliences

  datatype Measurement =
    | Ratio(good: string, valid: string)
    | Distribution(histogram: string, matchers: string)
    | Count(counter: string, matchers: string)

  datatype Objective = RatioTarget(percent: real) | LatencyBound(percentile: real, ms: real) | Zero

  datatype Burn = Burn(long: string, short: string, factor: real, severity: string)

  datatype ProfileStatus = Placeholder | Measured | ApprovedProfile

  datatype Journey = Journey(id: string, cls: string)

  datatype Dependency = Dependency(name: string, kind: string, synchronousOn: seq<string>, onFailure: string)

  /** What a ResilienceProfile says happens when a dependency fails. */
  datatype Failure = Failure(dependency: string, behavior: string)

  datatype Body =
    | Criticality(service: string, cls: string, journeys: seq<Journey>, dependencies: seq<Dependency>)
    | Sli(service: string, family: string, measurement: Measurement, instrumented: bool)
    | Slo(service: string, cls: string, sliRef: string, profileRef: Option<string>, objective: Objective,
          window: string, burns: Option<seq<Burn>>, hold: Option<string>, severity: string, approved: bool, source: string)
    | Profile(service: string, cls: string, status: ProfileStatus, placeholders: seq<string>, benchmark: Option<string>,
              p95: real, p99: real, single99: real, replicasMin: nat, replicasMax: nat,
              lines50: nat, lines95: nat, linesMax: nat, zones: nat, data: Json.Value)
    | Resilience(service: string, cls: string, zonesMin: nat, rpo: string, rto: string, evidenceRpo: string,
                 failures: seq<Failure>)

  datatype Document = Document(rel: string, id: string, body: Body)

  /** `alerting.get("burn_rates", [])`. */
  function Burns(o: Document): seq<Burn>
    requires o.body.Slo?
  {
    if o.body.burns.Some? then o.body.burns.value else []
  }

  function KindOf(d: Document): Kind {
    if d.body.Criticality? then Criticalities
    else if d.body.Sli? then Indicators
    else if d.body.Slo? then Objectives
    else if d.body.Profile? then Profiles
    else Resiliences
  }

  // ---- durations ---------------------------------------------------------------------

  /** What one unit is worth, in milliseconds. */
  function UnitMillis(unit: string): Option<nat> {
    if unit == "ms" then Some(1)
    else if unit == "s" then Some(1000)
    else if unit == "m" then Some(60_000)
    else if unit == "h" then Some(3_600_000)
    else if unit == "d" then Some(86_400_000)
    else None
  }

  /** `duration_seconds`; None where it raises ValueError. Milliseconds are cut down to whole seconds. */
  function DurationSeconds(d: string): Option<nat> {
    var k := LeadingDigits(d);
    if k == 0 || UnitMillis(d[k..]).None? then None
    else Some(NatValue(d[..k]) * UnitMillis(d[k..]).value / 1000)
  }

  predicate Timed(d: string) { DurationSeconds(d).Some? }

  function Seconds(d: string): nat { if Timed(d) then DurationSeconds(d).value else 0 }

  lemma {:induction false} LeadingDigitsOf(digits: string, unit: string)
    requires AllDigits(digits) && unit != "" && !Digit(unit[0])
    ensures LeadingDigits(digits + unit) == |digits|
  {
    if digits == "" {
      assert digits + unit == unit;
    } else {
      LeadingDigitsOf(digits[1..], unit);
      assert (digits + unit)[1..] == digits[1..] + unit;
    }
  }

  lemma SplitAtUnit(digits: string, unit: string)
    requires digits != "" && AllDigits(digits) && UnitMillis(unit).Some?
    ensures DurationSeconds(digits + unit) == Some(NatValue(digits) * UnitMillis(unit).value / 1000)
  {
    hide NatValue, LeadingDigits;
    LeadingDigitsOf(digits, unit);
    var d := digits + unit;
    assert d[..|digits|] == digits && d[|digits|..] == unit;
  }

  /** Digits and a unit read as that many milliseconds, seconds, minutes, hours or days. */
  lemma DurationOfDigits(digits: string)
    requires digits != "" && AllDigits(digits)
    ensures DurationSeconds(digits + "ms") == Some(NatValue(digits) / 1000)
    ensures DurationSeconds(digits + "s") == Some(NatValue(digits))
    ensures DurationSeconds(digits + "m") == Some(60 * NatValue(digits))
    ensures DurationSeconds(digits + "h") == Some(3600 * NatValue(digits))
    ensures DurationSeconds(digits + "d") == Some(24 * 3600 * NatValue(digits))
  {
    hide DurationSeconds, NatValue, AllDigits;
    SplitAtUnit(digits, "ms");
    SplitAtUnit(digits, "s");
    SplitAtUnit(digits, "m");
    SplitAtUnit(digits, "h");
    SplitAtUnit(digits, "d");
  }

  /** Every count reads back in every unit. */
  lemma DurationReadsBack(n: nat)
    ensures DurationSeconds(NatText(n) + "ms") == Some(n / 1000)
    ensures DurationSeconds(NatText(n) + "s") == Some(n)
    ensures DurationSeconds(NatText(n) + "m") == Some(60 * n)
    ensures DurationSeconds(NatText(n) + "h") == Some(3600 * n)
    ensures DurationSeconds(NatText(n) + "d") == Some(24 * 3600 * n)
  {
    hide DurationSeconds;
    NatRoundTrip(n);
    DurationOfDigits(NatText(n));
  }

  /** Nothing else is a duration. */
  lemma TimedIff(d: string)
    ensures DurationSeconds(d).Some? <==>
      exists k | 0 < k < |d| :: AllDigits(d[..k]) && d[k..] in {"ms", "s", "m", "h", "d"}
  {
    var n := LeadingDigits(d);
    forall k | 0 < k < |d| && AllDigits(d[..k]) && d[k..] in {"ms", "s", "m", "h", "d"} ensures n == k {
      LeadingDigitsOf(d[..k], d[k..]);
      assert d == d[..k] + d[k..];
    }
    if DurationSeconds(d).Some? {
      assert AllDigits(d[..n]) && d[n..] in {"ms", "s", "m", "h", "d"};
    }
  }

  /** One length has two spellings: `60s` is `1m`. */
  lemma SpelledTwice(n: nat)
    ensures DurationSeconds(NatText(60 * n) + "s") == DurationSeconds(NatText(n) + "m") == Some(60 * n)
  {
    hide DurationSeconds, NatText;
    DurationReadsBack(60 * n);
    DurationReadsBack(n);
  }

  // ---- Corpus.of -----------------------------------------------------------------------

  /** `dict[d.id] = d`: a known id keeps its place and takes the new document. */
  function Upsert(dict: seq<Document>, d: Document): seq<Document> {
    if dict == [] then [d]
    else if dict[0].id == d.id then [d] + dict[1..]
    else [dict[0]] + Upsert(dict[1..], d)
  }

  /** `Corpus.of(kind).values()`, in dictionary order. */
  function Of(docs: seq<Document>, kind: Kind): seq<Document> {
    if docs == [] then []
    else
      var before, d := Of(docs[..|docs| - 1], kind), docs[|docs| - 1];
      if KindOf(d) == kind then Upsert(before, d) else before
  }

  /** `Corpus.of(kind).get(id)`. */
  function Lookup(dict: seq<Document>, id: string): (r: Option<Document>)
    ensures r.Some? ==> r.value in dict && r.value.id == id
    ensures r.None? ==> forall d | d in dict :: d.id != id
  {
    if dict == [] then None
    else if dict[0].id == id then Some(dict[0])
    else Lookup(dict[1..], id)
  }

  predicate IdsDiffer(dict: seq<Document>) {
    forall i, j | 0 <= i < j < |dict| :: dict[i].id != dict[j].id
  }

  lemma {:induction false} UpsertKeeps(dict: seq<Document>, d: Document)
    requires IdsDiffer(dict)
    ensures IdsDiffer(Upsert(dict, d))
    ensures forall x :: x in Upsert(dict, d) <==> x == d || (x in dict && x.id != d.id)
  {
    if dict == [] {
    } else if dict[0].id == d.id {
      assert dict == [dict[0]] + dict[1..];
      forall x | x in dict[1..] ensures x.id != d.id {
      }
    } else {
      var t := Upsert(dict[1..], d);
      UpsertKeeps(dict[1..], d);
      assert dict == [dict[0]] + dict[1..];
      forall k | 0 <= k < |t| ensures t[k].id != dict[0].id {
        assert t[k] in t;
      }
      forall x ensures x in Upsert(dict, d) <==> x == d || (x in dict && x.id != d.id) {
        assert x in dict <==> x == dict[0] || x in dict[1..];
      }
    }
  }


  /** What a dictionary holds: the documents of its kind, each id once. */
  lemma {:induction false} OfHolds(docs: seq<Document>, kind: Kind)
    ensures IdsDiffer(Of(docs, kind))
    ensures forall d | d in Of(docs, kind) :: d in docs && KindOf(d) == kind
    ensures forall d | d in docs && KindOf(d) == kind :: Lookup(Of(docs, kind), d.id).Some?
  {
    if docs == [] {
    } else {
      var rest, d := docs[..|docs| - 1], docs[|docs| - 1];
      assert docs == rest + [d];
      OfHolds(rest, kind);
      if KindOf(d) == kind {
        UpsertKeeps(Of(rest, kind), d);
        forall x | x in docs && KindOf(x) == kind ensures Lookup(Of(docs, kind), x.id).Some? {
          assert d in Of(docs, kind);
          if x.id != d.id {
            var y := Lookup(Of(rest, kind), x.id).value;
            assert y in Of(docs, kind);
          }
        }
      }
    }
  }

  /** No two different documents of the kind share an id. */
  ghost predicate OneEach(docs: seq<Document>, kind: Kind) {
    forall a, b | a in docs && b in docs && KindOf(a) == KindOf(b) == kind && a.id == b.id :: a == b
  }

  lemma SameIdSameDocument(dict: seq<Document>, a: Document, b: Document)
    requires IdsDiffer(dict) && a in dict && b in dict && a.id == b.id
    ensures a == b
  {
    var i :| 0 <= i < |dict| && dict[i] == a;
    var j :| 0 <= j < |dict| && dict[j] == b;
    assert !(i < j) && !(j < i);
  }

  /** A dictionary covers every document of its kind exactly when no two different ones share an id. */
  lemma OfCoversIff(docs: seq<Document>, kind: Kind)
    ensures (forall d | d in docs && KindOf(d) == kind :: d in Of(docs, kind)) <==> OneEach(docs, kind)
  {
    OfHolds(docs, kind);
    var dict := Of(docs, kind);
    if OneEach(docs, kind) {
      forall d | d in docs && KindOf(d) == kind ensures d in dict {
        assert Lookup(dict, d.id).value == d;
      }
    }
    if forall d | d in docs && KindOf(d) == kind :: d in dict {
      forall a, b | a in docs && b in docs && KindOf(a) == KindOf(b) == kind && a.id == b.id ensures a == b {
        SameIdSameDocument(dict, a, b);
      }
    }
  }

  /** The ids are unique per kind. */
  ghost predicate UniqueIds(docs: seq<Document>) {
    forall i, j | 0 <= i < j < |docs| && KindOf(docs[i]) == KindOf(docs[j]) :: docs[i].id != docs[j].id
  }

  lemma UniqueMeansOneEach(docs: seq<Document>, kind: Kind)
    requires UniqueIds(docs)
    ensures OneEach(docs, kind)
  {
    forall a, b | a in docs && b in docs && KindOf(a) == KindOf(b) == kind && a.id == b.id ensures a == b {
      var i :| 0 <= i < |docs| && docs[i] == a;
      var j :| 0 <= j < |docs| && docs[j] == b;
      assert !(i < j) && !(j < i);
    }
  }

  /** With unique ids the dictionary is the corpus: same documents, found by id. */
  lemma UniqueIdsCover(docs: seq<Document>, kind: Kind)
    requires UniqueIds(docs)
    ensures forall d :: d in Of(docs, kind) <==> d in docs && KindOf(d) == kind
    ensures forall d | d in docs && KindOf(d) == kind :: Lookup(Of(docs, kind), d.id) == Some(d)
  {
    UniqueMeansOneEach(docs, kind);
    OfCoversIff(docs, kind);
    OfHolds(docs, kind);
    forall d | d in docs && KindOf(d) == kind ensures Lookup(Of(docs, kind), d.id) == Some(d) {
      SameIdSameDocument(Of(docs, kind), d, Lookup(Of(docs, kind), d.id).value);
    }
  }

  // ---- the service card in force ----------------------------------------------------------

  /** `{d.data["service"]: d ...}.get(service)`: the last card listed for the service. */
  function CardFor(dict: seq<Document>, service: string): (r: Option<Document>)
    ensures r.Some? ==> r.value in dict && r.value.body.service == service
    ensures r.None? ==> forall d | d in dict :: d.body.service != service
  {
    if dict == [] then None
    else if dict[|dict| - 1].body.service == service then Some(dict[|dict| - 1])
    else
      assert dict == dict[..|dict| - 1] + [dict[|dict| - 1]];
      CardFor(dict[..|dict| - 1], service)
  }

  /** The last ServiceCriticality for the service in the corpus. */
  function LastCard(docs: seq<Document>, service: string): (r: Option<Document>)
    ensures r.Some? ==> r.value in docs && r.value.body.Criticality? && r.value.body.service == service
    ensures r.None? ==> forall d | d in docs && d.body.Criticality? :: d.body.service != service
  {
    if docs == [] then None
    else
      var d := docs[|docs| - 1];
      assert docs == docs[..|docs| - 1] + [d];
      if d.body.Criticality? && d.body.service == service then Some(d) else LastCard(docs[..|docs| - 1], service)
  }

  /** That is the card no later card of the service follows. */
  lemma {:induction false} LastCardIs(docs: seq<Document>, i: nat)
    requires i < |docs| && docs[i].body.Criticality?
    requires forall k | i < k < |docs| && docs[k].body.Criticality? :: docs[k].body.service != docs[i].body.service
    ensures LastCard(docs, docs[i].body.service) == Some(docs[i])
  {
    if i < |docs| - 1 {
      LastCardIs(docs[..|docs| - 1], i);
    }
  }

  lemma {:induction false} UpsertAppends(dict: seq<Document>, d: Document)
    requires forall x | x in dict :: x.id != d.id
    ensures Upsert(dict, d) == dict + [d]
  {
    if dict == [] {
    } else {
      assert dict[0] in dict;
      UpsertAppends(dict[1..], d);
    }
  }

  /** A document of an id not seen before goes to the end of its dictionary. */
  lemma OfAppends(docs: seq<Document>, d: Document)
    requires UniqueIds(docs + [d])
    ensures Of(docs + [d], KindOf(d)) == Of(docs, KindOf(d)) + [d]
  {
    hide KindOf, IdsDiffer;
    var n, all := |docs|, docs + [d];
    assert all[..n] == docs && all[n] == d;
    OfHolds(docs, KindOf(d));
    forall x | x in Of(docs, KindOf(d)) ensures x.id != d.id {
      var i :| 0 <= i < n && docs[i] == x;
      assert all[i] == x;
    }
    UpsertAppends(Of(docs, KindOf(d)), d);
  }

  lemma CardForAppended(dict: seq<Document>, d: Document, service: string)
    ensures CardFor(dict + [d], service) == if d.body.service == service then Some(d) else CardFor(dict, service)
  {
    assert (dict + [d])[..|dict + [d]| - 1] == dict;
  }

  /** With unique ids the card in force is the last one in the corpus. */
  lemma {:induction false} CardIsLast(docs: seq<Document>, service: string)
    requires UniqueIds(docs)
    ensures CardFor(Of(docs, Criticalities), service) == LastCard(docs, service)
  {
    hide CardFor;
    if docs == [] {
      assert CardFor([], service) == None;
    } else {
      var n := |docs| - 1;
      var rest, d := docs[..n], docs[n];
      assert docs == rest + [d];
      assert UniqueIds(rest) by {
        assert forall i | 0 <= i < n :: rest[i] == docs[i];
      }
      CardIsLast(rest, service);
      if d.body.Criticality? {
        OfAppends(rest, d);
        CardForAppended(Of(rest, Criticalities), d, service);
      }
    }
  }

  /** `{d.data["service"]: d ...}.values()`: one card per service. */
  function Cards(dict: seq<Document>): (r: seq<Document>)
    ensures forall c :: c in r <==> CardFor(dict, c.body.service) == Some(c)
  {
    if dict == [] then []
    else
      var n := |dict| - 1;
      assert dict[..n] + [dict[n]] == dict;
      InsteadOf(Cards(dict[..n]), dict[n])
  }

  /** `dict[d.data["service"]] = d`. */
  function InsteadOf(cards: seq<Document>, d: Document): (r: seq<Document>)
    ensures forall c :: c in r <==> c == d || (c in cards && c.body.service != d.body.service)
  {
    if cards == [] then [d]
    else
      assert cards == [cards[0]] + cards[1..];
      if cards[0].body.service == d.body.service then
        [d] + Others(cards[1..], d.body.service)
      else [cards[0]] + InsteadOf(cards[1..], d)
  }

  /** The cards of other services; a dictionary holds none of this one. */
  function Others(cards: seq<Document>, service: string): (r: seq<Document>)
    ensures forall c :: c in r <==> c in cards && c.body.service != service
  {
    if cards == [] then []
    else
      assert cards == [cards[0]] + cards[1..];
      (if cards[0].body.service == service then [] else [cards[0]]) + Others(cards[1..], service)
  }

  // ---- findings -----------------------------------------------------------------------------

  datatype Problem =
    | DuplicateId | NoCriticality | NoSuchJourneyClass | NoSli | SliElsewhere | WrongMeasurement | NotLatencyFamily
    | NoBurnRates | BurnRatesMisplaced | NoHold | ShortNotShorter | LongExceedsWindow
    | NoProfile | ProfileElsewhere | NotInstrumented | ProfileNotApproved
    | DanglingPlaceholder | PlaceholdersLeft | NoBenchmark | P95NotBelow | ReplicaRange | LineCounts | TooFewZones
    | ThresholdUnlisted
    | ClassNotHighest | DuplicateDependency | UnknownJourney | ForbiddenCall | NotFailClosed
    | UndeclaredDependency | BehaviorDiffers | ZonesBelowThree | RpoAbove | RtoAbove | EvidenceLost | FailureUnstated

  datatype Finding = Finding(rel: string, problem: Problem)

  function Complain(on: bool, problem: Problem): (r: seq<Problem>)
    ensures forall p :: p in r <==> on && p == problem
  {
    if on then [problem] else []
  }

  /** The findings of one document. */
  function About(rel: string, problems: seq<Problem>): (r: seq<Finding>)
    ensures r == [] <==> problems == []
    ensures forall f :: f in r <==> f.rel == rel && f.problem in problems
  {
    if problems == [] then [] else [Finding(rel, problems[0])] + About(rel, problems[1..])
  }

  /** A reference that is given and not empty. */
  predicate Given(ref: Option<string>) { ref.Some? && ref.value != "" }
}
