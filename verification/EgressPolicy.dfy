/** `check_cilium_policy`: no egress allowance of a Go workload may reach a model provider. */
module EgressPolicy {
  import opened Options
  import opened Globs

  /** One `toFQDNs` or DNS-rule entry. */
  datatype Entry = Entry(matchName: Option<string>, matchPattern: Option<string>)

  datatype Allowance = Allowance(
    entities: seq<string>, cidrs: seq<string>, cidrSets: seq<Option<string>>,
    fqdns: seq<Entry>, portDns: seq<seq<Entry>>)

  datatype Denial = Denial(entities: seq<string>, cidrSets: seq<Option<string>>)

  datatype Spec = Spec(labels: map<string, string>, egress: seq<Allowance>, egressDeny: seq<Denial>)

  /** `spec` is absent when the document has none or an empty one. */
  datatype Policy = Policy(kind: string, spec: Option<Spec>, specs: seq<Spec>)

  datatype Problem = WorldEntity(entities: set<string>) | OpenCidr(cidr: string) | ReachesProvider(pattern: string, host: string)

  // ---- what is wrong with a policy -------------------------------------------------

  /** The selector is about a Go workload: by its runtime label, or by the name of a Go binary. */
  predicate ForGo(spec: Spec) {
    || ("ztax.zoikogroup.com/runtime", "go") in spec.labels.Items
    || ("app.kubernetes.io/name", "ztax-core") in spec.labels.Items
    || ("app.kubernetes.io/name", "ztax-outbox-relay") in spec.labels.Items
    || ("app.kubernetes.io/name", "ztax-migrate") in spec.labels.Items
  }

  /** One of the specs of a Cilium policy: the one under `spec`, or else those under `specs`. */
  predicate SpecOf(doc: Policy, spec: Spec) {
    && (doc.kind == "CiliumNetworkPolicy" || doc.kind == "CiliumClusterwideNetworkPolicy")
    && (doc.spec == Some(spec) || (doc.spec == None && spec in doc.specs))
  }

  predicate Unset(field: Option<string>) { field == None || field == Some("") }

  /** `p` is what the check takes from the entry: its name, or without one its pattern, or nothing. */
  predicate Takes(e: Entry, p: string) {
    || (e.matchName == Some(p) && p != "")
    || (Unset(e.matchName) && e.matchPattern == Some(p) && p != "")
    || (Unset(e.matchName) && Unset(e.matchPattern) && p == "")
  }

  /** The entry names `p`, in either field. */
  predicate Names(e: Entry, p: string) { p != "" && (e.matchName == Some(p) || e.matchPattern == Some(p)) }

  /** The check looks at all an entry names exactly unless the entry names two different patterns,
      in which case `matchPattern` goes unexamined. */
  lemma TakenIsAllNamed(e: Entry)
    ensures (forall p | Names(e, p) :: Takes(e, p)) <==>
            !(!Unset(e.matchName) && !Unset(e.matchPattern) && e.matchName != e.matchPattern)
  {
    if !Unset(e.matchPattern) {
      assert Names(e, e.matchPattern.value);
    }
  }

  ghost predicate TakenFrom(entries: seq<Entry>, p: string) {
    exists e | e in entries :: Takes(e, p)
  }

  /** `p` is taken from a `toFQDNs` entry or from a DNS rule of one of the ports. */
  ghost predicate IsPattern(rule: Allowance, p: string) {
    TakenFrom(rule.fqdns, p) || exists dns | dns in rule.portDns :: TakenFrom(dns, p)
  }

  /** What is wrong with one allowance. */
  ghost predicate Wrong(rule: Allowance, hosts: seq<string>, q: Problem) {
    match q
    case WorldEntity(ents) =>
      && (forall e :: e in ents <==> e in rule.entities)
      && ("world" in ents || "all" in ents || "world-ipv4" in ents || "world-ipv6" in ents)
    case OpenCidr(c) => (c == "0.0.0.0/0" || c == "::/0") && (c in rule.cidrs || Some(c) in rule.cidrSets)
    case ReachesProvider(p, h) => IsPattern(rule, p) && h in hosts && ShareHost(p, h)
  }

  ghost predicate WrongInSpec(spec: Spec, hosts: seq<string>, q: Problem) {
    ForGo(spec) && exists rule | rule in spec.egress :: Wrong(rule, hosts, q)
  }

  ghost predicate WrongInPolicy(doc: Policy, hosts: seq<string>, q: Problem) {
    exists spec :: SpecOf(doc, spec) && WrongInSpec(spec, hosts, q)
  }

  /** The denial shuts out the whole world. */
  predicate ShutsWorld(d: Denial) {
    Some("0.0.0.0/0") in d.cidrSets || "world" in d.entities || "all" in d.entities
  }

  ghost predicate SpecDenies(spec: Spec) {
    ForGo(spec) && exists d | d in spec.egressDeny :: ShutsWorld(d)
  }

  ghost predicate PolicyDenies(doc: Policy) {
    exists spec :: SpecOf(doc, spec) && SpecDenies(spec)
  }

  // ---- how the check reads a policy ------------------------------------------------

  const WORLD: set<string> := {"world", "all", "world-ipv4", "world-ipv6"}
  const OPEN: set<string> := {"0.0.0.0/0", "::/0"}
  const GO_BINARIES: set<string> := {"ztax-core", "ztax-outbox-relay", "ztax-migrate"}

  /** `selects_go`, on the selector's `matchLabels`. */
  predicate SelectsGo(labels: map<string, string>) {
    || ("ztax.zoikogroup.com/runtime" in labels && labels["ztax.zoikogroup.com/runtime"] == "go")
    || ("app.kubernetes.io/name" in labels && labels["app.kubernetes.io/name"] in GO_BINARIES)
  }

  function Specs(doc: Policy): seq<Spec> {
    match doc.spec case Some(s) => [s] case None => doc.specs
  }

  predicate CiliumKind(kind: string) {
    kind in {"CiliumNetworkPolicy", "CiliumClusterwideNetworkPolicy"}
  }

  predicate Set(field: Option<string>) { field.Some? && field.value != "" }

  /** `f.get("matchName") or f.get("matchPattern") or ""`. */
  function Collected(e: Entry): string {
    if Set(e.matchName) then e.matchName.value else if Set(e.matchPattern) then e.matchPattern.value else ""
  }

  function Entities(rule: Allowance): set<string> { set e | e in rule.entities }

  predicate DeniesWorld(d: Denial) {
    Some("0.0.0.0/0") in d.cidrSets || (exists e | e in d.entities :: e in {"world", "all"})
  }

  lemma SelectsGoIff(spec: Spec)
    ensures SelectsGo(spec.labels) <==> ForGo(spec)
  {
  }

  lemma SpecsAre(doc: Policy, spec: Spec)
    ensures CiliumKind(doc.kind) && spec in Specs(doc) <==> SpecOf(doc, spec)
  {
  }

  lemma CollectedIsTaken(e: Entry, p: string)
    ensures Collected(e) == p <==> Takes(e, p)
  {
  }

  lemma DeniesWorldIff(d: Denial)
    ensures DeniesWorld(d) <==> ShutsWorld(d)
  {
  }

  // ---- the messages, in order ----------------------------------------------------

  function EntryPatterns(entries: seq<Entry>): seq<string> {
    if entries == [] then []
    else EntryPatterns(entries[..|entries| - 1]) + [Collected(entries[|entries| - 1])]
  }

  function PortPatterns(portDns: seq<seq<Entry>>): seq<string> {
    if portDns == [] then []
    else PortPatterns(portDns[..|portDns| - 1]) + EntryPatterns(portDns[|portDns| - 1])
  }

  function Patterns(rule: Allowance): seq<string> { EntryPatterns(rule.fqdns) + PortPatterns(rule.portDns) }

  function CidrProblems(cidrs: seq<Option<string>>): seq<Problem> {
    if cidrs == [] then []
    else
      var c := cidrs[|cidrs| - 1];
      CidrProblems(cidrs[..|cidrs| - 1]) + (if c.Some? && c.value in OPEN then [OpenCidr(c.value)] else [])
  }

  function HostProblems(p: string, hosts: seq<string>): seq<Problem> {
    if hosts == [] then []
    else
      var h := hosts[|hosts| - 1];
      HostProblems(p, hosts[..|hosts| - 1]) + (if GlobsIntersect(p, h) then [ReachesProvider(p, h)] else [])
  }

  function ReachProblems(patterns: seq<string>, hosts: seq<string>): seq<Problem> {
    if patterns == [] then []
    else ReachProblems(patterns[..|patterns| - 1], hosts) + HostProblems(patterns[|patterns| - 1], hosts)
  }

  function Given(cidrs: seq<string>): (r: seq<Option<string>>)
    ensures |r| == |cidrs| && forall i | 0 <= i < |r| :: r[i] == Some(cidrs[i])
  {
    seq(|cidrs|, i requires 0 <= i < |cidrs| => Some(cidrs[i]))
  }

  function RuleProblems(rule: Allowance, hosts: seq<string>): seq<Problem> {
    (if Entities(rule) * WORLD != {} then [WorldEntity(Entities(rule))] else [])
    + CidrProblems(Given(rule.cidrs)) + CidrProblems(rule.cidrSets) + ReachProblems(Patterns(rule), hosts)
  }

  function EgressProblems(egress: seq<Allowance>, hosts: seq<string>): seq<Problem> {
    if egress == [] then []
    else EgressProblems(egress[..|egress| - 1], hosts) + RuleProblems(egress[|egress| - 1], hosts)
  }

  function SpecsProblems(specs: seq<Spec>, hosts: seq<string>): seq<Problem> {
    if specs == [] then []
    else
      var spec := specs[|specs| - 1];
      SpecsProblems(specs[..|specs| - 1], hosts) + (if SelectsGo(spec.labels) then EgressProblems(spec.egress, hosts) else [])
  }

  /** Every message about a policy, in the order and as often as it is reported. */
  function PolicyProblems(doc: Policy, hosts: seq<string>): seq<Problem> {
    if CiliumKind(doc.kind) then SpecsProblems(Specs(doc), hosts) else []
  }

  // ---- the messages are what is wrong ---------------------------------------------

  lemma {:induction false} EntryPatternsAre(entries: seq<Entry>, p: string)
    ensures p in EntryPatterns(entries) <==> TakenFrom(entries, p)
  {
    hide Collected, Takes;
    if entries == [] {
    } else {
      EntryPatternsAre(entries[..|entries| - 1], p);
      CollectedIsTaken(entries[|entries| - 1], p);
      assert entries == entries[..|entries| - 1] + [entries[|entries| - 1]];
    }
  }

  lemma {:induction false} PortPatternsAre(portDns: seq<seq<Entry>>, p: string)
    ensures p in PortPatterns(portDns) <==> exists dns | dns in portDns :: TakenFrom(dns, p)
  {
    if portDns == [] {
    } else {
      PortPatternsAre(portDns[..|portDns| - 1], p);
      EntryPatternsAre(portDns[|portDns| - 1], p);
      assert portDns == portDns[..|portDns| - 1] + [portDns[|portDns| - 1]];
    }
  }

  lemma PatternsAre(rule: Allowance, p: string)
    ensures p in Patterns(rule) <==> IsPattern(rule, p)
  {
    EntryPatternsAre(rule.fqdns, p);
    PortPatternsAre(rule.portDns, p);
  }

  lemma {:induction false} CidrProblemsAre(cidrs: seq<Option<string>>, q: Problem)
    ensures q in CidrProblems(cidrs) <==> q.OpenCidr? && q.cidr in OPEN && Some(q.cidr) in cidrs
  {
    if cidrs == [] {
    } else {
      CidrProblemsAre(cidrs[..|cidrs| - 1], q);
      assert cidrs == cidrs[..|cidrs| - 1] + [cidrs[|cidrs| - 1]];
    }
  }

  lemma {:induction false} HostProblemsAre(p: string, hosts: seq<string>, q: Problem)
    ensures q in HostProblems(p, hosts) <==>
            q.ReachesProvider? && q.pattern == p && q.host in hosts && ShareHost(p, q.host)
  {
    if hosts == [] {
    } else {
      HostProblemsAre(p, hosts[..|hosts| - 1], q);
      IntersectIffShared(p, hosts[|hosts| - 1]);
      assert hosts == hosts[..|hosts| - 1] + [hosts[|hosts| - 1]];
    }
  }

  lemma {:induction false} ReachProblemsAre(patterns: seq<string>, hosts: seq<string>, q: Problem)
    ensures q in ReachProblems(patterns, hosts) <==>
            q.ReachesProvider? && q.pattern in patterns && q.host in hosts && ShareHost(q.pattern, q.host)
  {
    if patterns == [] {
    } else {
      ReachProblemsAre(patterns[..|patterns| - 1], hosts, q);
      HostProblemsAre(patterns[|patterns| - 1], hosts, q);
      assert patterns == patterns[..|patterns| - 1] + [patterns[|patterns| - 1]];
    }
  }

  lemma GivenHolds(cidrs: seq<string>, c: string)
    ensures Some(c) in Given(cidrs) <==> c in cidrs
  {
    if c in cidrs {
      var i :| 0 <= i < |cidrs| && cidrs[i] == c;
      assert Given(cidrs)[i] == Some(c);
    }
  }

  lemma WorldIff(rule: Allowance)
    ensures Entities(rule) * WORLD != {} <==>
              "world" in Entities(rule) || "all" in Entities(rule) || "world-ipv4" in Entities(rule) || "world-ipv6" in Entities(rule)
  {
    if e :| e in Entities(rule) && e in WORLD {
      assert e in Entities(rule) * WORLD;
    }
  }

  lemma RuleProblemsAre(rule: Allowance, hosts: seq<string>, q: Problem)
    ensures q in RuleProblems(rule, hosts) <==> Wrong(rule, hosts, q)
  {
    hide Patterns, IsPattern, ShareHost, WORLD;
    CidrProblemsAre(Given(rule.cidrs), q);
    CidrProblemsAre(rule.cidrSets, q);
    ReachProblemsAre(Patterns(rule), hosts, q);
    WorldIff(rule);
    match q
    case WorldEntity(ents) => assert (forall e :: e in ents <==> e in rule.entities) <==> ents == Entities(rule);
    case OpenCidr(c) => GivenHolds(rule.cidrs, c);
    case ReachesProvider(p, _) => PatternsAre(rule, p);
  }

  lemma {:induction false} EgressProblemsAre(egress: seq<Allowance>, hosts: seq<string>, q: Problem)
    ensures q in EgressProblems(egress, hosts) <==> exists rule | rule in egress :: Wrong(rule, hosts, q)
  {
    hide Wrong, RuleProblems;
    if egress == [] {
    } else {
      EgressProblemsAre(egress[..|egress| - 1], hosts, q);
      RuleProblemsAre(egress[|egress| - 1], hosts, q);
      assert egress == egress[..|egress| - 1] + [egress[|egress| - 1]];
    }
  }

  lemma SpecProblemsAre(spec: Spec, hosts: seq<string>, q: Problem)
    ensures SelectsGo(spec.labels) && q in EgressProblems(spec.egress, hosts) <==> WrongInSpec(spec, hosts, q)
  {
    hide Wrong, EgressProblems, SelectsGo, ForGo;
    SelectsGoIff(spec);
    EgressProblemsAre(spec.egress, hosts, q);
  }

  lemma {:induction false} SpecsProblemsAre(specs: seq<Spec>, hosts: seq<string>, q: Problem)
    ensures q in SpecsProblems(specs, hosts) <==> exists spec | spec in specs :: WrongInSpec(spec, hosts, q)
  {
    hide EgressProblems, WrongInSpec;
    if specs == [] {
    } else {
      SpecsProblemsAre(specs[..|specs| - 1], hosts, q);
      SpecProblemsAre(specs[|specs| - 1], hosts, q);
      assert specs == specs[..|specs| - 1] + [specs[|specs| - 1]];
    }
  }

  /** A message is reported exactly when the policy is wrong in that way. */
  lemma PolicyProblemsAre(doc: Policy, hosts: seq<string>, q: Problem)
    ensures q in PolicyProblems(doc, hosts) <==> WrongInPolicy(doc, hosts, q)
  {
    hide WrongInSpec, SpecsProblems, Specs, SpecOf, CiliumKind;
    SpecsProblemsAre(Specs(doc), hosts, q);
    forall spec ensures CiliumKind(doc.kind) && spec in Specs(doc) <==> SpecOf(doc, spec) {
      SpecsAre(doc, spec);
    }
  }

  // ---- the check -----------------------------------------------------------------

  /** Append every entry's pattern. */
  method CollectEntries(entries: seq<Entry>, before: seq<string>) returns (patterns: seq<string>)
    ensures patterns == before + EntryPatterns(entries)
  {
    patterns := before;
    for i := 0 to |entries|
      invariant patterns == before + EntryPatterns(entries[..i])
    {
      patterns := patterns + [Collected(entries[i])];
      assert entries[..i + 1][..i] == entries[..i];
    }
    assert entries[..|entries|] == entries;
  }

  method CollectPatterns(rule: Allowance) returns (patterns: seq<string>)
    ensures patterns == Patterns(rule)
    ensures forall p :: p in patterns <==> IsPattern(rule, p)
  {
    patterns := CollectEntries(rule.fqdns, []);
    for i := 0 to |rule.portDns|
      invariant patterns == EntryPatterns(rule.fqdns) + PortPatterns(rule.portDns[..i])
    {
      patterns := CollectEntries(rule.portDns[i], patterns);
      assert rule.portDns[..i + 1][..i] == rule.portDns[..i];
    }
    assert rule.portDns[..|rule.portDns|] == rule.portDns;
    forall p ensures p in Patterns(rule) <==> IsPattern(rule, p) {
      PatternsAre(rule, p);
    }
  }

  /** `for h in hosts: if globs_intersect(p, h): …` */
  method CheckPattern(p: string, hosts: seq<string>) returns (problems: seq<Problem>)
    ensures problems == HostProblems(p, hosts)
  {
    problems := [];
    for i := 0 to |hosts|
      invariant problems == HostProblems(p, hosts[..i])
    {
      var meets, _ := Intersect(p, hosts[i]);
      IntersectIffShared(p, hosts[i]);
      if meets {
        problems := problems + [ReachesProvider(p, hosts[i])];
      }
      assert hosts[..i + 1][..i] == hosts[..i];
    }
    assert hosts[..|hosts|] == hosts;
  }

  method CheckReach(patterns: seq<string>, hosts: seq<string>) returns (problems: seq<Problem>)
    ensures problems == ReachProblems(patterns, hosts)
  {
    problems := [];
    for i := 0 to |patterns|
      invariant problems == ReachProblems(patterns[..i], hosts)
    {
      var found := CheckPattern(patterns[i], hosts);
      problems := problems + found;
      assert patterns[..i + 1][..i] == patterns[..i];
    }
    assert patterns[..|patterns|] == patterns;
  }

  method CheckCidrs(cidrs: seq<Option<string>>) returns (problems: seq<Problem>)
    ensures problems == CidrProblems(cidrs)
  {
    problems := [];
    for i := 0 to |cidrs|
      invariant problems == CidrProblems(cidrs[..i])
    {
      var c := cidrs[i];
      if c.Some? && c.value in OPEN {
        problems := problems + [OpenCidr(c.value)];
      }
      assert cidrs[..i + 1][..i] == cidrs[..i];
    }
    assert cidrs[..|cidrs|] == cidrs;
  }

  method CheckRule(rule: Allowance, hosts: seq<string>) returns (problems: seq<Problem>)
    ensures problems == RuleProblems(rule, hosts)
  {
    var entities := Entities(rule);
    problems := if entities * WORLD != {} then [WorldEntity(entities)] else [];
    var cidrs := CheckCidrs(Given(rule.cidrs));
    var cidrSets := CheckCidrs(rule.cidrSets);
    var patterns := CollectPatterns(rule);
    var reach := CheckReach(patterns, hosts);
    problems := problems + cidrs + cidrSets + reach;
  }

  method CheckEgress(egress: seq<Allowance>, hosts: seq<string>) returns (problems: seq<Problem>)
    ensures problems == EgressProblems(egress, hosts)
  {
    hide RuleProblems;
    problems := [];
    for i := 0 to |egress|
      invariant problems == EgressProblems(egress[..i], hosts)
    {
      var found := CheckRule(egress[i], hosts);
      problems := problems + found;
      assert egress[..i + 1][..i] == egress[..i];
    }
    assert egress[..|egress|] == egress;
  }

  method CheckDenials(denials: seq<Denial>) returns (denies: bool)
    ensures denies <==> exists d | d in denials :: ShutsWorld(d)
  {
    hide DeniesWorld, ShutsWorld;
    denies := false;
    for i := 0 to |denials|
      invariant denies <==> exists d | d in denials[..i] :: ShutsWorld(d)
    {
      DeniesWorldIff(denials[i]);
      if DeniesWorld(denials[i]) {
        denies := true;
      }
      assert denials[..i + 1] == denials[..i] + [denials[i]];
    }
    assert denials[..|denials|] == denials;
  }

  method CheckSpec(spec: Spec, hosts: seq<string>) returns (problems: seq<Problem>, denies: bool)
    ensures problems == if SelectsGo(spec.labels) then EgressProblems(spec.egress, hosts) else []
    ensures denies <==> SpecDenies(spec)
  {
    problems, denies := [], false;
    SelectsGoIff(spec);
    if !SelectsGo(spec.labels) {
      return;
    }
    problems := CheckEgress(spec.egress, hosts);
    denies := CheckDenials(spec.egressDeny);
  }

  /** `check_cilium_policy`: the messages in order, exactly for what is wrong, and whether the policy
      denies Go workloads everything outside the cell. */
  method CheckPolicy(doc: Policy, hosts: seq<string>) returns (problems: seq<Problem>, denies: bool)
    ensures problems == PolicyProblems(doc, hosts)
    ensures forall q :: q in problems <==> WrongInPolicy(doc, hosts, q)
    ensures denies <==> PolicyDenies(doc)
  {
    hide WrongInPolicy, EgressProblems, SpecDenies, Specs, SpecOf, CiliumKind;
    problems, denies := [], false;
    forall q ensures q in PolicyProblems(doc, hosts) <==> WrongInPolicy(doc, hosts, q) {
      PolicyProblemsAre(doc, hosts, q);
    }
    forall spec ensures CiliumKind(doc.kind) && spec in Specs(doc) <==> SpecOf(doc, spec) {
      SpecsAre(doc, spec);
    }
    if !CiliumKind(doc.kind) {
      return;
    }
    var specs := Specs(doc);
    for i := 0 to |specs|
      invariant problems == SpecsProblems(specs[..i], hosts)
      invariant denies <==> exists spec | spec in specs[..i] :: SpecDenies(spec)
    {
      var found, d := CheckSpec(specs[i], hosts);
      problems := problems + found;
      denies := denies || d;
      assert specs[..i + 1] == specs[..i] + [specs[i]] && specs[..i + 1][..i] == specs[..i];
    }
    assert specs[..|specs|] == specs;
  }

  /** The promise of ADR-0006 section 2.1 as far as this check carries it: in a policy with nothing
      wrong, no hostname matches both a pattern taken from a Go workload's allowance and a provider pattern,
      whether `*` crosses dots or stays inside one label. */
  lemma CleanPolicyReachesNoProvider(doc: Policy, hosts: seq<string>, spec: Spec, rule: Allowance,
                                     pattern: string, provider: string, host: string)
    requires forall q :: !WrongInPolicy(doc, hosts, q)
    requires SpecOf(doc, spec) && ForGo(spec) && rule in spec.egress
    requires IsPattern(rule, pattern) && provider in hosts
    ensures !(Matches(pattern, host) && Matches(provider, host))
    ensures !(MatchesInLabel(pattern, host) && Matches(provider, host))
    ensures !(MatchesInLabel(pattern, host) && MatchesInLabel(provider, host))
  {
    hide Matches, MatchesInLabel, GlobsIntersect;
    var q := ReachesProvider(pattern, provider);
    assert !WrongInPolicy(doc, hosts, q) && !WrongInSpec(spec, hosts, q) && !Wrong(rule, hosts, q);
    IntersectIffShared(pattern, provider);
    NoMeansNoHostInLabel(pattern, provider, host);
  }

  ghost predicate EntryOf(rule: Allowance, e: Entry) {
    e in rule.fqdns || exists dns | dns in rule.portDns :: e in dns
  }

  /** The promise for everything an allowance names, not just what is taken: it holds of a clean
      policy whose entries name one pattern each. */
  lemma CleanPolicyNamesNoProvider(doc: Policy, hosts: seq<string>, spec: Spec, rule: Allowance, e: Entry,
                                   pattern: string, provider: string, host: string)
    requires forall q :: !WrongInPolicy(doc, hosts, q)
    requires SpecOf(doc, spec) && ForGo(spec) && rule in spec.egress
    requires EntryOf(rule, e) && (Unset(e.matchName) || Unset(e.matchPattern) || e.matchName == e.matchPattern)
    requires Names(e, pattern) && provider in hosts
    ensures !(Matches(pattern, host) && Matches(provider, host))
    ensures !(MatchesInLabel(pattern, host) && MatchesInLabel(provider, host))
  {
    hide WrongInPolicy, Matches, MatchesInLabel, SpecOf, ForGo;
    TakenIsAllNamed(e);
    if e in rule.fqdns {
      assert TakenFrom(rule.fqdns, pattern);
    } else {
      var dns :| dns in rule.portDns && e in dns;
      assert TakenFrom(dns, pattern);
    }
    CleanPolicyReachesNoProvider(doc, hosts, spec, rule, pattern, provider, host);
  }

  function Masked(): Policy {
    Policy("CiliumNetworkPolicy",
           Some(Spec(map["ztax.zoikogroup.com/runtime" := "go"],
                     [Allowance([], [], [], [Entry(Some("a"), Some("b"))], [])], [])),
           [])
  }

  /** An entry with a harmless `matchName` and the provider itself as `matchPattern` draws no message. */
  lemma MaskedProviderIsClean()
    ensures PolicyProblems(Masked(), ["b"]) == []
    ensures Names(Entry(Some("a"), Some("b")), "b") && ShareHost("b", "b")
  {
    var rule := Masked().spec.value.egress[0];
    assert Patterns(rule) == ["a"] by {
      assert EntryPatterns(rule.fqdns) == EntryPatterns([]) + ["a"];
    }
    assert !GlobsIntersect("a", "b") by {
      assert Lower("a") == "a" && Lower("b") == "b";
    }
    assert ["a"][..0] == [] && ["b"][..0] == [];
    assert HostProblems("a", ["b"]) == HostProblems("a", []) + [];
    assert ReachProblems(["a"], ["b"]) == ReachProblems([], ["b"]) + HostProblems("a", ["b"]);
    assert RuleProblems(rule, ["b"]) == [];
    assert [rule][..0] == [] && EgressProblems([rule], ["b"]) == EgressProblems([], ["b"]) + [];
    var spec := Masked().spec.value;
    assert [spec][..0] == [] && SpecsProblems([spec], ["b"]) == SpecsProblems([], ["b"]) + [];
    assert Matches("b", "b") by {
      assert "b"[1..] == "" && "b"[0] != '.';
    }
  }
}
