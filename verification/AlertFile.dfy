/** The generated file as a whole: which groups it holds, in which order, and which rules each group lists. */
module AlertFile {
  import opened Options
  import opened NfrDocuments
  import opened AlertRules
  import Orders

  // ---- the rules of one SLO ------------------------------------------------------------------

  /** Every window of a burn rate, long or short, once each, no shorter one after a longer. */
  ghost predicate WindowsOf(ws: seq<string>, burns: seq<Burn>) {
    && (forall i, j | 0 <= i < j < |ws| :: ws[i] != ws[j] && Seconds(ws[i]) <= Seconds(ws[j]))
    && (forall w :: w in ws <==> exists b | b in burns :: w == b.long || w == b.short)
  }

  /** A ratio objective records the error ratio over every window and then alerts on every burn rate, in the
      SLO's order; a latency or a zero objective is one alert. */
  ghost predicate RulesOf(printing: Printing, service: string, o: Document, m: Measurement, rules: seq<Rule>) {
    o.body.Slo? &&
    match o.body.objective
    case RatioTarget(_) =>
      && m.Ratio? && o.body.burns.Some?
      && exists ws :: WindowsOf(ws, o.body.burns.value) && RecordsThenAlerts(printing, service, o, m, ws, rules)
    case LatencyBound(_, _) =>
      && m.Distribution? && o.body.hold.Some? && |rules| == 1
      && rules[0] == LatencyRule(printing, service, o, m, o.body.hold.value)
    case Zero =>
      && m.Count? && o.body.hold.Some? && |rules| == 1
      && rules[0] == ZeroRule(service, o, m, o.body.hold.value)
  }

  ghost predicate RecordsThenAlerts(printing: Printing, service: string, o: Document, m: Measurement, ws: seq<string>, rules: seq<Rule>)
    requires o.body.Slo? && o.body.objective.RatioTarget? && m.Ratio? && o.body.burns.Some?
  {
    var burns := o.body.burns.value;
    && |rules| == |ws| + |burns|
    && (forall i | 0 <= i < |ws| :: rules[i] == RecordRule(service, o, m, ws[i]))
    && (forall k | 0 <= k < |burns| :: rules[|ws| + k] == BurnRule(printing, service, o, burns[k]))
  }

  lemma {:induction false} CollectedAre(burns: seq<Burn>, w: string)
    ensures w in Collected(burns) <==> exists b | b in burns :: w == b.long || w == b.short
  {
    if burns != [] {
      var rest, b := burns[..|burns| - 1], burns[|burns| - 1];
      assert burns == rest + [b];
      CollectedAre(rest, w);
    }
  }

  lemma WindowsAre(burns: seq<Burn>, listing: seq<string>)
    requires multiset(listing) == multiset(Collected(burns))
    ensures WindowsOf(Windows(listing), burns)
  {
    hide Collected, Seconds;
    var ws := Windows(listing);
    ShorterIsOrder();
    Orders.SortBySorted(Shorter, listing);
    Orders.SortByMultiset(Shorter, listing);
    Orders.SameElements(ws, Collected(burns));
    Orders.DistinctForgetsOrder(Collected(burns), ws);
    forall w ensures w in ws <==> exists b | b in burns :: w == b.long || w == b.short {
      CollectedAre(burns, w);
    }
    forall i, j | 0 <= i < j < |ws| ensures ws[i] != ws[j] && Seconds(ws[i]) <= Seconds(ws[j]) {
      assert Shorter(ws[i], ws[j]);
    }
  }

  /** A ratio objective with no burn rates alerts on nothing, whatever its SLI measures. */
  ghost predicate NothingToAlert(o: Document, rules: seq<Rule>) {
    o.body.Slo? && o.body.objective.RatioTarget? && o.body.burns == Some([]) && rules == []
  }

  /** The group is what the SLO and its SLI ask for, and it is missing exactly when they ask for nothing that
      can be written. */
  lemma GroupIsRulesOf(printing: Printing, service: string, o: Document, s: Document, listing: seq<string>)
    requires o.body.Slo? && s.body.Sli? && IsListing(o, listing)
    ensures
      var group := GroupOf(printing, service, o, s, listing);
      && (group.Some? ==> RulesOf(printing, service, o, s.body.measurement, group.value) || NothingToAlert(o, group.value))
      && (group.None? ==> forall rules :: !RulesOf(printing, service, o, s.body.measurement, rules) && !NothingToAlert(o, rules))
  {
    hide RecordRule, BurnRule, LatencyRule, ZeroRule, WindowsOf, Orders.SortBy, Collected;
    WindowsAre(Burns(o), listing);
    var m := s.body.measurement;
    var group := GroupOf(printing, service, o, s, listing);
    if o.body.objective.RatioTarget? && o.body.burns.Some? {
      if m.Ratio? {
        assert RecordsThenAlerts(printing, service, o, m, Windows(listing), group.value);
      } else {
        ListsNothing(o, listing);
      }
    }
  }

  lemma ListsNothing(o: Document, listing: seq<string>)
    requires o.body.Slo? && IsListing(o, listing)
    ensures listing == [] <==> Burns(o) == []
  {
    Orders.SameElements(listing, Collected(Burns(o)));
    if Burns(o) != [] {
      assert Burns(o)[0] in Burns(o);
    }
  }

  // ---- the file --------------------------------------------------------------------------------

  /** The lines of one rule, six spaces in. */
  function RuleText(rule: Rule): string {
    if rule == [] then "" else "      " + rule[0] + "\n" + RuleText(rule[1..])
  }

  function RulesBlock(rules: seq<Rule>): string {
    if rules == [] then "" else RuleText(rules[0]) + RulesBlock(rules[1..])
  }

  function GroupText(o: Document, rules: seq<Rule>): string {
    "  - name: " + Quote(o.id) + "\n" + "    rules:\n" + RulesBlock(rules)
  }

  function GroupsText(slos: seq<Document>, groups: seq<seq<Rule>>): string
    requires |slos| == |groups|
  {
    if slos == [] then ""
    else
      var n := |slos| - 1;
      GroupsText(slos[..n], groups[..n]) + GroupText(slos[n], groups[n])
  }

  lemma {:induction false} JoinedJoins(a: seq<string>, b: seq<string>)
    ensures Joined(a + b) == Joined(a) + Joined(b)
  {
    if a == [] {
      assert a + b == b;
    } else {
      JoinedJoins(a[1..], b);
      assert (a + b)[0] == a[0] && (a + b)[1..] == a[1..] + b;
    }
  }

  lemma {:induction false} RuleLines(rule: Rule)
    ensures Joined(IndentedRule(rule)) == RuleText(rule)
  {
    if rule != [] {
      RuleLines(rule[1..]);
      assert IndentedRule(rule)[1..] == IndentedRule(rule[1..]);
    }
  }

  lemma {:induction false} RulesLines(rules: seq<Rule>)
    ensures Joined(Indented(rules)) == RulesBlock(rules)
  {
    hide Joined, IndentedRule, RuleText;
    if rules == [] {
      NoLines();
    } else {
      RulesLines(rules[1..]);
      RuleLines(rules[0]);
      JoinedJoins(IndentedRule(rules[0]), Indented(rules[1..]));
    }
  }

  lemma NoLines()
    ensures Joined([]) == ""
  {
  }

  lemma TwoLines(x: string, y: string)
    ensures Joined([x, y]) == x + "\n" + y + "\n"
  {
    OneLine(x);
    OneLine(y);
    JoinedJoins([x], [y]);
    assert [x] + [y] == [x, y] && (x + "\n") + (y + "\n") == x + "\n" + y + "\n";
  }

  lemma NamedBlock(name: string, rules: seq<Rule>)
    ensures Joined([name, "    rules:"] + Indented(rules)) == name + "\n" + "    rules:\n" + RulesBlock(rules)
  {
    hide Joined, Indented, RulesBlock;
    JoinedJoins([name, "    rules:"], Indented(rules));
    TwoLines(name, "    rules:");
    RulesLines(rules);
    Heads(name, RulesBlock(rules));
  }

  lemma GroupIsText(o: Document, rules: seq<Rule>)
    ensures Joined(GroupLines(o, rules)) == GroupText(o, rules)
  {
    hide Joined, Indented, RulesBlock, Quote;
    NamedBlock("  - name: " + Quote(o.id), rules);
  }

  lemma Heads(name: string, block: string)
    ensures name + "\n" + "    rules:" + "\n" + block == name + "\n" + "    rules:\n" + block
  {
    assert "    rules:" + "\n" == "    rules:\n";
  }

  /** Each group has the rules its SLO asks for, by the SLI it names. */
  ghost predicate GroupsOf(printing: Printing, service: string, docs: seq<Document>, slos: seq<Document>, groups: seq<seq<Rule>>) {
    && |slos| == |groups|
    && forall i | 0 <= i < |slos| :: GroupFits(printing, service, docs, slos[i], groups[i])
  }

  ghost predicate GroupFits(printing: Printing, service: string, docs: seq<Document>, o: Document, rules: seq<Rule>) {
    o.body.Slo? && exists s | s in docs ::
      s.body.Sli? && s.id == o.body.sliRef
      && (RulesOf(printing, service, o, s.body.measurement, rules) || NothingToAlert(o, rules))
  }

  lemma {:induction false} LinesAreGroups(printing: Printing, service: string, docs: seq<Document>, slos: seq<Document>,
                                          walk: seq<string> -> seq<string>) returns (groups: seq<seq<Rule>>)
    requires Walks(walk) && forall o | o in slos :: o.body.Slo?
    requires LinesOf(printing, service, docs, slos, walk).Some?
    ensures GroupsOf(printing, service, docs, slos, groups)
    ensures Joined(LinesOf(printing, service, docs, slos, walk).value) == GroupsText(slos, groups)
  {
    hide GroupOf, GroupLines, GroupText, RulesOf, NothingToAlert, Joined, Of, Collected;
    if slos == [] {
      groups := [];
      NoLines();
    } else {
      var n := |slos| - 1;
      var o := slos[n];
      var before := LinesAreGroups(printing, service, docs, slos[..n], walk);
      var s := Lookup(Of(docs, Indicators), o.body.sliRef).value;
      OfHolds(docs, Indicators);
      var listing := walk(Collected(Burns(o)));
      GroupIsRulesOf(printing, service, o, s, listing);
      var rules := GroupOf(printing, service, o, s, listing).value;
      groups := before + [rules];
      assert groups[..n] == before;
      assert GroupFits(printing, service, docs, o, rules);
      GroupIsText(o, rules);
      JoinedJoins(LinesOf(printing, service, docs, slos[..n], walk).value, GroupLines(o, rules));
    }
  }

  /** The file holds one group for each SLO of the service, in the order of their ids, and each group lists the
      rules its SLO asks for. */
  ghost predicate FileOf(printing: Printing, service: string, docs: seq<Document>, slos: seq<Document>, groups: seq<seq<Rule>>, text: string) {
    && (forall i, j | 0 <= i < j < |slos| :: slos[i].id != slos[j].id && Orders.Leq(slos[i].id, slos[j].id))
    && (forall d :: d in slos <==> d in docs && d.body.Slo? && d.body.service == service)
    && GroupsOf(printing, service, docs, slos, groups)
    && text == Joined(printing.preamble(service)) + "groups:\n" + GroupsText(slos, groups)
  }

  lemma SlosInOrder(docs: seq<Document>, service: string)
    requires UniqueIds(docs)
    ensures
      var slos := SlosOf(docs, service);
      && (forall i, j | 0 <= i < j < |slos| :: slos[i].id != slos[j].id && Orders.Leq(slos[i].id, slos[j].id))
      && (forall d :: d in slos <==> d in docs && d.body.Slo? && d.body.service == service)
  {
    hide Of, Orders.SortBy, Orders.Leq;
    var dict := Of(docs, Objectives);
    var found, slos := ForService(dict, service), SlosOf(docs, service);
    UniqueIdsCover(docs, Objectives);
    OfHolds(docs, Objectives);
    SlosAreSlos(docs, service);
    ForServiceDistinct(dict, service);
    Orders.SortByMultiset(IdLeq, found);
    Orders.DistinctForgetsOrder(found, slos);
    Orders.KeyOrder((d: Document) => d.id, IdLeq);
    Orders.SortBySorted(IdLeq, found);
    forall i, j | 0 <= i < j < |slos| ensures slos[i].id != slos[j].id && Orders.Leq(slos[i].id, slos[j].id) {
      assert IdLeq(slos[i], slos[j]) && slos[i] in slos && slos[j] in slos;
      OwnIds(dict, slos[i], slos[j]);
    }
  }

  lemma OwnIds(dict: seq<Document>, a: Document, b: Document)
    requires IdsDiffer(dict) && a in dict && b in dict && a != b
    ensures a.id != b.id
  {
    if a.id == b.id {
      SameIdSameDocument(dict, a, b);
    }
  }

  lemma RulesTextIsFile(printing: Printing, service: string, docs: seq<Document>, walk: seq<string> -> seq<string>)
    requires UniqueIds(docs) && Walks(walk) && RulesText(printing, service, docs, walk).Some?
    ensures exists slos, groups :: FileOf(printing, service, docs, slos, groups, RulesText(printing, service, docs, walk).value)
  {
    hide LinesOf, GroupsOf, GroupsText, Joined, SlosOf, UniqueIds;
    SlosAreSlos(docs, service);
    SlosInOrder(docs, service);
    var slos := SlosOf(docs, service);
    var groups := LinesAreGroups(printing, service, docs, slos, walk);
    var lines := LinesOf(printing, service, docs, slos, walk).value;
    JoinedJoins(Heading(printing, service), lines);
    JoinedJoins(printing.preamble(service), ["groups:"]);
    OneLine("groups:");
    assert FileOf(printing, service, docs, slos, groups, RulesText(printing, service, docs, walk).value);
  }

  lemma OneLine(x: string)
    ensures Joined([x]) == x + "\n"
  {
    assert [x][1..] == [];
  }

  // ---- when there is no file ---------------------------------------------------------------------

  /** The rules of the SLO can be written. */
  ghost predicate Writable(printing: Printing, service: string, docs: seq<Document>, o: Document) {
    exists rules :: GroupFits(printing, service, docs, o, rules)
  }

  lemma WritableIff(printing: Printing, service: string, docs: seq<Document>, o: Document, listing: seq<string>)
    requires UniqueIds(docs) && o.body.Slo? && IsListing(o, listing)
    ensures
      var s := Lookup(Of(docs, Indicators), o.body.sliRef);
      Writable(printing, service, docs, o) <==> s.Some? && s.value.body.Sli? && GroupOf(printing, service, o, s.value, listing).Some?
  {
    hide RulesOf, NothingToAlert, GroupOf, Of, UniqueIds, IsListing;
    UniqueIdsCover(docs, Indicators);
    OfHolds(docs, Indicators);
    var s := Lookup(Of(docs, Indicators), o.body.sliRef);
    forall d | d in docs && d.body.Sli? && d.id == o.body.sliRef ensures s == Some(d) {
      assert KindOf(d) == Indicators;
    }
    if s.Some? {
      assert KindOf(s.value) == Indicators;
      GroupIsRulesOf(printing, service, o, s.value, listing);
      var group := GroupOf(printing, service, o, s.value, listing);
      assert group.Some? ==> GroupFits(printing, service, docs, o, group.value);
    }
  }

  lemma {:induction false} LinesAreMissingIff(printing: Printing, service: string, docs: seq<Document>, slos: seq<Document>,
                                              walk: seq<string> -> seq<string>)
    requires UniqueIds(docs) && Walks(walk) && forall o | o in slos :: o.body.Slo?
    ensures LinesOf(printing, service, docs, slos, walk).Some? <==> forall i | 0 <= i < |slos| :: Writable(printing, service, docs, slos[i])
  {
    hide Writable, GroupOf, Of, UniqueIds, Collected, LinesOf, Lookup;
    if slos == [] {
      NoSlosNoLines(printing, service, docs, walk);
    } else {
      var n := |slos| - 1;
      var before, o := slos[..n], slos[n];
      assert slos == before + [o];
      LinesAreMissingIff(printing, service, docs, before, walk);
      WritableIff(printing, service, docs, o, walk(Collected(Burns(o))));
      LinesStep(printing, service, docs, before, o, walk);
      assert forall i | 0 <= i < n :: before[i] == slos[i];
    }
  }

  /** A file is generated exactly when the rules of every SLO of the service can be written. */
  lemma GeneratedIff(printing: Printing, service: string, docs: seq<Document>, walk: seq<string> -> seq<string>)
    requires UniqueIds(docs) && Walks(walk)
    ensures RulesText(printing, service, docs, walk).Some? <==>
      forall o | o in docs && o.body.Slo? && o.body.service == service :: Writable(printing, service, docs, o)
  {
    hide LinesOf, Writable, SlosOf, UniqueIds;
    SlosAreSlos(docs, service);
    SlosInOrder(docs, service);
    LinesAreMissingIff(printing, service, docs, SlosOf(docs, service), walk);
  }
}
