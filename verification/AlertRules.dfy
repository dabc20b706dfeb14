/** The alert-rule generator: one rule group per SLO, as text that must not depend on chance. */
module AlertRules {
  import opened Options
  import opened NfrDocuments
  import NfrGate
  import JsonText
  import Orders

  /** How Python prints and rounds floats, and the comment block at the head of a file: texts this model
      does not look into. */
  datatype Printing = Printing(text: real -> string, short: real -> string, round10: real -> real,
                             preamble: string -> seq<string>)

  type Rule = seq<string>

  function MetricChar(c: char): char {
    if 'a' <= c <= 'z' || 'A' <= c <= 'Z' || '0' <= c <= '9' || c == '_' then c else '_'
  }

  /** `_metric_name`. */
  function MetricName(id: string): string { seq(|id|, i requires 0 <= i < |id| => MetricChar(id[i])) }

  /** `_q`. */
  function Quote(s: string): string { "\"" + JsonText.Escape(s, false) + "\"" }

  /** `s.replace(old, new)` for a non-empty `old`. */
  function ReplaceAll(s: string, old_: string, new_: string): string
    requires old_ != ""
    decreases |s|
  {
    if s == "" then ""
    else if old_ <= s then new_ + ReplaceAll(s[|old_|..], old_, new_)
    else [s[0]] + ReplaceAll(s[1..], old_, new_)
  }

  function Matchers(m: string): string { if m == "" then "" else "{" + m + "}" }

  function RecordName(name: string, w: string): string { "slo:" + name + ":error_ratio:rate" + w }

  function Labels(service: string, o: Document): seq<string>
    requires o.body.Slo?
  {
    ["    service: " + Quote(service), "    slo: " + Quote(o.id), "    class: " + Quote(o.body.cls)]
  }

  function RecordRule(service: string, o: Document, m: Measurement, w: string): Rule
    requires o.body.Slo? && m.Ratio?
  {
    var good, valid := ReplaceAll(m.good, "{{window}}", w), ReplaceAll(m.valid, "{{window}}", w);
    ["- record: " + RecordName(MetricName(o.id), w),
     "  expr: " + Quote("1 - (" + good + ") / (" + valid + ")"),
     "  labels:"] + Labels(service, o)
  }

  function Times(x: real, y: real): real { x * y }

  /** What a burn-rate alert compares with: the factor times the error budget, both rounded. */
  function Bar(printing: Printing, percent: real, factor: real): real {
    printing.round10(Times(factor, printing.round10(1.0 - percent / 100.0)))
  }

  function Threshold(printing: Printing, o: Document, b: Burn): string
    requires o.body.Slo? && o.body.objective.RatioTarget?
  {
    printing.text(Bar(printing, o.body.objective.percent, b.factor))
  }

  /** What a burn-rate alert compares: the recorded ratios over its long and its short window. */
  function BurnExpr(printing: Printing, o: Document, b: Burn): string
    requires o.body.Slo? && o.body.objective.RatioTarget?
  {
    var name, t := MetricName(o.id), Threshold(printing, o, b);
    RecordName(name, b.long) + " > " + t + " and " + RecordName(name, b.short) + " > " + t
  }

  function BurnRule(printing: Printing, service: string, o: Document, b: Burn): Rule
    requires o.body.Slo? && o.body.objective.RatioTarget?
  {
    ["- alert: " + MetricName(o.id) + "_burn_" + b.long + "_" + b.short,
     "  expr: " + Quote(BurnExpr(printing, o, b)),
     "  labels:",
     "    severity: " + Quote(b.severity)] + Labels(service, o) +
    ["  annotations:",
     "    summary: " + Quote(o.id + ": error budget burning at " + printing.text(b.factor) + "x over " + b.long + " and "
                             + b.short + " (objective " + printing.text(o.body.objective.percent) + "% over " + o.body.window + ")"),
     "    source: " + Quote(o.body.source)]
  }

  function LatencyRule(printing: Printing, service: string, o: Document, m: Measurement, hold: string): Rule
    requires o.body.Slo? && o.body.objective.LatencyBound? && m.Distribution?
  {
    var q, seconds := printing.text(o.body.objective.percentile / 100.0), printing.text(o.body.objective.ms / 1000.0);
    var profile := if o.body.profileRef.Some? then o.body.profileRef.value else "None";
    ["- alert: " + MetricName(o.id),
     "  expr: " + Quote("histogram_quantile(" + q + ", sum by (le) (rate(" + m.histogram + "_bucket" + Matchers(m.matchers)
                        + "[5m]))) > " + seconds),
     "  for: " + hold,
     "  labels:",
     "    severity: " + Quote(o.body.severity)] + Labels(service, o) +
    ["  annotations:",
     "    summary: " + Quote(o.id + ": p" + printing.short(o.body.objective.percentile) + " above "
                             + printing.short(o.body.objective.ms) + " ms (CapacityProfile " + profile + ")"),
     "    source: " + Quote(o.body.source)]
  }

  function ZeroRule(service: string, o: Document, m: Measurement, hold: string): Rule
    requires o.body.Slo? && m.Count?
  {
    ["- alert: " + MetricName(o.id),
     "  expr: " + Quote("sum(increase(" + m.counter + Matchers(m.matchers) + "[5m])) > 0")] +
    (if Seconds(hold) > 0 then ["  for: " + hold] else []) +
    ["  labels:",
     "    severity: " + Quote(o.body.severity)] + Labels(service, o) +
    ["  annotations:",
     "    summary: " + Quote(o.id + ": any non-zero value is a " + o.body.severity),
     "    source: " + Quote(o.body.source)]
  }

  // ---- the windows -----------------------------------------------------------------------

  /** The set of windows an SLO burns over, as a list without repeats. */
  function Collected(burns: seq<Burn>): (ws: seq<string>)
    ensures Orders.Distinct(ws)
    ensures forall b | b in burns :: b.long in ws && b.short in ws
  {
    if burns == [] then []
    else
      var b := burns[|burns| - 1];
      assert burns == burns[..|burns| - 1] + [b];
      Orders.AddTo(Orders.AddTo(Collected(burns[..|burns| - 1]), b.long), b.short)
  }

  predicate Shorter(a: string, b: string) { Seconds(a) <= Seconds(b) }

  /** `listing` is the order the set happened to be walked in; the sort is stable. */
  function Windows(listing: seq<string>): seq<string> { Orders.SortBy(Shorter, listing) }

  /** A walk over the set: every window once, in any order. */
  predicate IsListing(o: Document, listing: seq<string>)
    requires o.body.Slo?
  {
    multiset(listing) == multiset(Collected(Burns(o)))
  }

  /** No two windows of the SLO have the same length. */
  predicate DurationsDiffer(o: Document)
    requires o.body.Slo?
  {
    forall v, w | v in Collected(Burns(o)) && w in Collected(Burns(o)) && Seconds(v) == Seconds(w) :: v == w
  }

  // ---- one group ---------------------------------------------------------------------------

  function Records(service: string, o: Document, m: Measurement, ws: seq<string>): (rules: seq<Rule>)
    requires o.body.Slo? && m.Ratio?
    ensures |rules| == |ws| && forall i | 0 <= i < |ws| :: rules[i] == RecordRule(service, o, m, ws[i])
  {
    seq(|ws|, i requires 0 <= i < |ws| => RecordRule(service, o, m, ws[i]))
  }

  function Burning(printing: Printing, service: string, o: Document): (rules: seq<Rule>)
    requires o.body.Slo? && o.body.objective.RatioTarget?
    ensures |rules| == |Burns(o)|
    ensures forall i | 0 <= i < |rules| :: rules[i] == BurnRule(printing, service, o, Burns(o)[i])
  {
    seq(|Burns(o)|, i requires 0 <= i < |Burns(o)| => BurnRule(printing, service, o, Burns(o)[i]))
  }

  /** The rules of one SLO; None where the code raises for want of a field. */
  function GroupOf(printing: Printing, service: string, o: Document, s: Document, listing: seq<string>): Option<seq<Rule>>
    requires o.body.Slo? && s.body.Sli?
  {
    var m := s.body.measurement;
    match o.body.objective
    case RatioTarget(_) =>
      if o.body.burns.None? then None
      else if m.Ratio? then Some(Records(service, o, m, Windows(listing)) + Burning(printing, service, o))
      else if listing == [] then Some(Burning(printing, service, o)) else None
    case LatencyBound(_, _) =>
      if m.Distribution? && o.body.hold.Some? then Some([LatencyRule(printing, service, o, m, o.body.hold.value)]) else None
    case Zero =>
      if m.Count? && o.body.hold.Some? then Some([ZeroRule(service, o, m, o.body.hold.value)]) else None
  }

  /** The two loops of `rules_for` for a ratio objective. */
  method RatioGroup(printing: Printing, service: string, o: Document, m: Measurement, ws: seq<string>) returns (rules: seq<Rule>)
    requires o.body.Slo? && o.body.objective.RatioTarget? && (m.Ratio? || ws == [])
    ensures m.Ratio? ==> rules == Records(service, o, m, ws) + Burning(printing, service, o)
    ensures !m.Ratio? ==> rules == Burning(printing, service, o)
  {
    hide RecordRule, BurnRule;
    rules := [];
    for i := 0 to |ws|
      invariant |rules| == i
      invariant m.Ratio? ==> rules == Records(service, o, m, ws)[..i]
    {
      rules := rules + [RecordRule(service, o, m, ws[i])];
    }
    ghost var before := rules;
    assert m.Ratio? ==> before == Records(service, o, m, ws);
    for i := 0 to |Burns(o)|
      invariant rules == before + Burning(printing, service, o)[..i]
    {
      rules := rules + [BurnRule(printing, service, o, Burns(o)[i])];
    }
  }

  /** The part of `rules_for` that fills `rules` for one SLO. */
  method Group(printing: Printing, service: string, o: Document, s: Document, listing: seq<string>) returns (rules: Option<seq<Rule>>)
    requires o.body.Slo? && s.body.Sli?
    ensures rules == GroupOf(printing, service, o, s, listing)
  {
    hide RecordRule, BurnRule, Records, Burning, LatencyRule, ZeroRule, Orders.SortBy;
    var m := s.body.measurement;
    match o.body.objective
    case RatioTarget(_) =>
      Orders.SortByMultiset(Shorter, listing);
      if o.body.burns.None? || (!m.Ratio? && listing != []) {
        return None;
      }
      var made := RatioGroup(printing, service, o, m, Windows(listing));
      return Some(made);
    case LatencyBound(_, _) =>
      if !m.Distribution? || o.body.hold.None? {
        return None;
      }
      return Some([LatencyRule(printing, service, o, m, o.body.hold.value)]);
    case Zero =>
      if !m.Count? || o.body.hold.None? {
        return None;
      }
      return Some([ZeroRule(service, o, m, o.body.hold.value)]);
  }

  /** Every recorded ratio a burn-rate alert reads is recorded earlier in the same group. */
  lemma AlertsReadEarlierRecords(printing: Printing, service: string, o: Document, s: Document, listing: seq<string>, k: nat)
    requires o.body.Slo? && s.body.Sli? && o.body.objective.RatioTarget? && s.body.measurement.Ratio?
    requires IsListing(o, listing) && k < |Burns(o)|
    ensures
      var group := GroupOf(printing, service, o, s, listing);
      var b := Burns(o)[k];
      && group.Some? && |group.value| == |listing| + |Burns(o)|
      && group.value[|listing| + k] == BurnRule(printing, service, o, b)
      && RecordedBefore(group.value, RecordName(MetricName(o.id), b.long), |listing|)
      && RecordedBefore(group.value, RecordName(MetricName(o.id), b.short), |listing|)
  {
    hide RecordRule, BurnRule, Orders.SortBy, RecordName, RecordedBefore, Collected, Shorter;
    WindowsCover(o, listing, k);
    var b := Burns(o)[k];
    RecordAppears(service, o, s.body.measurement, Windows(listing), b.long, Burning(printing, service, o));
    RecordAppears(service, o, s.body.measurement, Windows(listing), b.short, Burning(printing, service, o));
  }

  lemma WindowsCover(o: Document, listing: seq<string>, k: nat)
    requires o.body.Slo? && IsListing(o, listing) && k < |Burns(o)|
    ensures |Windows(listing)| == |listing|
    ensures Burns(o)[k].long in Windows(listing) && Burns(o)[k].short in Windows(listing)
  {
    hide Orders.SortBy;
    Orders.SortByMultiset(Shorter, listing);
    Orders.SameElements(Windows(listing), Collected(Burns(o)));
  }

  ghost predicate RecordedBefore(rules: seq<Rule>, name: string, before: nat) {
    exists i | 0 <= i < |rules| :: i < before && rules[i] != [] && rules[i][0] == "- record: " + name
  }

  lemma RecordAppears(service: string, o: Document, m: Measurement, ws: seq<string>, w: string, rest: seq<Rule>)
    requires o.body.Slo? && m.Ratio? && w in ws
    ensures RecordedBefore(Records(service, o, m, ws) + rest, RecordName(MetricName(o.id), w), |ws|)
  {
    var i :| 0 <= i < |ws| && ws[i] == w;
    var rules := Records(service, o, m, ws) + rest;
    assert rules[i] == RecordRule(service, o, m, w);
  }

  // ---- which walk over the set does not matter ------------------------------------------------

  lemma {:induction false} SortedStays(s: seq<string>)
    requires Orders.SortedBy(Shorter, s)
    ensures Windows(s) == s
  {
    if s == [] {
    } else {
      SortedStays(s[1..]);
      assert s == [s[0]] + s[1..];
      assert |s| > 1 ==> Shorter(s[0], s[1]);
    }
  }

  lemma ShorterIsOrder()
    ensures Orders.TotalPreorder(Shorter)
  {
  }

  lemma WindowsForget(o: Document, p: seq<string>, q: seq<string>)
    requires o.body.Slo? && DurationsDiffer(o) && IsListing(o, p) && IsListing(o, q)
    ensures Windows(p) == Windows(q)
  {
    Orders.SameElements(p, Collected(Burns(o)));
    Orders.SortForgetsOrder(Shorter, p, q);
  }

  function Swap(s: seq<string>, i: nat, j: nat): (t: seq<string>)
    requires i < j < |s|
    ensures |t| == |s| && t[i] == s[j] && t[j] == s[i]
    ensures forall k | 0 <= k < |s| && k != i && k != j :: t[k] == s[k]
  {
    s[i := s[j]][j := s[i]]
  }

  lemma SwapKeeps(s: seq<string>, i: nat, j: nat)
    requires i < j < |s|
    ensures multiset(Swap(s, i, j)) == multiset(s)
  {
  }

  lemma SwapSorted(s: seq<string>, i: nat, j: nat)
    requires i < j < |s| && Orders.SortedBy(Shorter, s) && Seconds(s[i]) == Seconds(s[j])
    ensures Orders.SortedBy(Shorter, Swap(s, i, j))
  {
    var t := Swap(s, i, j);
    assert forall k | 0 <= k < |s| :: Seconds(t[k]) == Seconds(s[k]);
    forall a, b | 0 <= a < b < |t| ensures Shorter(t[a], t[b]) {
      assert Shorter(s[a], s[b]);
    }
  }

  /** Two windows of one length leave two sorted lists, one for each walk over the set. */
  lemma TwoWalks(o: Document) returns (p: seq<string>, q: seq<string>)
    requires o.body.Slo? && !DurationsDiffer(o)
    ensures IsListing(o, p) && IsListing(o, q) && |p| == |q| && Windows(p) == p != q == Windows(q)
  {
    hide Orders.SortBy, Orders.SortedBy, Orders.TotalPreorder, Seconds, Collected;
    var ws := Collected(Burns(o));
    p := Windows(ws);
    ShorterIsOrder();
    Orders.SortByMultiset(Shorter, ws);
    Orders.SortBySorted(Shorter, ws);
    Orders.SameElements(ws, p);
    var v, w :| v in ws && w in ws && Seconds(v) == Seconds(w) && v != w;
    var a :| 0 <= a < |p| && p[a] == v;
    var b :| 0 <= b < |p| && p[b] == w;
    var i, j := if a < b then a else b, if a < b then b else a;
    q := Swap(p, i, j);
    SwapKeeps(p, i, j);
    SwapSorted(p, i, j);
    SortedStays(p);
    SortedStays(q);
    assert q[i] != p[i];
  }

  lemma GroupShowsWindows(printing: Printing, service: string, o: Document, s: Document, p: seq<string>, q: seq<string>)
    requires o.body.Slo? && s.body.Sli? && o.body.objective.RatioTarget? && s.body.measurement.Ratio?
    requires o.body.burns.Some? && |p| == |q|
    requires GroupOf(printing, service, o, s, p) == GroupOf(printing, service, o, s, q)
    ensures Windows(p) == Windows(q)
  {
    hide Orders.SortBy;
    Orders.SortByMultiset(Shorter, p);
    Orders.SortByMultiset(Shorter, q);
    var vs, ws := Windows(p), Windows(q);
    var m := s.body.measurement;
    var before, after := Records(service, o, m, vs), Records(service, o, m, ws);
    var rest := Burning(printing, service, o);
    assert before + rest == after + rest;
    forall i | 0 <= i < |vs| ensures vs[i] == ws[i] {
      assert (before + rest)[i] == before[i] && (after + rest)[i] == after[i];
      SameRecord(service, o, m, vs[i], ws[i]);
    }
  }

  lemma SameRecord(service: string, o: Document, m: Measurement, v: string, w: string)
    requires o.body.Slo? && m.Ratio? && RecordRule(service, o, m, v) == RecordRule(service, o, m, w)
    ensures v == w
  {
    var head := "- record: " + ("slo:" + MetricName(o.id) + ":error_ratio:rate");
    assert RecordRule(service, o, m, v)[0] == head + v && RecordRule(service, o, m, w)[0] == head + w;
    assert v == (head + v)[|head|..] && w == (head + w)[|head|..];
  }

  /** The rules of a ratio SLO are the same on every run exactly when its windows differ in length. */
  lemma GroupIsStableIff(printing: Printing, service: string, o: Document, s: Document)
    requires o.body.Slo? && s.body.Sli? && o.body.objective.RatioTarget? && s.body.measurement.Ratio?
    ensures (forall p, q | IsListing(o, p) && IsListing(o, q) ::
               GroupOf(printing, service, o, s, p) == GroupOf(printing, service, o, s, q)) <==> DurationsDiffer(o)
  {
    hide GroupOf, Windows, IsListing, DurationsDiffer;
    if DurationsDiffer(o) {
      forall p, q | IsListing(o, p) && IsListing(o, q)
        ensures GroupOf(printing, service, o, s, p) == GroupOf(printing, service, o, s, q)
      {
        WindowsForget(o, p, q);
        SameWindowsSameGroup(printing, service, o, s, p, q);
      }
    } else {
      var p, q := TwoWalks(o);
      if o.body.burns.None? {
        NoBurnsNoWindows(o);
      }
      if GroupOf(printing, service, o, s, p) == GroupOf(printing, service, o, s, q) {
        GroupShowsWindows(printing, service, o, s, p, q);
      }
    }
  }

  lemma NoBurnsNoWindows(o: Document)
    requires o.body.Slo? && o.body.burns.None?
    ensures DurationsDiffer(o)
  {
  }

  lemma SameWindowsSameGroup(printing: Printing, service: string, o: Document, s: Document, p: seq<string>, q: seq<string>)
    requires o.body.Slo? && s.body.Sli? && Windows(p) == Windows(q)
    ensures GroupOf(printing, service, o, s, p) == GroupOf(printing, service, o, s, q)
  {
    hide Orders.SortBy;
    Orders.SortByMultiset(Shorter, p);
    Orders.SortByMultiset(Shorter, q);
  }

  // ---- the file ------------------------------------------------------------------------------

  predicate IdLeq(a: Document, b: Document) { Orders.Leq(a.id, b.id) }

  function ForService(dict: seq<Document>, service: string): (r: seq<Document>)
    ensures forall d :: d in r <==> d in dict && d.body.Slo? && d.body.service == service
  {
    if dict == [] then []
    else
      assert dict == [dict[0]] + dict[1..];
      (if dict[0].body.Slo? && dict[0].body.service == service then [dict[0]] else []) + ForService(dict[1..], service)
  }

  /** The service's SLOs in id order. */
  function SlosOf(docs: seq<Document>, service: string): seq<Document> {
    Orders.SortBy(IdLeq, ForService(Of(docs, Objectives), service))
  }

  function Indented(rules: seq<Rule>): seq<string> {
    if rules == [] then [] else IndentedRule(rules[0]) + Indented(rules[1..])
  }

  function IndentedRule(rule: Rule): seq<string> { seq(|rule|, i requires 0 <= i < |rule| => "      " + rule[i]) }

  function GroupLines(o: Document, rules: seq<Rule>): seq<string> {
    ["  - name: " + Quote(o.id), "    rules:"] + Indented(rules)
  }

  function Heading(printing: Printing, service: string): seq<string> { printing.preamble(service) + ["groups:"] }

  function Joined(lines: seq<string>): string {
    if lines == [] then "" else lines[0] + "\n" + Joined(lines[1..])
  }

  /** The lines for the SLOs in turn; None where the code raises. `walk` lists each window set. */
  function LinesOf(printing: Printing, service: string, docs: seq<Document>, slos: seq<Document>, walk: seq<string> -> seq<string>)
      : Option<seq<string>>
    requires forall o | o in slos :: o.body.Slo?
  {
    if slos == [] then Some([])
    else
      var o := slos[|slos| - 1];
      var before := LinesOf(printing, service, docs, slos[..|slos| - 1], walk);
      var s := Lookup(Of(docs, Indicators), o.body.sliRef);
      if before.None? || s.None? || !s.value.body.Sli? then None
      else
        var rules := GroupOf(printing, service, o, s.value, walk(Collected(Burns(o))));
        if rules.None? then None else Some(before.value + GroupLines(o, rules.value))
  }

  lemma SlosAreSlos(docs: seq<Document>, service: string)
    ensures forall o :: o in SlosOf(docs, service) <==> o in ForService(Of(docs, Objectives), service)
    ensures forall o | o in SlosOf(docs, service) :: o.body.Slo?
  {
    Orders.SortByMultiset(IdLeq, ForService(Of(docs, Objectives), service));
    Orders.SameElements(SlosOf(docs, service), ForService(Of(docs, Objectives), service));
  }

  function RulesText(printing: Printing, service: string, docs: seq<Document>, walk: seq<string> -> seq<string>): Option<string> {
    SlosAreSlos(docs, service);
    var lines := LinesOf(printing, service, docs, SlosOf(docs, service), walk);
    if lines.None? then None else Some(Joined(Heading(printing, service) + lines.value))
  }

  /** `rules_for`. */
  method RulesFor(printing: Printing, service: string, docs: seq<Document>, walk: seq<string> -> seq<string>) returns (text: Option<string>)
    ensures text == RulesText(printing, service, docs, walk)
  {
    hide Of, GroupOf, GroupLines, Joined, Heading, LinesOf, Collected, SlosOf;
    var slos := SlosOf(docs, service);
    SlosAreSlos(docs, service);
    NfrGate.KindsAreBodies(docs);
    var lines := Heading(printing, service);
    NoSlosNoLines(printing, service, docs, walk);
    for i := 0 to |slos|
      invariant LinesOf(printing, service, docs, slos[..i], walk).Some?
      invariant lines == Heading(printing, service) + LinesOf(printing, service, docs, slos[..i], walk).value
    {
      var o := slos[i];
      assert slos[..i + 1] == slos[..i] + [o] && o in slos;
      LinesStep(printing, service, docs, slos[..i], o, walk);
      var s := Lookup(Of(docs, Indicators), o.body.sliRef);
      if s.None? {
        NoLinesLater(printing, service, docs, slos, walk, i + 1);
        return None;
      }
      var rules := Group(printing, service, o, s.value, walk(Collected(Burns(o))));
      if rules.None? {
        NoLinesLater(printing, service, docs, slos, walk, i + 1);
        return None;
      }
      lines := lines + GroupLines(o, rules.value);
    }
    assert slos[..|slos|] == slos;
    return Some(Joined(lines));
  }

  lemma NoSlosNoLines(printing: Printing, service: string, docs: seq<Document>, walk: seq<string> -> seq<string>)
    ensures LinesOf(printing, service, docs, [], walk) == Some([])
  {
  }

  lemma LinesStep(printing: Printing, service: string, docs: seq<Document>, slos: seq<Document>, o: Document,
                  walk: seq<string> -> seq<string>)
    requires o.body.Slo? && forall x | x in slos :: x.body.Slo?
    ensures
      var before := LinesOf(printing, service, docs, slos, walk);
      var s := Lookup(Of(docs, Indicators), o.body.sliRef);
      LinesOf(printing, service, docs, slos + [o], walk)
        == if before.None? || s.None? || !s.value.body.Sli? then None
           else
             var rules := GroupOf(printing, service, o, s.value, walk(Collected(Burns(o))));
             if rules.None? then None else Some(before.value + GroupLines(o, rules.value))
  {
    assert (slos + [o])[..|slos + [o]| - 1] == slos;
  }

  lemma {:induction false} NoLinesLater(printing: Printing, service: string, docs: seq<Document>, slos: seq<Document>,
                                        walk: seq<string> -> seq<string>, i: nat)
    requires i <= |slos| && forall o | o in slos :: o.body.Slo?
    requires LinesOf(printing, service, docs, slos[..i], walk).None?
    ensures LinesOf(printing, service, docs, slos, walk).None?
  {
    if i == |slos| {
      assert slos[..i] == slos;
    } else {
      assert slos[..|slos| - 1][..i] == slos[..i];
      NoLinesLater(printing, service, docs, slos[..|slos| - 1], walk, i);
    }
  }

  // ---- the file forgets the order of the corpus ---------------------------------------------------

  ghost predicate Walks(walk: seq<string> -> seq<string>) {
    forall ws :: multiset(walk(ws)) == multiset(ws)
  }

  lemma UniqueIdsForgetOrder(docs: seq<Document>, other: seq<Document>)
    requires UniqueIds(docs) && multiset(docs) == multiset(other)
    ensures UniqueIds(other)
  {
    assert Orders.Distinct(docs);
    Orders.DistinctForgetsOrder(docs, other);
    Orders.SameElements(docs, other);
    forall i, j | 0 <= i < j < |other| && KindOf(other[i]) == KindOf(other[j]) ensures other[i].id != other[j].id {
      UniqueMeansOneEach(docs, KindOf(other[i]));
      assert other[i] in docs && other[j] in docs;
    }
  }

  lemma DictionariesAgree(docs: seq<Document>, other: seq<Document>, kind: Kind)
    requires UniqueIds(docs) && UniqueIds(other) && forall d :: d in docs <==> d in other
    ensures forall d :: d in Of(docs, kind) <==> d in Of(other, kind)
    ensures forall id :: Lookup(Of(docs, kind), id) == Lookup(Of(other, kind), id)
  {
    UniqueIdsCover(docs, kind);
    UniqueIdsCover(other, kind);
    forall id ensures Lookup(Of(docs, kind), id) == Lookup(Of(other, kind), id) {
      var a, b := Lookup(Of(docs, kind), id), Lookup(Of(other, kind), id);
      if a.Some? {
        assert Lookup(Of(other, kind), a.value.id) == Some(a.value);
      }
      if b.Some? {
        assert Lookup(Of(docs, kind), b.value.id) == Some(b.value);
      }
    }
  }

  lemma {:induction false} ForServiceDistinct(dict: seq<Document>, service: string)
    requires IdsDiffer(dict)
    ensures Orders.Distinct(ForService(dict, service))
  {
    if dict == [] {
    } else {
      ForServiceDistinct(dict[1..], service);
      forall k | 0 <= k < |ForService(dict[1..], service)| ensures ForService(dict[1..], service)[k] != dict[0] {
        assert ForService(dict[1..], service)[k] in dict[1..];
      }
    }
  }

  lemma SlosAgree(docs: seq<Document>, other: seq<Document>, service: string)
    requires UniqueIds(docs) && UniqueIds(other) && forall d :: d in docs <==> d in other
    ensures SlosOf(docs, service) == SlosOf(other, service)
  {
    DictionariesAgree(docs, other, Objectives);
    OfHolds(docs, Objectives);
    OfHolds(other, Objectives);
    var a, b := ForService(Of(docs, Objectives), service), ForService(Of(other, Objectives), service);
    ForServiceDistinct(Of(docs, Objectives), service);
    ForServiceDistinct(Of(other, Objectives), service);
    Orders.SameMembersSameMultiset(a, b);
    Orders.KeyOrder((d: Document) => d.id, IdLeq);
    forall x, y | x in a && y in a && IdLeq(x, y) && IdLeq(y, x) ensures x == y {
      Orders.LeqTotal(x.id, y.id);
      SameIdSameDocument(Of(docs, Objectives), x, y);
    }
    Orders.SortForgetsOrder(IdLeq, a, b);
  }

  lemma {:induction false} LinesAgree(printing: Printing, service: string, docs: seq<Document>, other: seq<Document>,
                                      slos: seq<Document>, walk: seq<string> -> seq<string>, stroll: seq<string> -> seq<string>)
    requires Walks(walk) && Walks(stroll)
    requires forall id :: Lookup(Of(docs, Indicators), id) == Lookup(Of(other, Indicators), id)
    requires forall o | o in slos :: o.body.Slo? && DurationsDiffer(o)
    ensures LinesOf(printing, service, docs, slos, walk) == LinesOf(printing, service, other, slos, stroll)
  {
    hide GroupOf, GroupLines, Of, DurationsDiffer, Windows;
    if slos == [] {
    } else {
      var o := slos[|slos| - 1];
      LinesAgree(printing, service, docs, other, slos[..|slos| - 1], walk, stroll);
      var ws := Collected(Burns(o));
      assert IsListing(o, walk(ws)) && IsListing(o, stroll(ws));
      WindowsForget(o, walk(ws), stroll(ws));
      var s := Lookup(Of(docs, Indicators), o.body.sliRef);
      if s.Some? && s.value.body.Sli? {
        SameWindowsSameGroup(printing, service, o, s.value, walk(ws), stroll(ws));
      }
    }
  }

  /** The generated text is the same for every order of a corpus with unique ids and for every walk over
      the window sets, when no SLO of the service has two windows of one length. */
  lemma RulesForgetOrder(printing: Printing, service: string, docs: seq<Document>, other: seq<Document>,
                         walk: seq<string> -> seq<string>, stroll: seq<string> -> seq<string>)
    requires UniqueIds(docs) && multiset(docs) == multiset(other) && Walks(walk) && Walks(stroll)
    requires forall o | o in docs && o.body.Slo? && o.body.service == service :: DurationsDiffer(o)
    ensures RulesText(printing, service, docs, walk) == RulesText(printing, service, other, stroll)
  {
    hide DurationsDiffer, LinesOf, SlosOf, Of, ForService;
    UniqueIdsForgetOrder(docs, other);
    Orders.SameElements(docs, other);
    SlosAgree(docs, other, service);
    DictionariesAgree(docs, other, Indicators);
    SlosAreSlos(docs, service);
    OfHolds(docs, Objectives);
    LinesAgree(printing, service, docs, other, SlosOf(docs, service), walk, stroll);
  }

  // ---- after the gate ------------------------------------------------------------------------------

  lemma {:induction false} LinesExist(printing: Printing, service: string, docs: seq<Document>, slos: seq<Document>,
                                      walk: seq<string> -> seq<string>)
    requires NfrGate.Sound(docs) && forall o | o in slos :: o in docs && o.body.Slo?
    ensures LinesOf(printing, service, docs, slos, walk).Some?
  {
    hide NfrGate.Sound, Of, GroupLines, GroupOf;
    if slos == [] {
    } else {
      var o := slos[|slos| - 1];
      LinesExist(printing, service, docs, slos[..|slos| - 1], walk);
      GroupExists(printing, service, docs, o, walk(Collected(Burns(o))));
    }
  }

  lemma GroupExists(printing: Printing, service: string, docs: seq<Document>, o: Document, listing: seq<string>)
    requires NfrGate.Sound(docs) && o in docs && o.body.Slo?
    ensures
      var s := Lookup(Of(docs, Indicators), o.body.sliRef);
      s.Some? && s.value.body.Sli? && GroupOf(printing, service, o, s.value, listing).Some?
  {
    hide Of;
    NfrGate.SloCleanIffHolds(docs, o);
  }

  /** A corpus the gate passes generates rules for every service: no field the generator reads is missing. */
  lemma SoundCorpusGenerates(printing: Printing, service: string, docs: seq<Document>, walk: seq<string> -> seq<string>)
    requires NfrGate.Sound(docs)
    ensures RulesText(printing, service, docs, walk).Some?
  {
    hide LinesOf, SlosOf, NfrGate.Sound, Of;
    SlosAreSlos(docs, service);
    OfHolds(docs, Objectives);
    LinesExist(printing, service, docs, SlosOf(docs, service), walk);
  }
}
