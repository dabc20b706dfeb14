/** When the generated rules file is the same on every run, said of its text. */
module AlertStability {
  import opened Options
  import opened Numerals
  import opened NfrDocuments
  import opened AlertRules
  import NfrGate
  import Orders

  // ---- texts that part ways ------------------------------------------------------------

  /** The two texts differ at some place that both reach. */
  ghost predicate Parts(s: string, t: string) {
    exists k | 0 <= k < |s| && k < |t| :: s[..k] == t[..k] && s[k] != t[k]
  }

  /** Whatever stands before and after, texts that part stay apart. */
  lemma PartsWithin(before: string, s: string, t: string, x: string, y: string)
    requires Parts(s, t)
    ensures Parts(before + s + x, before + t + y)
  {
    var k :| 0 <= k < |s| && k < |t| && s[..k] == t[..k] && s[k] != t[k];
    var a, b := before + s + x, before + t + y;
    assert a[|before| + k] == s[k] && b[|before| + k] == t[k];
    assert a[..|before| + k] == before + s[..k] && b[..|before| + k] == before + t[..k];
  }

  lemma PartsAfter(before: string, s: string, t: string)
    requires Parts(s, t)
    ensures Parts(before + s, before + t)
  {
    PartsWithin(before, s, t, "", "");
    assert before + s + "" == before + s && before + t + "" == before + t;
  }

  lemma PartsBefore(s: string, t: string, x: string, y: string)
    requires Parts(s, t)
    ensures Parts(s + x, t + y)
  {
    PartsWithin("", s, t, x, y);
    assert "" + s + x == s + x && "" + t + y == t + y;
  }

  predicate OneLine(s: string) { '\n' !in s }

  /** Two different lines part by their line ends. */
  lemma {:induction false} LinesPart(v: string, w: string)
    requires v != w && OneLine(v) && OneLine(w)
    ensures Parts(v + "\n", w + "\n")
  {
    if v == "" || w == "" || v[0] != w[0] {
      assert (v + "\n")[..0] == (w + "\n")[..0];
      assert (v + "\n")[0] != (w + "\n")[0];
    } else {
      assert v == [v[0]] + v[1..] && w == [v[0]] + w[1..];
      LinesPart(v[1..], w[1..]);
      PartsWithin([v[0]], v[1..] + "\n", w[1..] + "\n", "", "");
      assert [v[0]] + (v[1..] + "\n") + "" == v + "\n" && [v[0]] + (w[1..] + "\n") + "" == w + "\n";
    }
  }

  lemma {:induction false} JoinedAppend(a: seq<string>, b: seq<string>)
    ensures Joined(a + b) == Joined(a) + Joined(b)
  {
    if a == [] {
      assert a + b == b;
    } else {
      assert (a + b)[0] == a[0] && (a + b)[1..] == a[1..] + b;
      JoinedAppend(a[1..], b);
    }
  }

  // ---- from windows to text --------------------------------------------------------------

  /** A readable duration is one line. */
  lemma TimedIsOneLine(d: string)
    requires Timed(d)
    ensures OneLine(d)
  {
    var k := LeadingDigits(d);
    assert d == d[..k] + d[k..];
    assert OneLine(d[k..]) && forall i | 0 <= i < k :: Digit(d[..k][i]);
  }

  function RecordHead(o: Document): string { "      - record: slo:" + MetricName(o.id) + ":error_ratio:rate" }

  lemma RecordFirst(service: string, o: Document, m: Measurement, w: string)
    requires o.body.Slo? && m.Ratio?
    ensures
      var lines := IndentedRule(RecordRule(service, o, m, w));
      lines != [] && lines[0] == RecordHead(o) + w
  {
    var rule := RecordRule(service, o, m, w);
    assert rule[0] == "- record: " + RecordName(MetricName(o.id), w);
    assert "      " + ("- record: " + RecordName(MetricName(o.id), w)) == RecordHead(o) + w;
  }

  /** A record rule's text begins with the recorded name's line. */
  lemma RecordText(service: string, o: Document, m: Measurement, w: string) returns (rest: string)
    requires o.body.Slo? && m.Ratio?
    ensures Joined(IndentedRule(RecordRule(service, o, m, w))) == RecordHead(o) + (w + "\n") + rest
  {
    hide RecordRule, IndentedRule, RecordHead;
    RecordFirst(service, o, m, w);
    rest := Joined(IndentedRule(RecordRule(service, o, m, w))[1..]);
    assert RecordHead(o) + w + "\n" + rest == RecordHead(o) + (w + "\n") + rest;
  }

  lemma IndentedHead(rules: seq<Rule>)
    requires rules != []
    ensures Joined(Indented(rules)) == Joined(IndentedRule(rules[0])) + Joined(Indented(rules[1..]))
  {
    JoinedAppend(IndentedRule(rules[0]), Indented(rules[1..]));
  }

  /** Different windows give rule texts that part, at the first record whose window differs. */
  lemma {:induction false} RulesPart(service: string, o: Document, m: Measurement, vs: seq<string>, ws: seq<string>, rest: seq<Rule>)
    requires o.body.Slo? && m.Ratio? && |vs| == |ws| && vs != ws
    requires forall v | v in vs || v in ws :: OneLine(v)
    ensures Parts(Joined(Indented(Records(service, o, m, vs) + rest)), Joined(Indented(Records(service, o, m, ws) + rest)))
  {
    hide RecordRule, IndentedRule, Parts, OneLine, Joined, RecordHead;
    var a, b := Records(service, o, m, vs) + rest, Records(service, o, m, ws) + rest;
    assert a[1..] == Records(service, o, m, vs[1..]) + rest && b[1..] == Records(service, o, m, ws[1..]) + rest;
    IndentedHead(a);
    IndentedHead(b);
    if vs[0] != ws[0] {
      RecordsPart(service, o, m, vs[0], ws[0], Joined(Indented(a[1..])), Joined(Indented(b[1..])));
    } else {
      assert vs == [vs[0]] + vs[1..] && ws == [vs[0]] + ws[1..];
      RulesPart(service, o, m, vs[1..], ws[1..], rest);
      PartsAfter(Joined(IndentedRule(a[0])), Joined(Indented(a[1..])), Joined(Indented(b[1..])));
    }
  }

  lemma RecordsPart(service: string, o: Document, m: Measurement, v: string, w: string, x: string, y: string)
    requires o.body.Slo? && m.Ratio? && v != w && OneLine(v) && OneLine(w)
    ensures Parts(Joined(IndentedRule(RecordRule(service, o, m, v))) + x, Joined(IndentedRule(RecordRule(service, o, m, w))) + y)
  {
    hide RecordRule, IndentedRule, Parts, OneLine, Joined, RecordHead;
    var r := RecordText(service, o, m, v);
    var t := RecordText(service, o, m, w);
    LinesPart(v, w);
    PartsWithin(RecordHead(o), v + "\n", w + "\n", r + x, t + y);
    assert RecordHead(o) + (v + "\n") + r + x == RecordHead(o) + (v + "\n") + (r + x);
    assert RecordHead(o) + (w + "\n") + t + y == RecordHead(o) + (w + "\n") + (t + y);
  }

  /** So do the groups of one SLO. */
  lemma GroupsPart(printing: Printing, service: string, o: Document, s: Document, p: seq<string>, q: seq<string>)
    requires o.body.Slo? && s.body.Sli? && o.body.objective.RatioTarget? && s.body.measurement.Ratio? && o.body.burns.Some?
    requires IsListing(o, p) && IsListing(o, q) && Windows(p) != Windows(q)
    requires forall w | w in Collected(Burns(o)) :: OneLine(w)
    ensures GroupOf(printing, service, o, s, p).Some? && GroupOf(printing, service, o, s, q).Some?
    ensures Parts(Joined(GroupLines(o, GroupOf(printing, service, o, s, p).value)),
                  Joined(GroupLines(o, GroupOf(printing, service, o, s, q).value)))
  {
    hide Orders.SortBy, Parts, Records, Burning, Indented, Joined, OneLine, Collected;
    Orders.SortByMultiset(Shorter, p);
    Orders.SortByMultiset(Shorter, q);
    var vs, ws := Windows(p), Windows(q);
    Orders.SameElements(vs, Collected(Burns(o)));
    Orders.SameElements(ws, Collected(Burns(o)));
    var m, rest := s.body.measurement, Burning(printing, service, o);
    RulesPart(service, o, m, vs, ws, rest);
    var a, b := Indented(Records(service, o, m, vs) + rest), Indented(Records(service, o, m, ws) + rest);
    var head := ["  - name: " + Quote(o.id), "    rules:"];
    JoinedAppend(head, a);
    JoinedAppend(head, b);
    PartsAfter(Joined(head), Joined(a), Joined(b));
  }

  // ---- two walks -----------------------------------------------------------------------------

  /** The walk that lists one window set as `p` and every other as it comes. */
  function WalkTo(ws: seq<string>, p: seq<string>): seq<string> -> seq<string> {
    (x: seq<string>) => if x == ws then p else x
  }

  lemma WalkToWalks(ws: seq<string>, p: seq<string>)
    requires multiset(p) == multiset(ws)
    ensures Walks(WalkTo(ws, p))
  {
  }

  /** What the gate leaves of an SLO with burn rates: a ratio target over a ratio SLI. */
  ghost predicate Generates(docs: seq<Document>, o: Document) {
    && o.body.Slo? && NfrGate.Sound(docs) && o in docs
    && forall w | w in Collected(Burns(o)) :: OneLine(w)
  }

  /** Two walks that differ on the set `ws` give, SLO after SLO, the same lines until one burns over `ws`,
      and from there on texts that part. */
  lemma {:induction false} LinesPartOrAgree(printing: Printing, service: string, docs: seq<Document>, slos: seq<Document>,
                                            ws: seq<string>, p: seq<string>, q: seq<string>)
    requires forall o | o in slos :: o.body.Slo? && Generates(docs, o)
    requires multiset(p) == multiset(q) == multiset(ws) && ws != [] && Windows(p) != Windows(q)
    ensures
      var a, b := LinesOf(printing, service, docs, slos, WalkTo(ws, p)), LinesOf(printing, service, docs, slos, WalkTo(ws, q));
      && a.Some? && b.Some?
      && if exists o | o in slos :: Collected(Burns(o)) == ws then Parts(Joined(a.value), Joined(b.value)) else a == b
  {
    hide GroupOf, GroupLines, Joined, Collected, Of, Generates, Parts, Windows, WalkTo, LinesOf;
    if slos == [] {
      NoSlosNoLines(printing, service, docs, WalkTo(ws, p));
      NoSlosNoLines(printing, service, docs, WalkTo(ws, q));
    } else {
      var n := |slos| - 1;
      var rest, o := slos[..n], slos[n];
      assert slos == rest + [o];
      LinesPartOrAgree(printing, service, docs, rest, ws, p, q);
      var x := OneMoreSlo(printing, service, docs, rest, o, WalkTo(ws, p));
      var y := OneMoreSlo(printing, service, docs, rest, o, WalkTo(ws, q));
      var a, b := LinesOf(printing, service, docs, rest, WalkTo(ws, p)).value, LinesOf(printing, service, docs, rest, WalkTo(ws, q)).value;
      if exists r | r in rest :: Collected(Burns(r)) == ws {
        PartsBefore(Joined(a), Joined(b), Joined(x), Joined(y));
      } else if Collected(Burns(o)) == ws {
        WalkToAt(ws, p);
        WalkToAt(ws, q);
        OwnGroupsPart(printing, service, docs, o, p, q);
        PartsAfter(Joined(a), Joined(x), Joined(y));
      } else {
        WalkToElsewhere(ws, p, Collected(Burns(o)));
        WalkToElsewhere(ws, q, Collected(Burns(o)));
      }
    }
  }

  lemma WalkToAt(ws: seq<string>, p: seq<string>)
    ensures WalkTo(ws, p)(ws) == p
  {
  }

  lemma WalkToElsewhere(ws: seq<string>, p: seq<string>, x: seq<string>)
    requires x != ws
    ensures WalkTo(ws, p)(x) == x
  {
  }

  /** The lines of one more SLO come after those before it. */
  lemma OneMoreSlo(printing: Printing, service: string, docs: seq<Document>, slos: seq<Document>, o: Document,
                   walk: seq<string> -> seq<string>) returns (lines: seq<string>)
    requires (forall x | x in slos :: x.body.Slo?) && o.body.Slo? && Generates(docs, o)
    requires LinesOf(printing, service, docs, slos, walk).Some?
    ensures
      var s := Lookup(Of(docs, Indicators), o.body.sliRef);
      && s.Some? && s.value.body.Sli? && GroupOf(printing, service, o, s.value, walk(Collected(Burns(o)))).Some?
      && lines == GroupLines(o, GroupOf(printing, service, o, s.value, walk(Collected(Burns(o)))).value)
    ensures
      var before, after := LinesOf(printing, service, docs, slos, walk), LinesOf(printing, service, docs, slos + [o], walk);
      after == Some(before.value + lines) && Joined(after.value) == Joined(before.value) + Joined(lines)
  {
    hide GroupOf, GroupLines, Joined, Collected, Of, Generates, LinesOf;
    GeneratesGroup(printing, service, docs, o, walk(Collected(Burns(o))));
    LinesStep(printing, service, docs, slos, o, walk);
    var s := Lookup(Of(docs, Indicators), o.body.sliRef).value;
    lines := GroupLines(o, GroupOf(printing, service, o, s, walk(Collected(Burns(o)))).value);
    JoinedAppend(LinesOf(printing, service, docs, slos, walk).value, lines);
  }

  lemma GeneratesGroup(printing: Printing, service: string, docs: seq<Document>, o: Document, listing: seq<string>)
    requires Generates(docs, o)
    ensures
      var s := Lookup(Of(docs, Indicators), o.body.sliRef);
      o.body.Slo? && s.Some? && s.value.body.Sli? && GroupOf(printing, service, o, s.value, listing).Some?
  {
    GroupExists(printing, service, docs, o, listing);
  }

  lemma OwnGroupsPart(printing: Printing, service: string, docs: seq<Document>, o: Document, p: seq<string>, q: seq<string>)
    requires Generates(docs, o) && Collected(Burns(o)) != []
    requires multiset(p) == multiset(q) == multiset(Collected(Burns(o))) && Windows(p) != Windows(q)
    ensures
      var s := Lookup(Of(docs, Indicators), o.body.sliRef);
      && s.Some? && s.value.body.Sli?
      && GroupOf(printing, service, o, s.value, p).Some? && GroupOf(printing, service, o, s.value, q).Some?
      && Parts(Joined(GroupLines(o, GroupOf(printing, service, o, s.value, p).value)),
               Joined(GroupLines(o, GroupOf(printing, service, o, s.value, q).value)))
  {
    hide GroupOf, GroupLines, Parts, Windows, Joined;
    GeneratesGroup(printing, service, docs, o, p);
    BurningIsRatio(docs, o);
    GroupsPart(printing, service, o, Lookup(Of(docs, Indicators), o.body.sliRef).value, p, q);
  }

  /** In a sound corpus only a ratio SLO over a ratio SLI burns. */
  lemma BurningIsRatio(docs: seq<Document>, o: Document)
    requires Generates(docs, o) && Collected(Burns(o)) != []
    ensures
      var s := Lookup(Of(docs, Indicators), o.body.sliRef);
      s.Some? && s.value.body.Sli? && o.body.objective.RatioTarget? && s.value.body.measurement.Ratio? && o.body.burns.Some?
  {
    hide Of;
    NfrGate.SloCleanIffHolds(docs, o);
    assert Burns(o) != [];
  }

  /** A sound corpus generates the same file on every run, whatever order the window sets are walked in,
      exactly when no SLO of the service burns over two windows of one duration. */
  lemma RulesAreStableIff(printing: Printing, service: string, docs: seq<Document>)
    requires NfrGate.Sound(docs)
    requires forall o, w | o in docs && o.body.Slo? && o.body.service == service && w in Collected(Burns(o)) :: Timed(w)
    ensures (forall walk, stroll | Walks(walk) && Walks(stroll) ::
               RulesText(printing, service, docs, walk) == RulesText(printing, service, docs, stroll))
       <==> forall o | o in docs && o.body.Slo? && o.body.service == service :: DurationsDiffer(o)
  {
    hide DurationsDiffer, RulesText, NfrGate.Sound, Collected, Timed;
    if forall o | o in docs && o.body.Slo? && o.body.service == service :: DurationsDiffer(o) {
      NfrGate.SoundIsUnique(docs);
      forall walk, stroll | Walks(walk) && Walks(stroll)
        ensures RulesText(printing, service, docs, walk) == RulesText(printing, service, docs, stroll)
      {
        RulesForgetOrder(printing, service, docs, docs, walk, stroll);
      }
    } else {
      var o :| o in docs && o.body.Slo? && o.body.service == service && !DurationsDiffer(o);
      TwoTexts(printing, service, docs, o);
    }
  }

  /** Two walks and the two files they lead to. */
  lemma TwoTexts(printing: Printing, service: string, docs: seq<Document>, o: Document)
    requires NfrGate.Sound(docs) && o in docs && o.body.Slo? && o.body.service == service && !DurationsDiffer(o)
    requires forall x, w | x in docs && x.body.Slo? && x.body.service == service && w in Collected(Burns(x)) :: Timed(w)
    ensures exists walk, stroll :: Walks(walk) && Walks(stroll)
              && RulesText(printing, service, docs, walk) != RulesText(printing, service, docs, stroll)
  {
    hide DurationsDiffer, NfrGate.Sound, Collected, Timed, LinesOf, SlosOf, Windows, Heading, Joined, Parts, Of, ForService, WalkTo;
    var p, q := TwoWalks(o);
    var ws := Collected(Burns(o));
    SomeWindows(o);
    WalkToWalks(ws, p);
    WalkToWalks(ws, q);
    ServiceGenerates(service, docs, o);
    SlosAreSlos(docs, service);
    LinesPartOrAgree(printing, service, docs, SlosOf(docs, service), ws, p, q);
    var a := LinesOf(printing, service, docs, SlosOf(docs, service), WalkTo(ws, p)).value;
    var b := LinesOf(printing, service, docs, SlosOf(docs, service), WalkTo(ws, q)).value;
    JoinedAppend(Heading(printing, service), a);
    JoinedAppend(Heading(printing, service), b);
    PartsDiffer(Joined(a), Joined(b));
    SameStart(Joined(Heading(printing, service)), Joined(a), Joined(b));
    assert RulesText(printing, service, docs, WalkTo(ws, p)) != RulesText(printing, service, docs, WalkTo(ws, q));
  }

  lemma PartsDiffer(s: string, t: string)
    requires Parts(s, t)
    ensures s != t
  {
  }

  lemma SameStart(before: string, s: string, t: string)
    requires s != t
    ensures before + s != before + t
  {
    assert (before + s)[|before|..] == s && (before + t)[|before|..] == t;
  }

  lemma SomeWindows(o: Document)
    requires o.body.Slo? && !DurationsDiffer(o)
    ensures Collected(Burns(o)) != []
  {
  }

  lemma ServiceGenerates(service: string, docs: seq<Document>, o: Document)
    requires NfrGate.Sound(docs) && o in docs && o.body.Slo? && o.body.service == service
    requires forall x, w | x in docs && x.body.Slo? && x.body.service == service && w in Collected(Burns(x)) :: Timed(w)
    ensures o in SlosOf(docs, service) && forall x | x in SlosOf(docs, service) :: x.body.Slo? && Generates(docs, x)
  {
    hide NfrGate.Sound, Collected, Timed, SlosOf, Of, OneLine;
    SlosAreSlos(docs, service);
    OfHolds(docs, Objectives);
    NfrGate.SoundIsUnique(docs);
    UniqueIdsCover(docs, Objectives);
    forall x | x in SlosOf(docs, service) ensures Generates(docs, x) {
      forall w | w in Collected(Burns(x)) ensures OneLine(w) {
        TimedIsOneLine(w);
      }
    }
  }

  // ---- an input --------------------------------------------------------------------------------

  /** An SLO that burns over `60s` and over `1m` has two windows of one duration. */
  lemma SixtySecondsAndOneMinute(o: Document)
    requires o.body.Slo? && "60s" in Collected(Burns(o)) && "1m" in Collected(Burns(o))
    ensures !DurationsDiffer(o)
  {
    hide Collected, DurationSeconds;
    SpelledTwice(1);
    assert NatText(60) == NatText(6) + [DigitText(0)] == "60" && NatText(1) == "1";
    assert "60" + "s" == "60s" && "1" + "m" == "1m" && "60s"[0] != "1m"[0];
    assert Seconds("60s") == Seconds("1m");
  }
}
