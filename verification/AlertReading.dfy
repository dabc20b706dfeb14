/** A generated rule read back: its quoted fields, its labels, and the window in its queries. */
module AlertReading {
  import opened Options
  import opened NfrDocuments
  import opened AlertRules
  import JsonText

  // ---- quoted fields ---------------------------------------------------------------------

  /** The double-quoted scalar on the first line that begins with `prefix`. */
  function Field(rule: Rule, prefix: string): Option<string> {
    if rule == [] then None
    else if prefix + "\"" <= rule[0] then
      match JsonText.ReadString(rule[0][|prefix| + 1..])
      case Some((s, rest)) => if rest == "" then Some(s) else None
      case None => None
    else Field(rule[1..], prefix)
  }

  lemma FieldHere(rule: Rule, prefix: string, s: string)
    requires rule != [] && rule[0] == prefix + Quote(s)
    ensures Field(rule, prefix) == Some(s)
  {
    var line := rule[0];
    assert line == prefix + "\"" + (JsonText.Escape(s, false) + "\"");
    assert (prefix + "\"") <= line && line[|prefix| + 1..] == JsonText.Escape(s, false) + "\"" + "";
    JsonText.StringRoundTrip(s, false, "");
  }

  lemma FieldLater(rule: Rule, prefix: string)
    requires rule != [] && !(prefix <= rule[0])
    ensures Field(rule, prefix) == Field(rule[1..], prefix)
  {
    ShorterPrefix(prefix, "\"", rule[0]);
  }

  lemma ShorterPrefix(a: string, b: string, c: string)
    ensures a + b <= c ==> a <= c
  {
  }

  /** The expression stands on the second line of every rule. */
  lemma SecondLine(rule: Rule, expr: string)
    requires |rule| >= 2 && rule[0] != "" && rule[0][0] == '-' && rule[1] == "  expr: " + Quote(expr)
    ensures Field(rule, "  expr: ") == Some(expr)
  {
    hide Quote;
    assert "  expr: "[0] == ' ';
    FieldLater(rule, "  expr: ");
    FieldHere(rule[1..], "  expr: ", expr);
  }

  // ---- labels ------------------------------------------------------------------------------

  /** A field stands on the first line that begins with its name. */
  lemma {:induction false} FieldAt(rule: Rule, k: nat, prefix: string, s: string)
    requires k < |rule| && rule[k] == prefix + Quote(s) && forall j | 0 <= j < k :: !(prefix <= rule[j])
    ensures Field(rule, prefix) == Some(s)
  {
    hide Quote, Field;
    if k == 0 {
      FieldHere(rule, prefix, s);
    } else {
      FieldLater(rule, prefix);
      FieldAt(rule[1..], k - 1, prefix, s);
    }
  }

  /** The line is indented by less than a label. */
  predicate LowIndent(line: string) {
    (line != "" && line[0] == '-') || (|line| > 2 && line[0] == ' ' && line[2] != ' ')
  }

  /** The rule says which service, objective and class it is about. */
  ghost predicate Labelled(rule: Rule, service: string, o: Document)
    requires o.body.Slo?
  {
    && Field(rule, "    service: ") == Some(service) && Field(rule, "    slo: ") == Some(o.id)
    && Field(rule, "    class: ") == Some(o.body.cls)
  }

  lemma NoLabelBefore(line: string)
    requires LowIndent(line) || "    severity: " <= line
    ensures !("    service: " <= line) && !("    slo: " <= line) && !("    class: " <= line)
    ensures LowIndent(line) ==> !("    severity: " <= line)
  {
    assert "    service: "[6] == 'r' && "    severity: "[6] == 'v' && "    slo: "[5] == 'l' && "    severity: "[5] == 'e'
        && "    class: "[4] == 'c' && "    severity: "[4] == 's';
  }

  lemma LabelsRead(rule: Rule, head: seq<string>, service: string, o: Document, rest: seq<string>)
    requires o.body.Slo? && rule == head + Labels(service, o) + rest
    requires forall i | 0 <= i < |head| :: LowIndent(head[i]) || "    severity: " <= head[i]
    ensures Labelled(rule, service, o)
  {
    hide Quote, Field;
    var k := |head|;
    assert rule[k] == "    service: " + Quote(service) && rule[k + 1] == "    slo: " + Quote(o.id)
        && rule[k + 2] == "    class: " + Quote(o.body.cls);
    forall i | 0 <= i < k
      ensures !("    service: " <= rule[i]) && !("    slo: " <= rule[i]) && !("    class: " <= rule[i])
    {
      assert rule[i] == head[i];
      NoLabelBefore(head[i]);
    }
    assert "    service: "[5] == 'e' && "    slo: "[5] == 'l' && "    class: "[4] == 'c' && "    slo: "[4] == 's' && "    service: "[4] == 's';
    assert !("    slo: " <= rule[k]) && !("    class: " <= rule[k]) && !("    class: " <= rule[k + 1]);
    FieldAt(rule, k, "    service: ", service);
    FieldAt(rule, k + 1, "    slo: ", o.id);
    FieldAt(rule, k + 2, "    class: ", o.body.cls);
  }

  lemma AlertLabelled(rule: Rule, head: seq<string>, severity: string, service: string, o: Document, rest: seq<string>)
    requires o.body.Slo? && rule == head + ["    severity: " + Quote(severity)] + Labels(service, o) + rest
    requires forall i | 0 <= i < |head| :: LowIndent(head[i])
    ensures Labelled(rule, service, o) && Field(rule, "    severity: ") == Some(severity)
  {
    hide Quote, Field, Labels, Labelled, LowIndent;
    LabelsRead(rule, head + ["    severity: " + Quote(severity)], service, o, rest);
    forall i | 0 <= i < |head| ensures !("    severity: " <= rule[i]) {
      assert rule[i] == head[i];
      NoLabelBefore(head[i]);
    }
    FieldAt(rule, |head|, "    severity: ", severity);
  }

  /** The line is indented less than an annotation, or is a label. */
  predicate IsLabel(line: string) {
    || LowIndent(line) || "    severity: " <= line || "    service: " <= line || "    slo: " <= line || "    class: " <= line
  }

  lemma NoTextThere(line: string)
    ensures IsLabel(line) ==> !("    source: " <= line) && !("    summary: " <= line)
    ensures "    summary: " <= line ==> !("    source: " <= line)
  {
    assert "    source: "[5] == 'o' && "    severity: "[5] == 'e' && "    service: "[5] == 'e' && "    slo: "[5] == 'l'
        && "    summary: "[5] == 'u' && "    source: "[4] == 's' && "    summary: "[4] == 's' && "    class: "[4] == 'c';
  }

  lemma TextsRead(rule: Rule, n: nat, summary: string, source: string)
    requires |rule| == n + 2 && rule[n] == "    summary: " + Quote(summary) && rule[n + 1] == "    source: " + Quote(source)
    requires forall i | 0 <= i < n :: IsLabel(rule[i])
    ensures Field(rule, "    summary: ") == Some(summary) && Field(rule, "    source: ") == Some(source)
  {
    hide Quote, Field, IsLabel;
    forall i | 0 <= i < n ensures !("    source: " <= rule[i]) && !("    summary: " <= rule[i]) {
      NoTextThere(rule[i]);
    }
    BeginsItself("    summary: ", Quote(summary));
    NoTextThere(rule[n]);
    FieldAt(rule, n, "    summary: ", summary);
    FieldAt(rule, n + 1, "    source: ", source);
  }

  lemma BeginsItself(a: string, b: string)
    ensures a <= a + b
  {
  }

  /** The lines an alert is made of, up to its source. */
  lemma AlertLines(rule: Rule, head: seq<string>, severity: string, service: string, o: Document, summary: string)
    requires o.body.Slo? && forall i | 0 <= i < |head| :: LowIndent(head[i])
    requires rule == head + ["    severity: " + Quote(severity)] + Labels(service, o)
                   + ["  annotations:", "    summary: " + Quote(summary), "    source: " + Quote(o.body.source)]
    ensures Labelled(rule, service, o) && Field(rule, "    severity: ") == Some(severity)
    ensures Field(rule, "    summary: ") == Some(summary) && Field(rule, "    source: ") == Some(o.body.source)
  {
    hide Quote, Field, Labelled, LowIndent;
    var last := ["  annotations:", "    summary: " + Quote(summary), "    source: " + Quote(o.body.source)];
    AlertLabelled(rule, head, severity, service, o, last);
    var n := |head|;
    AnnotationsAreLow();
    assert |rule| == n + 7 && rule[n] == "    severity: " + Quote(severity) && rule[n + 1] == "    service: " + Quote(service)
        && rule[n + 2] == "    slo: " + Quote(o.id) && rule[n + 3] == "    class: " + Quote(o.body.cls)
        && rule[n + 4] == "  annotations:";
    BeginsItself("    severity: ", Quote(severity));
    BeginsItself("    service: ", Quote(service));
    BeginsItself("    slo: ", Quote(o.id));
    BeginsItself("    class: ", Quote(o.body.cls));
    assert forall i | 0 <= i < n :: rule[i] == head[i];
    TextsRead(rule, n + 5, summary, o.body.source);
  }

  lemma AnnotationsAreLow()
    ensures LowIndent("  annotations:")
  {
    assert |"  annotations:"| == 14 && "  annotations:"[0] == ' ' && "  annotations:"[2] == 'a';
  }

  /** Every record rule carries the labels of its SLO. */
  lemma RecordIsLabelled(service: string, o: Document, m: Measurement, w: string)
    requires o.body.Slo? && m.Ratio?
    ensures Labelled(RecordRule(service, o, m, w), service, o)
  {
    hide Quote, Labels, Labelled;
    var rule := RecordRule(service, o, m, w);
    assert LowIndent("  labels:");
    LabelsRead(rule, [rule[0], rule[1], "  labels:"], service, o, []);
  }

  function BurnSummary(printing: Printing, o: Document, b: Burn): string
    requires o.body.Slo? && o.body.objective.RatioTarget?
  {
    o.id + ": error budget burning at " + printing.text(b.factor) + "x over " + b.long + " and " + b.short + " (objective "
    + printing.text(o.body.objective.percent) + "% over " + o.body.window + ")"
  }

  function LatencySummary(printing: Printing, o: Document): string
    requires o.body.Slo? && o.body.objective.LatencyBound?
  {
    o.id + ": p" + printing.short(o.body.objective.percentile) + " above " + printing.short(o.body.objective.ms)
    + " ms (CapacityProfile " + (if o.body.profileRef.Some? then o.body.profileRef.value else "None") + ")"
  }

  /** Every alert carries the labels of its SLO, its severity, its summary and its source. */
  lemma BurnIsLabelled(printing: Printing, service: string, o: Document, b: Burn)
    requires o.body.Slo? && o.body.objective.RatioTarget?
    ensures
      var rule := BurnRule(printing, service, o, b);
      && rule[0] == "- alert: " + MetricName(o.id) + "_burn_" + b.long + "_" + b.short
      && Labelled(rule, service, o) && Field(rule, "    severity: ") == Some(b.severity)
      && Field(rule, "    source: ") == Some(o.body.source) && Field(rule, "    summary: ") == Some(BurnSummary(printing, o, b))
  {
    hide Quote, Labelled, Field;
    var rule := BurnRule(printing, service, o, b);
    assert LowIndent("  labels:");
    AlertLines(rule, [rule[0], rule[1], "  labels:"], b.severity, service, o, BurnSummary(printing, o, b));
  }

  lemma LatencyIsLabelled(printing: Printing, service: string, o: Document, m: Measurement, hold: string)
    requires o.body.Slo? && o.body.objective.LatencyBound? && m.Distribution?
    ensures
      var rule := LatencyRule(printing, service, o, m, hold);
      && rule[0] == "- alert: " + MetricName(o.id)
      && Labelled(rule, service, o) && Field(rule, "    severity: ") == Some(o.body.severity)
      && Field(rule, "    source: ") == Some(o.body.source) && Field(rule, "    summary: ") == Some(LatencySummary(printing, o))
      && rule[2] == "  for: " + hold
  {
    hide Quote, Labelled, Field;
    var rule := LatencyRule(printing, service, o, m, hold);
    assert LowIndent("  labels:");
    AlertLines(rule, [rule[0], rule[1], rule[2], "  labels:"], o.body.severity, service, o, LatencySummary(printing, o));
  }

  lemma ZeroIsLabelled(service: string, o: Document, m: Measurement, hold: string)
    requires o.body.Slo? && m.Count?
    ensures
      var rule := ZeroRule(service, o, m, hold);
      && rule[0] == "- alert: " + MetricName(o.id)
      && Labelled(rule, service, o) && Field(rule, "    severity: ") == Some(o.body.severity)
      && Field(rule, "    source: ") == Some(o.body.source)
      && Field(rule, "    summary: ") == Some(o.id + ": any non-zero value is a " + o.body.severity)
      && rule[2] == (if Seconds(hold) > 0 then "  for: " + hold else "  labels:")
  {
    hide Quote, Labelled, Field, Seconds;
    var rule, summary := ZeroRule(service, o, m, hold), o.id + ": any non-zero value is a " + o.body.severity;
    assert LowIndent("  labels:");
    if Seconds(hold) > 0 {
      AlertLines(rule, [rule[0], rule[1], rule[2], "  labels:"], o.body.severity, service, o, summary);
    } else {
      AlertLines(rule, [rule[0], rule[1], "  labels:"], o.body.severity, service, o, summary);
    }
  }

  // ---- the window in a query ----------------------------------------------------------------

  /** Pieces of a query with something between them. */
  function Between(pieces: seq<string>, mark: string): string
    requires pieces != []
  {
    if |pieces| == 1 then pieces[0] else pieces[0] + mark + Between(pieces[1..], mark)
  }

  /** The placeholder does not begin inside the piece, not even with the placeholder after it. */
  predicate Free(piece: string) {
    forall i | 0 <= i < |piece| :: !("{{window}}" <= (piece + "{{window}}")[i..])
  }

  lemma {:induction false} PassOver(piece: string, rest: string, w: string)
    requires forall i | 0 <= i < |piece| :: !("{{window}}" <= (piece + rest)[i..])
    ensures ReplaceAll(piece + rest, "{{window}}", w) == piece + ReplaceAll(rest, "{{window}}", w)
  {
    if piece == "" {
      assert piece + rest == rest;
    } else {
      var s := piece + rest;
      assert s[0..] == s && s[1..] == piece[1..] + rest;
      forall i | 0 <= i < |piece| - 1 ensures !("{{window}}" <= (piece[1..] + rest)[i..]) {
        assert (piece[1..] + rest)[i..] == s[i + 1..];
      }
      PassOver(piece[1..], rest, w);
      assert piece == [piece[0]] + piece[1..];
    }
  }

  lemma NotAcross(piece: string, rest: string, i: nat)
    requires i < |piece| && !("{{window}}" <= (piece + "{{window}}")[i..])
    ensures !("{{window}}" <= (piece + "{{window}}" + rest)[i..]) && !("{{window}}" <= piece[i..])
  {
    var mark := "{{window}}";
    var a := (piece + mark)[i..];
    assert (piece + mark + rest)[i..] == a + rest && a == piece[i..] + mark;
    ShorterMatch(mark, a, rest);
    ShorterMatch(mark, piece[i..], mark);
  }

  lemma ShorterMatch(mark: string, a: string, b: string)
    ensures mark <= a ==> mark <= a + b
    ensures |mark| <= |a| && mark <= a + b ==> mark <= a
  {
  }

  /** A placeholder after a free piece is the next one filled in. */
  lemma PieceFilledIn(piece: string, rest: string, w: string)
    requires Free(piece)
    ensures ReplaceAll(piece + "{{window}}" + rest, "{{window}}", w) == piece + w + ReplaceAll(rest, "{{window}}", w)
  {
    hide ReplaceAll;
    var tail := "{{window}}" + rest;
    forall i | 0 <= i < |piece| ensures !("{{window}}" <= (piece + tail)[i..]) {
      NotAcross(piece, rest, i);
      Associated(piece, "{{window}}", rest);
    }
    PassOver(piece, tail, w);
    MarkFilledIn(rest, w);
    Associated(piece, "{{window}}", rest);
    Associated(piece, w, ReplaceAll(rest, "{{window}}", w));
  }

  lemma MarkFilledIn(rest: string, w: string)
    ensures ReplaceAll("{{window}}" + rest, "{{window}}", w) == w + ReplaceAll(rest, "{{window}}", w)
  {
    var mark := "{{window}}";
    assert (mark + rest)[|mark|..] == rest && mark <= mark + rest && |mark| == 10;
  }

  lemma Associated(a: string, b: string, c: string)
    ensures (a + b) + c == a + (b + c)
  {
  }

  lemma LastPiece(piece: string, w: string)
    requires Free(piece)
    ensures ReplaceAll(piece, "{{window}}", w) == piece
  {
    forall i | 0 <= i < |piece| ensures !("{{window}}" <= (piece + "")[i..]) {
      NotAcross(piece, "", i);
      assert piece + "" == piece;
    }
    PassOver(piece, "", w);
    assert piece + "" == piece && ReplaceAll("", "{{window}}", w) == "";
  }

  /** The window stands in the emitted query wherever the placeholder stands in the SLI's, and nothing else
      changes. */
  lemma {:induction false} WindowFilledIn(pieces: seq<string>, w: string)
    requires pieces != [] && forall k | 0 <= k < |pieces| :: Free(pieces[k])
    ensures ReplaceAll(Between(pieces, "{{window}}"), "{{window}}", w) == Between(pieces, w)
  {
    hide ReplaceAll, Free;
    if |pieces| == 1 {
      LastPiece(pieces[0], w);
    } else {
      PieceFilledIn(pieces[0], Between(pieces[1..], "{{window}}"), w);
      WindowFilledIn(pieces[1..], w);
    }
  }
}
