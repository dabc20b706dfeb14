/** What the generated expressions mean to the rule engine that reads them back. */
module AlertMeaning {
  import opened Options
  import opened Numerals
  import opened NfrDocuments
  import opened AlertRules
  import opened AlertReading

  // ---- reading an expression -------------------------------------------------------------

  function Step(c: char): int {
    if c in {'(', '[', '{'} then 1 else if c in {')', ']', '}'} then -1 else 0
  }

  /** How many brackets are open after `s`. */
  function Open(s: string): int {
    if s == "" then 0 else Open(s[..|s| - 1]) + Step(s[|s| - 1])
  }

  /** The operator stands at `k`, outside all brackets. */
  predicate OperatorAt(s: string, op: string, k: nat) {
    k <= |s| && op <= s[k..] && Open(s[..k]) == 0
  }

  /** Where the operator last stands outside all brackets, at `k` or before. */
  function LastOperator(s: string, op: string, k: nat): (r: Option<nat>)
    requires k <= |s|
    ensures r.Some? ==> OperatorAt(s, op, r.value)
  {
    if OperatorAt(s, op, k) then Some(k) else if k == 0 then None else LastOperator(s, op, k - 1)
  }

  /** What the text reads as: the two sides of its last such operator. */
  function Sides(s: string, op: string): (r: Option<(string, string)>)
    requires op != ""
    ensures r.Some? ==> |r.value.0| < |s| && |r.value.1| < |s|
  {
    match LastOperator(s, op, |s|)
    case None => None
    case Some(k) => Some((s[..k], s[k + |op|..]))
  }

  /** What queries and numerals are worth. */
  datatype Samples = Samples(query: string -> real, number: string -> real)

  predicate IsNumeral(s: string) { s != "" && (Digit(s[0]) || s[0] == '-') }

  /** A numeral, a query in brackets, or a query. */
  function Operand(at: Samples, s: string): real {
    if s != "" && AllDigits(s) then NatValue(s) as real
    else if IsNumeral(s) then at.number(s)
    else if |s| >= 2 && s[0] == '(' && s[|s| - 1] == ')' then at.query(s[1..|s| - 1])
    else at.query(s)
  }

  /** Division binds closer than subtraction; nothing is worth a division by zero. */
  function Quotient(at: Samples, s: string): Option<real>
    decreases |s|
  {
    match Sides(s, " / ")
    case None => Some(Operand(at, s))
    case Some((left, right)) =>
      match Quotient(at, left)
      case None => None
      case Some(x) => if Operand(at, right) == 0.0 then None else Some(x / Operand(at, right))
  }

  function Worth(at: Samples, s: string): Option<real>
    decreases |s|
  {
    match Sides(s, " - ")
    case None => Quotient(at, s)
    case Some((left, right)) =>
      match (Worth(at, left), Quotient(at, right))
      case (Some(x), Some(y)) => Some(x - y)
      case _ => None
  }

  predicate Compared(at: Samples, s: string) {
    match Sides(s, " > ")
    case None => false
    case Some((left, right)) =>
      match (Worth(at, left), Worth(at, right)) case (Some(x), Some(y)) => x > y case _ => false
  }

  /** Whether an alert's expression holds. */
  predicate Holds(at: Samples, s: string)
    decreases |s|
  {
    match Sides(s, " and ")
    case None => Compared(at, s)
    case Some((left, right)) => Holds(at, left) && Compared(at, right)
  }

  // ---- finding operators --------------------------------------------------------------------

  lemma {:induction false} OpenJoins(a: string, b: string)
    ensures Open(a + b) == Open(a) + Open(b)
  {
    if b == "" {
      assert a + b == a;
    } else {
      OpenJoins(a, b[..|b| - 1]);
      assert (a + b)[..|a + b| - 1] == a + b[..|b| - 1];
    }
  }

  /** Brackets close in the text as often as they open, and never before. */
  ghost predicate Balanced(s: string) {
    Open(s) == 0 && forall k | 0 <= k <= |s| :: Open(s[..k]) >= 0
  }

  predicate Flat(s: string) { forall i | 0 <= i < |s| :: Step(s[i]) == 0 }

  /** No spaces and no brackets. */
  predicate Bare(s: string) { Flat(s) && forall i | 0 <= i < |s| :: s[i] != ' ' }

  /** An operator with a space on either side. */
  predicate Spaced(op: string) {
    |op| >= 3 && Flat(op) && op[0] == ' ' == op[|op| - 1] && forall i | 0 < i < |op| - 1 :: op[i] != ' '
  }

  lemma {:induction false} FlatIsClosed(s: string)
    requires Flat(s)
    ensures Open(s) == 0
  {
    if s == "" {
    } else {
      FlatIsClosed(s[..|s| - 1]);
    }
  }

  lemma {:induction false} LastIs(s: string, op: string, k: nat, from: nat)
    requires k <= from <= |s| && OperatorAt(s, op, k)
    requires forall j | k < j <= from :: !OperatorAt(s, op, j)
    ensures LastOperator(s, op, from) == Some(k)
  {
    if from == k {
    } else {
      LastIs(s, op, k, from - 1);
    }
  }

  lemma {:induction false} NoneIs(s: string, op: string, from: nat)
    requires from <= |s| && forall j | 0 <= j <= from :: !OperatorAt(s, op, j)
    ensures LastOperator(s, op, from) == None
  {
    if from == 0 {
    } else {
      NoneIs(s, op, from - 1);
    }
  }

  /** No operator whose sign begins with `c` starts at `j`. */
  ghost predicate Clear(s: string, c: char, j: nat) {
    j + 1 < |s| && s[j] == ' ' && s[j + 1] == c ==> Open(s[..j]) != 0
  }

  ghost predicate ClearFrom(s: string, c: char, from: nat) { forall j: nat | from <= j :: Clear(s, c, j) }

  lemma PrefixShows(op: string, t: string)
    requires |op| >= 2
    ensures op <= t ==> |t| >= 2 && t[0] == op[0] && t[1] == op[1]
  {
  }

  lemma ClearHasNone(s: string, op: string, from: nat)
    requires Spaced(op) && ClearFrom(s, op[1], from)
    ensures forall j | from <= j <= |s| :: !OperatorAt(s, op, j)
  {
    forall j | from <= j <= |s| ensures !OperatorAt(s, op, j) {
      PrefixShows(op, s[j..]);
      assert Clear(s, op[1], j);
    }
  }

  lemma ClearJoins(a: string, b: string, c: char, from: nat)
    requires Open(a) == 0 && c != ' ' && ClearFrom(a, c, from) && ClearFrom(b, c, 0)
    requires a != "" && a[|a| - 1] == ' ' && b != "" ==> b[0] != c
    ensures ClearFrom(a + b, c, from)
  {
    var s := a + b;
    forall j: nat | from <= j ensures Clear(s, c, j) {
      if j < |a| {
        assert s[..j] == a[..j] && Clear(a, c, j);
      } else if j < |s| {
        assert s[..j] == a + b[..j - |a|] && Clear(b, c, j - |a|);
        OpenJoins(a, b[..j - |a|]);
      }
    }
  }

  lemma OperatorIsClear(op: string, c: char)
    requires Spaced(op)
    ensures ClearFrom(op, c, 1) && Open(op) == 0
    ensures op[1] != c ==> ClearFrom(op, c, 0)
  {
    FlatIsClosed(op);
  }

  /** Outside brackets the text has no space. */
  ghost predicate Whole(s: string) { Open(s) == 0 && forall k | 0 <= k < |s| && Open(s[..k]) == 0 :: s[k] != ' ' }

  lemma WholeIsClear(s: string, c: char)
    requires Whole(s)
    ensures ClearFrom(s, c, 0)
  {
  }

  lemma BareIsWhole(s: string)
    requires Bare(s)
    ensures Whole(s)
  {
    FlatIsClosed(s);
  }

  /** A bare name and balanced brackets after it. */
  lemma CallIsWhole(name: string, inner: string)
    requires Bare(name) && Balanced(inner)
    ensures Whole(name + "(" + inner + ")")
  {
    var s := name + "(" + inner + ")";
    FlatIsClosed(name);
    assert Open("(") == 1 && Open(")") == -1 by { assert "("[..0] == "" && ")"[..0] == ""; }
    OpenJoins(name, "(");
    OpenJoins(name + "(", inner);
    OpenJoins(name + "(" + inner, ")");
    forall k | 0 <= k < |s| ensures Open(s[..k]) == 0 ==> s[k] != ' ' {
      if k < |name| {
        assert s[k] == name[k];
      } else if |name| < k {
        var i := k - |name| - 1;
        assert s[..k] == name + "(" + inner[..i];
        OpenJoins(name + "(", inner[..i]);
      }
    }
  }

  lemma ClearAfter(left: string, tail: string, c: char)
    requires Open(left) == 0 && ClearFrom(tail, c, 1)
    ensures ClearFrom(left + tail, c, |left| + 1)
  {
    var s := left + tail;
    forall j: nat | |left| < j ensures Clear(s, c, j) {
      if j < |s| {
        assert s[..j] == left + tail[..j - |left|] && Clear(tail, c, j - |left|);
        OpenJoins(left, tail[..j - |left|]);
      }
    }
  }

  /** A text splits at an operator when nothing after it can be one. */
  lemma SplitsAt(left: string, op: string, right: string)
    requires Open(left) == 0 && Spaced(op) && ClearFrom(right, op[1], 0) && (right != "" ==> right[0] != op[1])
    ensures Sides(left + op + right, op) == Some((left, right))
  {
    hide Open, ClearFrom, LastOperator;
    var s, tail := left + op + right, op + right;
    assert s == left + tail && s[|left|..] == tail && s[..|left|] == left;
    OperatorIsClear(op, op[1]);
    ClearJoins(op, right, op[1], 1);
    ClearAfter(left, tail, op[1]);
    ClearHasNone(s, op, |left| + 1);
    LastIs(s, op, |left|, |s|);
    assert s[|left| + |op|..] == right;
  }

  lemma HasNone(s: string, op: string)
    requires Spaced(op) && ClearFrom(s, op[1], 0)
    ensures Sides(s, op) == None
  {
    ClearHasNone(s, op, 0);
    NoneIs(s, op, |s|);
  }

  /** Around another operator the text stays clear. */
  lemma ClearAround(left: string, op: string, right: string, c: char)
    requires Spaced(op) && op[1] != c && c != ' ' && Open(left) == 0
    requires ClearFrom(left, c, 0) && ClearFrom(right, c, 0) && (right != "" ==> right[0] != c)
    ensures ClearFrom(left + op + right, c, 0)
  {
    OperatorIsClear(op, c);
    ClearJoins(left, op, c, 0);
    OpenJoins(left, op);
    ClearJoins(left + op, right, c, 0);
  }

  lemma WholeIsWorth(at: Samples, s: string)
    requires Whole(s)
    ensures Worth(at, s) == Some(Operand(at, s)) && Quotient(at, s) == Some(Operand(at, s))
  {
    WholeIsClear(s, '-');
    WholeIsClear(s, '/');
    HasNone(s, " - ");
    HasNone(s, " / ");
  }

  // ---- the expressions ---------------------------------------------------------------------------

  /** `1 - (good) / (valid)` is worth one minus the ratio of the two queries. */
  lemma RatioIsWorth(at: Samples, good: string, valid: string)
    requires Balanced(good) && Balanced(valid) && at.query(valid) != 0.0
    ensures Worth(at, "1 - (" + good + ") / (" + valid + ")") == Some(1.0 - at.query(good) / at.query(valid))
  {
    hide Balanced, Whole, ClearFrom, Open, Operand, Quotient, Worth;
    var left, right := InBrackets(good), InBrackets(valid);
    BracketsAreQuery(at, good);
    BracketsAreQuery(at, valid);
    QuotientReads(at, left, right);
    OneReads(at);
    RatioText(good, valid);
    WorthOfDifference(at, "1", left + " / " + right);
  }

  function InBrackets(query: string): string { "(" + query + ")" }

  lemma RatioText(good: string, valid: string)
    ensures "1 - (" + good + ") / (" + valid + ")" == "1" + " - " + (InBrackets(good) + " / " + InBrackets(valid))
  {
    assert "1 - (" == "1" + " - " + "(" && ") / (" == ")" + " / " + "(";
  }

  lemma WorthOfDifference(at: Samples, left: string, right: string)
    requires Open(left) == 0 && ClearFrom(right, '-', 0) && right != "" && right[0] != '-'
    ensures Worth(at, left + " - " + right)
         == match (Worth(at, left), Quotient(at, right)) case (Some(x), Some(y)) => Some(x - y) case _ => None
  {
    hide Quotient, ClearFrom, Open;
    SplitsAt(left, " - ", right);
  }

  lemma BracketsAreQuery(at: Samples, query: string)
    requires Balanced(query)
    ensures
      var s := InBrackets(query);
      Operand(at, s) == at.query(query) && Whole(s) && s != "" && s[0] == '('
  {
    hide Balanced, Whole;
    var s := InBrackets(query);
    assert s[0] == '(' && s[1..|s| - 1] == query;
    CallIsWhole("", query);
    assert "" + "(" + query + ")" == s;
  }

  lemma OneReads(at: Samples)
    ensures Open("1") == 0 && Worth(at, "1") == Some(1.0)
  {
    BareIsWhole("1");
    WholeIsWorth(at, "1");
    assert NatValue("1") == 1 by { assert "1"[..0] == ""; }
  }

  lemma QuotientReads(at: Samples, left: string, right: string)
    requires Whole(left) && Whole(right) && left != "" && left[0] == '(' && right != "" && right[0] == '('
    requires Operand(at, right) != 0.0
    ensures Quotient(at, left + " / " + right) == Some(Operand(at, left) / Operand(at, right))
    ensures ClearFrom(left + " / " + right, '-', 0)
  {
    hide ClearFrom;
    WholeIsClear(left, '-');
    WholeIsClear(right, '-');
    WholeIsClear(right, '/');
    SplitsAt(left, " / ", right);
    WholeIsWorth(at, left);
    ClearAround(left, " / ", right, '-');
  }

  /** What a numeral reads as. */
  ghost predicate Reads(at: Samples, text: string, x: real) {
    Bare(text) && IsNumeral(text) && Operand(at, text) == x
  }

  /** `name > text` is a comparison and no conjunction. */
  lemma ComparisonReads(at: Samples, name: string, text: string, x: real)
    requires Whole(name) && Reads(at, text, x)
    ensures Compared(at, name + " > " + text) <==> Operand(at, name) > x
    ensures ClearFrom(name + " > " + text, 'a', 0) && Open(name + " > " + text) == 0
  {
    hide ClearFrom, Operand;
    BareIsWhole(text);
    WholeIsClear(text, '>');
    WholeIsClear(text, 'a');
    WholeIsClear(name, 'a');
    SplitsAt(name, " > ", text);
    WholeIsWorth(at, name);
    WholeIsWorth(at, text);
    ClearAround(name, " > ", text, 'a');
    OpenJoins(name + " > ", text);
    OpenJoins(name, " > ");
    FlatIsClosed(" > ");
  }

  /** `a > t and b > t` holds when both are above `t`. */
  lemma BothHold(at: Samples, a: string, b: string, text: string, x: real)
    requires Whole(a) && Whole(b) && Reads(at, text, x) && b != "" && b[0] != 'a'
    ensures Holds(at, a + " > " + text + " and " + b + " > " + text) <==> Operand(at, a) > x && Operand(at, b) > x
  {
    hide Compared, ClearFrom, Whole, Reads, Open, Operand;
    var left, right := a + " > " + text, b + " > " + text;
    ComparisonReads(at, a, text, x);
    ComparisonReads(at, b, text, x);
    HasNone(left, " and ");
    SplitsAt(left, " and ", right);
    assert a + " > " + text + " and " + b + " > " + text == left + " and " + right;
  }

  lemma AboveHolds(at: Samples, name: string, inner: string, text: string, x: real)
    requires Bare(name) && name != "" && 'a' <= name[0] <= 'z' && Balanced(inner) && Reads(at, text, x)
    ensures Holds(at, name + "(" + inner + ")" + " > " + text) <==> at.query(name + "(" + inner + ")") > x
  {
    hide Compared, ClearFrom, Whole, Reads, Open, Balanced;
    var call := name + "(" + inner + ")";
    CallIsWhole(name, inner);
    ComparisonReads(at, call, text, x);
    HasNone(call + " > " + text, " and ");
    assert call[0] == name[0];
  }

  // ---- the rules --------------------------------------------------------------------------------

  lemma MetricIsBare(id: string)
    ensures Bare(MetricName(id))
  {
  }

  /** A letter of A to Z in either case, or a digit. */
  predicate Word(c: char) { 'a' <= c <= 'z' || 'A' <= c <= 'Z' || '0' <= c <= '9' }

  /** Two SLOs record under one name exactly when their ids differ only in what is no letter and no digit. */
  lemma SameNameIff(a: string, b: string)
    ensures MetricName(a) == MetricName(b) <==>
      |a| == |b| && forall i | 0 <= i < |a| :: a[i] == b[i] || (!Word(a[i]) && !Word(b[i]))
  {
    if MetricName(a) == MetricName(b) {
      forall i | 0 <= i < |a| ensures a[i] == b[i] || (!Word(a[i]) && !Word(b[i])) {
        assert MetricName(a)[i] == MetricName(b)[i];
      }
    }
  }

  /** An id of letters, digits and underscores is its own name; any other character becomes an underscore. */
  lemma NameIs(id: string, i: nat)
    requires i < |id|
    ensures |MetricName(id)| == |id| && MetricName(id)[i] == if Word(id[i]) then id[i] else '_'
  {
  }

  lemma RecordIsBare(name: string, w: string)
    requires Bare(name) && Bare(w)
    ensures Whole(RecordName(name, w)) && RecordName(name, w) != "" && RecordName(name, w)[0] == 's'
  {
    var head := "slo:" + name;
    var tail := ":error_ratio:rate" + w;
    assert RecordName(name, w) == head + tail;
    assert Bare("slo:") && Bare(":error_ratio:rate");
    BareIsWhole(RecordName(name, w));
  }

  lemma TimedIsBare(w: string)
    requires Timed(w)
    ensures Bare(w)
  {
    var k := LeadingDigits(w);
    assert w == w[..k] + w[k..];
    assert forall i | 0 <= i < k :: w[i] == w[..k][i];
    assert forall i | k <= i < |w| :: w[i] == w[k..][i - k];
  }

  /** A record rule records, under the SLO's name and the window, one minus good events over valid events,
      the window filled in wherever the queries leave it open. */
  lemma RecordMeans(service: string, o: Document, m: Measurement, w: string, at: Samples)
    requires o.body.Slo? && m.Ratio?
    requires
      var good, valid := ReplaceAll(m.good, "{{window}}", w), ReplaceAll(m.valid, "{{window}}", w);
      Balanced(good) && Balanced(valid) && at.query(valid) != 0.0
    ensures
      var rule := RecordRule(service, o, m, w);
      var good, valid := ReplaceAll(m.good, "{{window}}", w), ReplaceAll(m.valid, "{{window}}", w);
      && rule != [] && rule[0] == "- record: slo:" + MetricName(o.id) + ":error_ratio:rate" + w
      && Field(rule, "  expr: ").Some?
      && Worth(at, Field(rule, "  expr: ").value) == Some(1.0 - at.query(good) / at.query(valid))
  {
    hide Quote, Labels, Worth, ReplaceAll, Field;
    var rule := RecordRule(service, o, m, w);
    var good, valid := ReplaceAll(m.good, "{{window}}", w), ReplaceAll(m.valid, "{{window}}", w);
    assert rule[0] == "- record: " + RecordName(MetricName(o.id), w) == "- record: slo:" + MetricName(o.id) + ":error_ratio:rate" + w;
    SecondLine(rule, "1 - (" + good + ") / (" + valid + ")");
    RatioIsWorth(at, good, valid);
  }

  /** The printed text of a number reads as the number. */
  ghost predicate Prints(printing: Printing, at: Samples, x: real) { Reads(at, printing.text(x), x) }

  function Abs(x: real): real { if x < 0.0 then -x else x }

  predicate Within(x: real, y: real, e: real) { -e <= x - y <= e }

  /** Rounding to ten places is off by at most half of the last one. */
  ghost predicate Rounds(printing: Printing) { forall x :: Within(printing.round10(x), x, 0.00000000005) }

  /** What a burn-rate alert compares with is the factor times the error budget, up to rounding. */
  lemma BarIsNear(printing: Printing, percent: real, factor: real)
    requires Rounds(printing)
    ensures Within(Bar(printing, percent, factor), factor * (1.0 - percent / 100.0), 0.00000000005 + 0.00000000005 * Abs(factor))
  {
    var budget := 1.0 - percent / 100.0;
    var rounded := printing.round10(budget);
    var product := Times(factor, rounded);
    assert Within(rounded, budget, 0.00000000005) && Within(printing.round10(product), product, 0.00000000005);
    ScaledError(factor, rounded, budget, 0.00000000005);
  }

  lemma ScaledError(factor: real, x: real, y: real, e: real)
    requires Within(x, y, e)
    ensures Within(factor * x, factor * y, e * Abs(factor))
  {
    NotNegative(Abs(factor), e - (x - y));
    NotNegative(Abs(factor), e + (x - y));
  }

  lemma NotNegative(a: real, b: real)
    requires a >= 0.0 && b >= 0.0
    ensures a * b >= 0.0
  {
  }

  /** A burn-rate alert holds exactly when the recorded ratios over both its windows exceed its bar. */
  lemma BurnMeans(printing: Printing, service: string, o: Document, b: Burn, at: Samples)
    requires o.body.Slo? && o.body.objective.RatioTarget? && Timed(b.long) && Timed(b.short)
    requires Prints(printing, at, Bar(printing, o.body.objective.percent, b.factor))
    ensures
      var rule := BurnRule(printing, service, o, b);
      var bar := Bar(printing, o.body.objective.percent, b.factor);
      && Field(rule, "  expr: ").Some?
      && (Holds(at, Field(rule, "  expr: ").value) <==>
            && at.query("slo:" + MetricName(o.id) + ":error_ratio:rate" + b.long) > bar
            && at.query("slo:" + MetricName(o.id) + ":error_ratio:rate" + b.short) > bar)
  {
    hide Quote, Labels, Holds, Timed;
    var rule := BurnRule(printing, service, o, b);
    var name, text := MetricName(o.id), Threshold(printing, o, b);
    MetricIsBare(o.id);
    TimedIsBare(b.long);
    TimedIsBare(b.short);
    RecordIsBare(name, b.long);
    RecordIsBare(name, b.short);
    var long, short := RecordName(name, b.long), RecordName(name, b.short);
    BothHold(at, long, short, text, Bar(printing, o.body.objective.percent, b.factor));
    SeriesIsQuery(at, long);
    SeriesIsQuery(at, short);
    SecondLine(rule, BurnExpr(printing, o, b));
  }

  lemma SeriesIsQuery(at: Samples, name: string)
    requires name != "" && name[0] == 's'
    ensures Operand(at, name) == at.query(name)
  {
    assert !Digit(name[0]);
  }

  /** The samples hold what the record rules of the group record. */
  ghost predicate Recorded(service: string, o: Document, m: Measurement, at: Samples)
    requires o.body.Slo? && m.Ratio?
  {
    forall w | w in Collected(Burns(o)) ::
      var rule := RecordRule(service, o, m, w);
      && Field(rule, "  expr: ").Some?
      && Worth(at, Field(rule, "  expr: ").value) == Some(at.query("slo:" + MetricName(o.id) + ":error_ratio:rate" + w))
  }

  /** The share of bad events over a window. */
  function ErrorRatio(m: Measurement, w: string, at: Samples): real
    requires m.Ratio? && at.query(ReplaceAll(m.valid, "{{window}}", w)) != 0.0
  {
    1.0 - at.query(ReplaceAll(m.good, "{{window}}", w)) / at.query(ReplaceAll(m.valid, "{{window}}", w))
  }

  ghost predicate Readable(m: Measurement, w: string, at: Samples) {
    && m.Ratio? && Timed(w)
    && Balanced(ReplaceAll(m.good, "{{window}}", w)) && Balanced(ReplaceAll(m.valid, "{{window}}", w))
    && at.query(ReplaceAll(m.valid, "{{window}}", w)) != 0.0
  }

  /** Records and alerts together: where the group's own records are what the engine samples, a burn-rate
      alert holds exactly when the share of bad events exceeds the bar over its long and its short window. */
  lemma AlertFiresOnErrors(printing: Printing, service: string, o: Document, m: Measurement, k: nat, at: Samples)
    requires o.body.Slo? && o.body.objective.RatioTarget? && m.Ratio? && k < |Burns(o)|
    requires Readable(m, Burns(o)[k].long, at) && Readable(m, Burns(o)[k].short, at)
    requires Recorded(service, o, m, at) && Prints(printing, at, Bar(printing, o.body.objective.percent, Burns(o)[k].factor))
    ensures
      var b := Burns(o)[k];
      var rule, bar := BurnRule(printing, service, o, b), Bar(printing, o.body.objective.percent, b.factor);
      && Field(rule, "  expr: ").Some?
      && (Holds(at, Field(rule, "  expr: ").value) <==> ErrorRatio(m, b.long, at) > bar && ErrorRatio(m, b.short, at) > bar)
  {
    hide Holds, Worth, Field, RecordRule, BurnRule, Collected, Prints, Timed, Balanced, Bar;
    var b := Burns(o)[k];
    assert b in Burns(o);
    BurnMeans(printing, service, o, b, at);
    RecordMeans(service, o, m, b.long, at);
    RecordMeans(service, o, m, b.short, at);
  }

  // ---- latency and zero objectives ------------------------------------------------------------------

  lemma BalancedJoins(a: string, b: string)
    requires Balanced(a) && Balanced(b)
    ensures Balanced(a + b)
  {
    OpenJoins(a, b);
    forall k | 0 <= k <= |a + b| ensures Open((a + b)[..k]) >= 0 {
      if k <= |a| {
        assert (a + b)[..k] == a[..k];
      } else {
        assert (a + b)[..k] == a + b[..k - |a|];
        OpenJoins(a, b[..k - |a|]);
      }
    }
  }

  lemma FlatIsBalanced(s: string)
    requires Flat(s)
    ensures Balanced(s)
  {
    forall k | 0 <= k <= |s| ensures Open(s[..k]) == 0 {
      FlatIsClosed(s[..k]);
    }
    assert s[..|s|] == s;
  }

  lemma BracketsBalance(open: char, inner: string, close: char)
    requires Step(open) == 1 && Step(close) == -1 && Balanced(inner)
    ensures Balanced([open] + inner + [close])
  {
    var s := [open] + inner + [close];
    assert Open([open]) == 1 && Open([close]) == -1 by {
      assert [open][..0] == "" && [close][..0] == "";
    }
    OpenJoins([open] + inner, [close]);
    OpenJoins([open], inner);
    forall k | 0 <= k <= |s| ensures Open(s[..k]) >= 0 {
      if k == 0 {
      } else if k <= 1 + |inner| {
        assert s[..k] == [open] + inner[..k - 1];
        OpenJoins([open], inner[..k - 1]);
      } else {
        assert s[..k] == s;
      }
    }
  }

  /** A series, with its matchers in braces if it has any. */
  function Selected(series: string, matchers: string): string {
    if matchers == "" then series else series + "{" + matchers + "}"
  }

  lemma SelectedIs(series: string, matchers: string)
    ensures series + Matchers(matchers) == Selected(series, matchers)
  {
    assert matchers != "" ==> series + ("{" + matchers + "}") == series + "{" + matchers + "}";
  }

  /** The counter's increase over five minutes, and its sum. */
  function Increase(m: Measurement): string
    requires m.Count?
  {
    "sum(increase(" + Selected(m.counter, m.matchers) + "[5m]))"
  }

  lemma SelectorBalances(series: string, matchers: string)
    requires Flat(series) && Balanced(matchers)
    ensures Balanced(series + Matchers(matchers) + "[5m]")
  {
    FlatIsBalanced(series);
    FlatIsBalanced("5m");
    BracketsBalance('[', "5m", ']');
    BracketsBalance('{', matchers, '}');
    assert ['['] + "5m" + [']'] == "[5m]" && ['{'] + matchers + ['}'] == "{" + matchers + "}";
    FlatIsBalanced("");
    BalancedJoins(series, Matchers(matchers));
    BalancedJoins(series + Matchers(matchers), "[5m]");
  }

  /** A zero objective's alert holds exactly when the counter went up. */
  lemma ZeroMeans(service: string, o: Document, m: Measurement, hold: string, at: Samples)
    requires o.body.Slo? && m.Count? && Flat(m.counter) && Balanced(m.matchers)
    ensures
      var rule := ZeroRule(service, o, m, hold);
      Field(rule, "  expr: ").Some? && (Holds(at, Field(rule, "  expr: ").value) <==> at.query(Increase(m)) > 0.0)
  {
    hide Quote, Labels, Holds, Reads, Matchers, Balanced, Field;
    var series := m.counter + Matchers(m.matchers) + "[5m]";
    SelectorBalances(m.counter, m.matchers);
    var inner := CallBalances("increase", series);
    ZeroReads(at);
    AboveHolds(at, "sum", inner, "0", 0.0);
    ZeroText(m, series, inner);
    SecondLine(ZeroRule(service, o, m, hold), Increase(m) + " > 0");
  }

  lemma ZeroText(m: Measurement, series: string, inner: string)
    requires m.Count? && series == m.counter + Matchers(m.matchers) + "[5m]" && inner == "increase" + "(" + series + ")"
    ensures Increase(m) == "sum" + "(" + inner + ")"
    ensures Increase(m) + " > 0" == "sum(increase(" + m.counter + Matchers(m.matchers) + "[5m])) > 0"
    ensures Increase(m) + " > 0" == "sum" + "(" + inner + ")" + " > " + "0"
  {
    hide Matchers, Selected;
    SelectedIs(m.counter, m.matchers);
  }

  lemma ZeroReads(at: Samples)
    ensures Reads(at, "0", 0.0)
  {
    assert NatValue("0") == 0 by { assert "0"[..0] == ""; }
  }

  /** The quantile a latency alert looks at. */
  function Quantile(printing: Printing, m: Measurement, percentile: real): string
    requires m.Distribution?
  {
    "histogram_quantile(" + printing.text(percentile / 100.0) + ", sum by (le) (rate("
      + Selected(m.histogram + "_bucket", m.matchers) + "[5m])))"
  }

  /** A latency objective's alert holds exactly when that quantile is above the threshold in seconds. */
  lemma LatencyMeans(printing: Printing, service: string, o: Document, m: Measurement, hold: string, at: Samples)
    requires o.body.Slo? && o.body.objective.LatencyBound? && m.Distribution?
    requires Flat(m.histogram) && Balanced(m.matchers)
    requires Bare(printing.text(o.body.objective.percentile / 100.0)) && Prints(printing, at, o.body.objective.ms / 1000.0)
    ensures
      var rule := LatencyRule(printing, service, o, m, hold);
      && Field(rule, "  expr: ").Some?
      && (Holds(at, Field(rule, "  expr: ").value) <==>
            at.query(Quantile(printing, m, o.body.objective.percentile)) > o.body.objective.ms / 1000.0)
  {
    hide Quote, Labels, Holds, Matchers, Balanced, Field, Reads;
    var seconds := printing.text(o.body.objective.ms / 1000.0);
    var inner := QuantileBalances(printing.text(o.body.objective.percentile / 100.0), m);
    AboveHolds(at, "histogram_quantile", inner, seconds, o.body.objective.ms / 1000.0);
    var call := Quantile(printing, m, o.body.objective.percentile);
    QuantileIs(printing, m, o.body.objective.percentile);
    QuantileText(printing.text(o.body.objective.percentile / 100.0), m, seconds, inner);
    SecondLine(LatencyRule(printing, service, o, m, hold), call + " > " + seconds);
  }

  lemma QuantileIs(printing: Printing, m: Measurement, percentile: real)
    requires m.Distribution?
    ensures Quantile(printing, m, percentile)
         == "histogram_quantile(" + printing.text(percentile / 100.0) + ", sum by (le) (rate(" + m.histogram + "_bucket"
          + Matchers(m.matchers) + "[5m])))"
  {
    hide Matchers, Selected;
    SelectedIs(m.histogram + "_bucket", m.matchers);
    Regrouped("histogram_quantile(" + printing.text(percentile / 100.0) + ", sum by (le) (rate(", m.histogram, "_bucket",
              Matchers(m.matchers), "[5m])))");
  }

  lemma Regrouped(a: string, b: string, c: string, d: string, e: string)
    ensures a + (b + c + d) + e == a + b + c + d + e
  {
  }

  lemma QuantileText(q: string, m: Measurement, seconds: string, inner: string)
    requires m.Distribution?
    requires inner == q + ", sum by (le) (rate(" + m.histogram + "_bucket" + Matchers(m.matchers) + "[5m]))"
    ensures
      var call := "histogram_quantile(" + q + ", sum by (le) (rate(" + m.histogram + "_bucket" + Matchers(m.matchers) + "[5m])))";
      && call == "histogram_quantile" + "(" + inner + ")"
      && call + " > " + seconds == "histogram_quantile(" + q + ", sum by (le) (rate(" + m.histogram + "_bucket" + Matchers(m.matchers)
                                 + "[5m]))) > " + seconds
  {
    hide Matchers;
  }

  lemma QuantileBalances(q: string, m: Measurement) returns (inner: string)
    requires m.Distribution? && Flat(m.histogram) && Balanced(m.matchers) && Bare(q)
    ensures inner == q + ", sum by (le) (rate(" + m.histogram + "_bucket" + Matchers(m.matchers) + "[5m]))" && Balanced(inner)
  {
    hide Matchers, Balanced;
    FlatJoins(m.histogram, "_bucket");
    var series := m.histogram + "_bucket" + Matchers(m.matchers) + "[5m]";
    SelectorBalances(m.histogram + "_bucket", m.matchers);
    var rate := CallBalances("rate", series);
    var rated := CallBalances("", rate);
    FlatIsBalanced("le");
    var le := CallBalances(", sum by ", "le");
    FlatIsBalanced(q);
    FlatIsBalanced(" ");
    BalancedJoins(q, le);
    BalancedJoins(q + le, " ");
    BalancedJoins(q + le + " ", rated);
    inner := q + le + " " + rated;
    assert inner == q + ", sum by (le) (rate(" + m.histogram + "_bucket" + Matchers(m.matchers) + "[5m]))";
  }

  lemma FlatJoins(a: string, b: string)
    requires Flat(a) && Flat(b)
    ensures Flat(a + b)
  {
  }

  lemma CallBalances(name: string, inner: string) returns (call: string)
    requires Flat(name) && Balanced(inner)
    ensures call == name + "(" + inner + ")" && Balanced(call)
  {
    FlatIsBalanced(name);
    BracketsBalance('(', inner, ')');
    BalancedJoins(name, ['('] + inner + [')']);
    call := name + (['('] + inner + [')']);
    assert call == name + "(" + inner + ")";
  }
}
