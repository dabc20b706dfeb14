/** The evaluation report's counts: what one case becomes, and the laws the totals obey. */
module ReportCounts {
  import opened Options
  import Orders

  datatype Status = PROPOSED | FORMAT_INVALID | NOT_APPROVED | ABSTAINED | REFUSED | ERROR

  datatype Result = Result(expected: string, proposed: Option<string>, status: Status, exact: bool,
                           verdict: Option<string>, errorCode: Option<string>)

  /** What came back from the gateway for one case. */
  datatype Reply = Refusal(reason: string) | Crash | Undecodable | Text(code: string)

  /** What `strip()` takes away. */
  predicate Blank(c: char) {
    || c in {' ', '\n', '\r', '\t', '\U{0B}', '\U{0C}', '\U{85}', '\U{A0}', '\U{1680}', '\U{2028}', '\U{2029}', '\U{202F}', '\U{205F}', '\U{3000}'}
    || '\U{1C}' <= c <= '\U{1F}' || '\U{2000}' <= c <= '\U{200A}'
  }

  function StripLeft(s: string): string {
    if s != "" && Blank(s[0]) then StripLeft(s[1..]) else s
  }

  function StripRight(s: string): string {
    if s != "" && Blank(s[|s| - 1]) then StripRight(s[..|s| - 1]) else s
  }

  /** `s.strip()`. */
  function Strip(s: string): string { StripRight(StripLeft(s)) }

  lemma {:induction false} StripRightKeepsHead(s: string)
    requires s != "" && !Blank(s[0])
    ensures StripRight(s) != "" && StripRight(s)[0] == s[0] && !Blank(StripRight(s)[|StripRight(s)| - 1])
  {
    if !Blank(s[|s| - 1]) {
    } else {
      StripRightKeepsHead(s[..|s| - 1]);
    }
  }

  lemma {:induction false} StripLeftHead(s: string)
    ensures StripLeft(s) == "" || !Blank(StripLeft(s)[0])
  {
    if s == "" || !Blank(s[0]) {
    } else {
      StripLeftHead(s[1..]);
    }
  }

  lemma StripTwice(s: string)
    ensures Strip(Strip(s)) == Strip(s)
  {
    StripLeftHead(s);
    if StripLeft(s) != "" {
      StripRightKeepsHead(StripLeft(s));
    }
  }

  /** The format check: `ontology:` and then one or more of the letters, digits and marks of a path. */
  predicate OntologyCode(code: string) {
    && "ontology:" <= code && |code| > 9
    && forall i | 9 <= i < |code| ::
         || 'a' <= code[i] <= 'z' || 'A' <= code[i] <= 'Z' || '0' <= code[i] <= '9'
         || code[i] in {'_', '.', '/', ':', '-'}
  }

  /** `evaluate_case`; `check` is the ontology guard when an approved list was given. */
  function Evaluate(expected: string, reply: Reply, check: Option<string -> string>): Result {
    match reply
    case Refusal(reason) => Result(expected, None, REFUSED, false, None, Some(reason))
    case Crash => Result(expected, None, ERROR, false, None, Some("RUNTIME_ERROR"))
    case Undecodable => Result(expected, None, ERROR, false, None, Some("WIRE_DECODE_ERROR"))
    case Text(code) =>
      if Strip(code) == "" then Result(expected, None, ABSTAINED, false, None, None)
      else if !OntologyCode(Strip(code)) then Result(expected, None, FORMAT_INVALID, false, None, None)
      else
        var verdict := match check case None => None case Some(f) => Some(f(Strip(code)));
        var status := if verdict.None? || verdict.value == "ALLOWED" then PROPOSED else NOT_APPROVED;
        Result(expected, Some(Strip(code)), status, Strip(code) == Strip(expected), verdict, None)
  }

  predicate Exact(r: Result) {
    r.proposed.Some? && Strip(r.proposed.value) == Strip(r.expected)
  }

  /** What every evaluated case satisfies: a code is carried exactly when it was proposed, approved or
      not, it is not blank, and the match flag is about that code. */
  predicate Coherent(r: Result) {
    && (r.proposed.Some? <==> r.status in {PROPOSED, NOT_APPROVED})
    && (r.proposed.Some? ==> r.proposed.value != "")
    && (r.exact <==> Exact(r))
  }

  lemma EvaluateCoherent(expected: string, reply: Reply, check: Option<string -> string>)
    ensures Coherent(Evaluate(expected, reply, check))
  {
    if reply.Text? {
      StripTwice(reply.code);
    }
  }

  /** White space, by number. */
  predicate White(c: char) {
    var n := c as int;
    || 9 <= n <= 13 || 28 <= n <= 32 || n == 0x85 || n == 0xA0 || n == 0x1680 || 0x2000 <= n <= 0x200A
    || n == 0x2028 || n == 0x2029 || n == 0x202F || n == 0x205F || n == 0x3000
  }

  lemma BlankIs()
    ensures forall c :: Blank(c) <==> White(c)
  {
    assert '\U{1C}' as int == 28 && '\U{1F}' as int == 31 && '\U{2000}' as int == 0x2000 && '\U{200A}' as int == 0x200A;
    assert ' ' as int == 32 && '\t' as int == 9 && '\n' as int == 10 && '\r' as int == 13 && '\U{0B}' as int == 11
        && '\U{0C}' as int == 12 && '\U{85}' as int == 0x85 && '\U{A0}' as int == 0xA0 && '\U{1680}' as int == 0x1680
        && '\U{2028}' as int == 0x2028 && '\U{2029}' as int == 0x2029 && '\U{202F}' as int == 0x202F
        && '\U{205F}' as int == 0x205F && '\U{3000}' as int == 0x3000;
  }

  /** `bare` is `s` without the white space at its two ends. */
  ghost predicate Bared(s: string, bare: string) {
    && (bare != "" ==> !White(bare[0]) && !White(bare[|bare| - 1]))
    && exists i, j | 0 <= i <= j <= |s| ::
         s[i..j] == bare && (forall k | 0 <= k < i :: White(s[k])) && (forall k | j <= k < |s| :: White(s[k]))
  }

  lemma {:induction false} StripLeftIs(s: string) returns (i: nat)
    ensures i <= |s| && StripLeft(s) == s[i..] && forall k | 0 <= k < i :: Blank(s[k])
  {
    if s != "" && Blank(s[0]) {
      var n := StripLeftIs(s[1..]);
      i := n + 1;
      assert s[1..][n..] == s[i..] && forall k | 0 < k < i :: s[k] == s[1..][k - 1];
    } else {
      i := 0;
    }
  }

  lemma {:induction false} StripRightIs(s: string) returns (j: nat)
    ensures j <= |s| && StripRight(s) == s[..j] && forall k | j <= k < |s| :: Blank(s[k])
  {
    if s != "" && Blank(s[|s| - 1]) {
      j := StripRightIs(s[..|s| - 1]);
      assert s[..|s| - 1][..j] == s[..j] && forall k | j <= k < |s| - 1 :: s[k] == s[..|s| - 1][k];
    } else {
      j := |s|;
      assert s[..j] == s;
    }
  }

  lemma StripIsBared(s: string)
    ensures Bared(s, Strip(s))
  {
    hide Blank, White;
    BlankIs();
    var i := StripLeftIs(s);
    var j := StripRightIs(s[i..]);
    assert s[i..][..j] == s[i..i + j] && forall k | j <= k < |s| - i :: s[i..][k] == s[i + k];
    forall k | i + j <= k < |s| ensures Blank(s[k]) {
      assert s[k] == s[i..][k - i];
    }
    StripLeftHead(s);
    if StripLeft(s) != "" {
      StripRightKeepsHead(StripLeft(s));
    }
  }

  /** What a case becomes, and the reason code it is counted under. */
  ghost predicate Outcome(reply: Reply, check: Option<string -> string>, status: Status, reason: string) {
    match reply
    case Refusal(why) => status == REFUSED && reason == (if why == "" then "REFUSED" else why)
    case Crash => status == ERROR && reason == "RUNTIME_ERROR"
    case Undecodable => status == ERROR && reason == "WIRE_DECODE_ERROR"
    case Text(code) => exists bare :: Bared(code, bare) && TextOutcome(bare, check, status, reason)
  }

  ghost predicate TextOutcome(code: string, check: Option<string -> string>, status: Status, reason: string) {
    if code == "" then status == ABSTAINED && reason == "ABSTAINED"
    else if !OntologyCode(code) then status == FORMAT_INVALID && reason == "FORMAT_INVALID"
    else if check.None? then status == PROPOSED && reason == "PROPOSED"
    else
      var verdict := check.value(code);
      if verdict == "ALLOWED" then status == PROPOSED && reason == "ALLOWED"
      else status == NOT_APPROVED && reason == (if verdict == "" then "NOT_APPROVED" else verdict)
  }

  /** Refusals, crashes, blank answers, malformed ones and unapproved ones are told apart, and each is
      counted under its own reason. */
  lemma EvaluateIs(expected: string, reply: Reply, check: Option<string -> string>)
    ensures Outcome(reply, check, Evaluate(expected, reply, check).status, ReasonCode(Evaluate(expected, reply, check)))
  {
    hide Strip, Bared, OntologyCode;
    assert |"RUNTIME_ERROR"| == 13 && |"WIRE_DECODE_ERROR"| == 17 && |"ALLOWED"| == 7;
    if reply.Text? {
      StripIsBared(reply.code);
      assert TextOutcome(Strip(reply.code), check, Evaluate(expected, reply, check).status, ReasonCode(Evaluate(expected, reply, check)));
    }
  }

  // ---- counting ------------------------------------------------------------------

  function CountIf<R>(results: seq<R>, p: R -> bool): nat {
    if results == [] then 0 else (if p(results[0]) then 1 else 0) + CountIf(results[1..], p)
  }

  function Sum<K>(keys: seq<K>, f: K -> nat): nat {
    if keys == [] then 0 else f(keys[0]) + Sum(keys[1..], f)
  }

  lemma {:induction false} SumAdd<K>(keys: seq<K>, f: K -> nat, g: K -> nat, h: K -> nat)
    requires forall k | k in keys :: h(k) == f(k) + g(k)
    ensures Sum(keys, h) == Sum(keys, f) + Sum(keys, g)
  {
    if keys == [] {
    } else {
      SumAdd(keys[1..], f, g, h);
      assert keys[0] in keys;
    }
  }

  lemma {:induction false} SumZero<K>(keys: seq<K>, f: K -> nat)
    requires forall k | k in keys :: f(k) == 0
    ensures Sum(keys, f) == 0
  {
    if keys == [] {
    } else {
      assert keys[0] in keys;
      SumZero(keys[1..], f);
    }
  }

  lemma {:induction false} SumIndicator<K>(keys: seq<K>, a: K, on: bool, f: K -> nat)
    requires Orders.Distinct(keys) && (on ==> a in keys)
    requires forall k | k in keys :: f(k) == if on && k == a then 1 else 0
    ensures Sum(keys, f) == if on then 1 else 0
  {
    if keys == [] {
    } else {
      assert keys[0] in keys;
      if on && keys[0] == a {
        forall k | k in keys[1..] ensures f(k) == 0 {
          assert k in keys && k != keys[0];
        }
        SumZero(keys[1..], f);
      } else {
        SumIndicator(keys[1..], a, on, f);
      }
    }
  }

  function InClass<R>(p: R -> bool, key: R -> string, c: string): R -> bool {
    (r: R) => p(r) && key(r) == c
  }

  function PerKey<R>(results: seq<R>, p: R -> bool, key: R -> string): string -> nat {
    (c: string) => CountIf(results, InClass(p, key, c))
  }

  /** Split the results that satisfy `p` by a key: the parts add up to the whole. */
  lemma {:induction false} PartitionLaw<R>(keys: seq<string>, results: seq<R>, p: R -> bool, key: R -> string)
    requires Orders.Distinct(keys) && forall r | r in results && p(r) :: key(r) in keys
    ensures Sum(keys, PerKey(results, p, key)) == CountIf(results, p)
  {
    if results == [] {
      SumZero(keys, PerKey(results, p, key));
    } else {
      var r, rest := results[0], results[1..];
      assert r in results;
      PartitionLaw(keys, rest, p, key);
      var here := (c: string) => if p(r) && c == key(r) then 1 as nat else 0;
      SumIndicator(keys, key(r), p(r), here);
      SumAdd(keys, here, PerKey(rest, p, key), PerKey(results, p, key));
    }
  }

  lemma {:induction false} CountAll<R>(results: seq<R>, p: R -> bool)
    requires forall r | r in results :: p(r)
    ensures CountIf(results, p) == |results|
  {
    if results == [] {
    } else {
      assert results[0] in results;
      CountAll(results[1..], p);
    }
  }

  lemma {:induction false} CountSame<R>(results: seq<R>, p: R -> bool, q: R -> bool)
    requires forall r | r in results :: p(r) == q(r)
    ensures CountIf(results, p) == CountIf(results, q)
  {
    if results == [] {
    } else {
      assert results[0] in results;
      CountSame(results[1..], p, q);
    }
  }

  lemma {:induction false} CountSplit<R>(results: seq<R>, p: R -> bool, q: R -> bool, both: R -> bool)
    requires forall r | r in results :: both(r) == (p(r) || q(r)) && !(p(r) && q(r))
    ensures CountIf(results, both) == CountIf(results, p) + CountIf(results, q)
  {
    if results == [] {
    } else {
      assert results[0] in results;
      CountSplit(results[1..], p, q, both);
    }
  }

  lemma {:induction false} CountAppend<R>(results: seq<R>, r: R, p: R -> bool)
    ensures CountIf(results + [r], p) == CountIf(results, p) + (if p(r) then 1 else 0)
  {
    if results == [] {
      assert results + [r] == [r] && [r][1..] == [];
    } else {
      CountAppend(results[1..], r, p);
      assert (results + [r])[1..] == results[1..] + [r];
    }
  }

  // ---- dictionaries of counts ------------------------------------------------------

  predicate Any<R>(r: R) { true }

  /** The loop behind `reason_code_counts` and the family totals: `counts[k] = counts.get(k, 0) + 1`. */
  method Tally<R>(results: seq<R>, key: R -> string) returns (counts: map<string, nat>)
    ensures forall k :: k in counts <==> Occurrences(results, key, k) > 0
    ensures forall k | k in counts :: counts[k] == Occurrences(results, key, k)
  {
    hide Occurrences;
    counts := map[];
    forall k ensures Occurrences(results[..0], key, k) == 0 {
      NoOccurrence(results[..0], key, k);
    }
    for i := 0 to |results|
      invariant forall k :: k in counts <==> Occurrences(results[..i], key, k) > 0
      invariant forall k | k in counts :: counts[k] == Occurrences(results[..i], key, k)
    {
      var r := results[i];
      assert results[..i + 1] == results[..i] + [r];
      forall k ensures Occurrences(results[..i + 1], key, k) == Occurrences(results[..i], key, k) + (if key(r) == k then 1 else 0) {
        OneMore(results[..i], r, key, k);
      }
      var k := key(r);
      counts := counts[k := (if k in counts then counts[k] else 0) + 1];
    }
    assert results[..|results|] == results;
  }

  /** How many results have the key. */
  function Occurrences<R>(results: seq<R>, key: R -> string, k: string): nat { CountIf(results, InClass(Any, key, k)) }

  lemma NoOccurrence<R>(results: seq<R>, key: R -> string, k: string)
    requires results == []
    ensures Occurrences(results, key, k) == 0
  {
  }

  lemma OneMore<R>(results: seq<R>, r: R, key: R -> string, k: string)
    ensures Occurrences(results + [r], key, k) == Occurrences(results, key, k) + (if key(r) == k then 1 else 0)
  {
    CountAppend(results, r, InClass(Any, key, k));
    assert InClass(Any, key, k)(r) == (Any(r) && key(r) == k);
  }

  /** Listed in any order without repeats, the counts of a tally sum to the number of cases. */
  lemma TallySumsToTotal<R>(results: seq<R>, key: R -> string, keys: seq<string>)
    requires Orders.Distinct(keys) && forall r | r in results :: key(r) in keys
    ensures Sum(keys, PerKey(results, Any, key)) == |results|
  {
    PartitionLaw(keys, results, Any, key);
    CountAll(results, Any);
  }

  /** `r.error_code or r.guard_verdict or r.status.value`. */
  function ReasonCode(r: Result): string {
    if r.errorCode.Some? && r.errorCode.value != "" then r.errorCode.value
    else if r.verdict.Some? && r.verdict.value != "" then r.verdict.value
    else StatusText(r.status)
  }

  function StatusText(s: Status): string {
    match s
    case PROPOSED => "PROPOSED"
    case FORMAT_INVALID => "FORMAT_INVALID"
    case NOT_APPROVED => "NOT_APPROVED"
    case ABSTAINED => "ABSTAINED"
    case REFUSED => "REFUSED"
    case ERROR => "ERROR"
  }

  function BeforeSlash(s: string): string {
    if s == "" || s[0] == '/' then "" else [s[0]] + BeforeSlash(s[1..])
  }

  /** The segment after an `ontology:` prefix, up to the first slash. */
  function Family(r: Result): string {
    BeforeSlash(if "ontology:" <= r.expected then r.expected[|"ontology:"|..] else r.expected)
  }

  /** The family of `ontology:a/b` is `a`, and so is that of `a/b` and of either without a slash. */
  lemma FamilyIs(r: Result, family: string, rest: string)
    requires '/' !in family && (rest == "" || rest[0] == '/')
    ensures r.expected == "ontology:" + family + rest ==> Family(r) == family
    ensures r.expected == family + rest && !("ontology:" <= r.expected) ==> Family(r) == family
  {
    UpToSlash(family, rest);
    assert r.expected == "ontology:" + family + rest ==>
        "ontology:" <= r.expected && r.expected[|"ontology:"|..] == family + rest;
  }

  lemma {:induction false} UpToSlash(s: string, rest: string)
    requires '/' !in s && (rest == "" || rest[0] == '/')
    ensures BeforeSlash(s + rest) == s
  {
    if s == "" {
      assert s + rest == rest;
    } else {
      assert (s + rest)[0] == s[0] && (s + rest)[1..] == s[1..] + rest;
      UpToSlash(s[1..], rest);
    }
  }

  function StatusCount(results: seq<Result>, s: Status): nat {
    CountIf(results, (r: Result) => r.status == s)
  }

  /** The six status counts partition the cases. */
  lemma {:induction false} StatusCountsSumToTotal(results: seq<Result>)
    ensures StatusCount(results, PROPOSED) + StatusCount(results, FORMAT_INVALID) + StatusCount(results, NOT_APPROVED)
          + StatusCount(results, ABSTAINED) + StatusCount(results, REFUSED) + StatusCount(results, ERROR) == |results|
  {
    if results == [] {
    } else {
      StatusCountsSumToTotal(results[1..]);
    }
  }

  /** Reason-code and product-family counts each sum to the number of cases. */
  lemma ReasonAndFamilyCountsSumToTotal(results: seq<Result>, codes: seq<string>, families: seq<string>)
    requires Orders.Distinct(codes) && forall r | r in results :: ReasonCode(r) in codes
    requires Orders.Distinct(families) && forall r | r in results :: Family(r) in families
    ensures Sum(codes, PerKey(results, Any, ReasonCode)) == |results|
    ensures Sum(families, PerKey(results, Any, Family)) == |results|
  {
    TallySumsToTotal(results, ReasonCode, codes);
    TallySumsToTotal(results, Family, families);
  }

  // ---- per-class scores ------------------------------------------------------------

  function Expected(r: Result): string { Strip(r.expected) }

  function Code(r: Result): string { if r.proposed.Some? then Strip(r.proposed.value) else "" }

  predicate HasCode(r: Result) { r.proposed.Some? }

  datatype Row = Row(cls: string, tp: nat, fp: nat, fn: nat)

  function IsTp(c: string): Result -> bool {
    (r: Result) => Expected(r) == c && r.proposed.Some? && Strip(r.proposed.value) == c
  }

  function IsFp(c: string): Result -> bool {
    (r: Result) => r.proposed.Some? && Strip(r.proposed.value) == c && Expected(r) != c
  }

  function IsFn(c: string): Result -> bool {
    (r: Result) => Expected(r) == c && (r.proposed.None? || Strip(r.proposed.value) != c)
  }

  function RowOf(results: seq<Result>, c: string): Row {
    Row(c, CountIf(results, IsTp(c)), CountIf(results, IsFp(c)), CountIf(results, IsFn(c)))
  }

  ghost predicate IsClass(results: seq<Result>, c: string) {
    exists r | r in results :: Expected(r) == c || (r.proposed.Some? && r.proposed.value != "" && Code(r) == c)
  }

  /** One row per class that is expected or proposed anywhere, in class order. */
  ghost predicate ClassRows(results: seq<Result>, rows: seq<Row>) {
    && (forall i | 0 <= i < |rows| :: rows[i] == RowOf(results, rows[i].cls))
    && (forall i, j | 0 <= i < j < |rows| :: Orders.Leq(rows[i].cls, rows[j].cls) && rows[i].cls != rows[j].cls)
    && (forall c :: IsClass(results, c) <==> exists i | 0 <= i < |rows| :: rows[i].cls == c)
  }

  /** `_compute_per_class`. */
  method PerClass(results: seq<Result>) returns (rows: seq<Row>)
    ensures ClassRows(results, rows)
  {
    var found: seq<string> := [];
    for i := 0 to |results|
      invariant Orders.Distinct(found) && forall c :: c in found <==> IsClass(results[..i], c)
    {
      var r := results[i];
      assert results[..i + 1] == results[..i] + [r];
      found := Orders.AddTo(found, Strip(r.expected));
      if r.proposed.Some? && r.proposed.value != "" {
        found := Orders.AddTo(found, Strip(r.proposed.value));
      }
    }
    assert results[..|results|] == results;
    var classes := Orders.SortBy(Orders.Leq, found);
    Orders.SortedDistinct(found);
    rows := [];
    for i := 0 to |classes|
      invariant |rows| == i && forall k | 0 <= k < i :: rows[k] == RowOf(results, classes[k])
    {
      rows := rows + [RowOf(results, classes[i])];
    }
    assert forall c :: c in classes <==> exists i | 0 <= i < |rows| :: rows[i].cls == c;
  }

  function Tp(results: seq<Result>): string -> nat { (c: string) => RowOf(results, c).tp }
  function TpFp(results: seq<Result>): string -> nat { (c: string) => RowOf(results, c).tp + RowOf(results, c).fp }
  function TpFn(results: seq<Result>): string -> nat { (c: string) => RowOf(results, c).tp + RowOf(results, c).fn }

  lemma TpCounts(results: seq<Result>, c: string)
    ensures Tp(results)(c) == PerKey(results, Exact, Expected)(c)
  {
    forall r | r in results ensures IsTp(c)(r) == InClass(Exact, Expected, c)(r) {
      assert InClass(Exact, Expected, c)(r) == (Exact(r) && Expected(r) == c);
    }
    CountSame(results, IsTp(c), InClass(Exact, Expected, c));
  }

  lemma TpFpCounts(results: seq<Result>, c: string)
    ensures TpFp(results)(c) == PerKey(results, HasCode, Code)(c)
  {
    var both := InClass(HasCode, Code, c);
    forall r | r in results ensures both(r) == (IsTp(c)(r) || IsFp(c)(r)) && !(IsTp(c)(r) && IsFp(c)(r)) {
      assert both(r) == (HasCode(r) && Code(r) == c);
    }
    CountSplit(results, IsTp(c), IsFp(c), both);
  }

  lemma TpFnCounts(results: seq<Result>, c: string)
    ensures TpFn(results)(c) == PerKey(results, Any, Expected)(c)
  {
    var both := InClass(Any, Expected, c);
    forall r | r in results ensures both(r) == (IsTp(c)(r) || IsFn(c)(r)) && !(IsTp(c)(r) && IsFn(c)(r)) {
      assert both(r) == (Any(r) && Expected(r) == c);
    }
    CountSplit(results, IsTp(c), IsFn(c), both);
  }

  lemma {:induction false} SumSame<K>(keys: seq<K>, f: K -> nat, g: K -> nat)
    requires forall k | k in keys :: f(k) == g(k)
    ensures Sum(keys, f) == Sum(keys, g)
  {
    if keys == [] {
    } else {
      assert keys[0] in keys;
      SumSame(keys[1..], f, g);
    }
  }

  /** Over the classes of any evaluation: true positives sum to `exact_matches` (NOT_APPROVED cases
      included), tp + fn to the number of cases, and tp + fp to the number of cases carrying a code. */
  lemma ClassTotals(results: seq<Result>, classes: seq<string>)
    requires forall r | r in results :: Coherent(r)
    requires Orders.Distinct(classes) && forall c :: c in classes <==> IsClass(results, c)
    ensures Sum(classes, Tp(results)) == CountIf(results, (r: Result) => r.exact)
    ensures Sum(classes, TpFn(results)) == |results|
    ensures Sum(classes, TpFp(results)) == StatusCount(results, PROPOSED) + StatusCount(results, NOT_APPROVED)
  {
    hide CountIf, Sum, Strip, IsClass, Coherent, Tp, TpFp, TpFn, PerKey, StatusCount;
    ClassesCover(results, classes);
    forall c ensures Tp(results)(c) == PerKey(results, Exact, Expected)(c)
      ensures TpFn(results)(c) == PerKey(results, Any, Expected)(c)
      ensures TpFp(results)(c) == PerKey(results, HasCode, Code)(c)
    {
      TpCounts(results, c);
      TpFnCounts(results, c);
      TpFpCounts(results, c);
    }
    SumSame(classes, Tp(results), PerKey(results, Exact, Expected));
    SumSame(classes, TpFn(results), PerKey(results, Any, Expected));
    SumSame(classes, TpFp(results), PerKey(results, HasCode, Code));
    PartitionLaw(classes, results, Exact, Expected);
    PartitionLaw(classes, results, HasCode, Code);
    TallySumsToTotal(results, Expected, classes);
    CoherentCounts(results);
  }

  lemma CoherentCounts(results: seq<Result>)
    requires forall r | r in results :: Coherent(r)
    ensures CountIf(results, Exact) == CountIf(results, (r: Result) => r.exact)
    ensures CountIf(results, HasCode) == StatusCount(results, PROPOSED) + StatusCount(results, NOT_APPROVED)
  {
    CountSame(results, Exact, (r: Result) => r.exact);
    CountSplit(results, (r: Result) => r.status == PROPOSED, (r: Result) => r.status == NOT_APPROVED, HasCode);
  }

  lemma ClassesCover(results: seq<Result>, classes: seq<string>)
    requires forall r | r in results :: Coherent(r)
    requires forall c | IsClass(results, c) :: c in classes
    ensures forall r | r in results :: Expected(r) in classes
    ensures forall r | r in results && HasCode(r) :: Code(r) in classes
  {
    forall r | r in results ensures Expected(r) in classes && (HasCode(r) ==> Code(r) in classes) {
      assert IsClass(results, Expected(r));
      if HasCode(r) {
        assert IsClass(results, Code(r));
      }
    }
  }

  function Classes(rows: seq<Row>): (cs: seq<string>)
    ensures |cs| == |rows| && forall i | 0 <= i < |rows| :: cs[i] == rows[i].cls
  {
    seq(|rows|, i requires 0 <= i < |rows| => rows[i].cls)
  }

  lemma {:induction false} SumOverRows(results: seq<Result>, rows: seq<Row>, f: Row -> nat, g: string -> nat)
    requires forall i | 0 <= i < |rows| :: f(rows[i]) == g(rows[i].cls)
    ensures Sum(rows, f) == Sum(Classes(rows), g)
  {
    if rows == [] {
    } else {
      SumOverRows(results, rows[1..], f, g);
      assert Classes(rows)[1..] == Classes(rows[1..]);
    }
  }

  /** The same totals read off the rows `_compute_per_class` returns. */
  lemma RowTotals(results: seq<Result>, rows: seq<Row>)
    requires ClassRows(results, rows) && forall r | r in results :: Coherent(r)
    ensures Sum(rows, (row: Row) => row.tp) == CountIf(results, (r: Result) => r.exact)
    ensures Sum(rows, (row: Row) => row.tp + row.fn) == |results|
    ensures Sum(rows, (row: Row) => row.tp + row.fp) == StatusCount(results, PROPOSED) + StatusCount(results, NOT_APPROVED)
  {
    hide RowOf, IsClass, Coherent, CountIf;
    forall c ensures c in Classes(rows) <==> IsClass(results, c) {
      if c in Classes(rows) {
        var i :| 0 <= i < |rows| && Classes(rows)[i] == c;
        assert rows[i].cls == c;
      }
      if IsClass(results, c) {
        var i :| 0 <= i < |rows| && rows[i].cls == c;
        assert Classes(rows)[i] == c;
      }
    }
    ClassTotals(results, Classes(rows));
    SumOverRows(results, rows, (row: Row) => row.tp, Tp(results));
    SumOverRows(results, rows, (row: Row) => row.tp + row.fn, TpFn(results));
    SumOverRows(results, rows, (row: Row) => row.tp + row.fp, TpFp(results));
  }

  function IsExact(): Result -> bool { (r: Result) => r.exact }

  function WrongProposed(): Result -> bool { (r: Result) => r.status == PROPOSED && !r.exact }

  function ExactWith(s: Status): Result -> bool { (r: Result) => r.exact && r.status == s }

  /** `exact_matches` outnumbers `proposed_count` exactly when more NOT_APPROVED cases carry the expected
      code than PROPOSED cases carry a wrong one. */
  lemma ExactOutnumbersProposedIff(results: seq<Result>)
    requires forall r | r in results :: Coherent(r)
    ensures CountIf(results, IsExact()) > StatusCount(results, PROPOSED)
      <==> CountIf(results, ExactWith(NOT_APPROVED)) > CountIf(results, WrongProposed())
  {
    CountSplit(results, ExactWith(PROPOSED), ExactWith(NOT_APPROVED), IsExact());
    CountSplit(results, ExactWith(PROPOSED), WrongProposed(), (r: Result) => r.status == PROPOSED);
  }

  /** `proposed_accuracy` as reported: zero when nothing was proposed. */
  function ProposedAccuracy(results: seq<Result>): real {
    Ratio(CountIf(results, IsExact()), StatusCount(results, PROPOSED))
  }

  /** It exceeds one exactly when some case is PROPOSED and more NOT_APPROVED cases carry the expected
      code than PROPOSED cases carry a wrong one. */
  lemma ProposedAccuracyAboveOneIff(results: seq<Result>)
    requires forall r | r in results :: Coherent(r)
    ensures ProposedAccuracy(results) > 1.0
      <==> StatusCount(results, PROPOSED) > 0 && CountIf(results, ExactWith(NOT_APPROVED)) > CountIf(results, WrongProposed())
  {
    ExactOutnumbersProposedIff(results);
    RatioAboveOne(CountIf(results, IsExact()), StatusCount(results, PROPOSED));
  }

  lemma RatioAboveOne(n: nat, d: nat)
    ensures Ratio(n, d) > 1.0 <==> d > 0 && n > d
  {
    if d > 0 {
      assert n as real == Ratio(n, d) * d as real;
    }
  }

  function OnlyA(code: string): string { if code == "ontology:a" then "ALLOWED" else "EXPIRED" }

  /** A case answered with its expected code, under an approved list in which only `ontology:a` is live. */
  function Answered(code: string): Result { Evaluate(code, Text(code), Some(OnlyA)) }

  lemma AnsweredIs(code: string)
    requires OntologyCode(code)
    ensures Answered(code).exact
    ensures Answered(code).status == if code == "ontology:a" then PROPOSED else NOT_APPROVED
  {
    assert code[0] == "ontology:"[0] == 'o' && !Blank(code[|code| - 1]);
    assert StripLeft(code) == code && StripRight(code) == code;
    assert |"ALLOWED"| == 7 && "ALLOWED"[0] == 'A' && "EXPIRED"[0] == 'E';
  }

  /** Two cases answered with their expected codes, the second no longer approved: two exact matches
      over one proposal. With the second alone nothing is proposed, and the code reports zero. */
  lemma ProposedAccuracyCanBeTwo()
    ensures ProposedAccuracy([Answered("ontology:a"), Answered("ontology:b")]) == 2.0
    ensures ProposedAccuracy([Answered("ontology:b")]) == 0.0
    ensures CountIf([Answered("ontology:b")], ExactWith(NOT_APPROVED)) > CountIf([Answered("ontology:b")], WrongProposed())
  {
    hide Answered;
    assert OntologyCode("ontology:a") && OntologyCode("ontology:b");
    assert "ontology:a"[9] == 'a' && "ontology:b"[9] == 'b' && "ontology:a"[..9] == "ontology:" == "ontology:b"[..9];
    AnsweredIs("ontology:a");
    AnsweredIs("ontology:b");
    var first, second := Answered("ontology:a"), Answered("ontology:b");
    assert [first, second][1..] == [second] && [second][1..] == [];
  }

  // ---- precision, recall, F1 ---------------------------------------------------------

  function Ratio(n: nat, d: nat): real { if d > 0 then n as real / d as real else 0.0 }

  function Precision(row: Row): real { Ratio(row.tp, row.tp + row.fp) }

  function Recall(row: Row): real { Ratio(row.tp, row.tp + row.fn) }

  /** The case was answered with the class, and the case expects the class. */
  function Answers(c: string): Result -> bool { (r: Result) => r.proposed.Some? && Strip(r.proposed.value) == c }
  function Expects(c: string): Result -> bool { (r: Result) => Strip(r.expected) == c }
  function Meets(c: string): Result -> bool { (r: Result) => Answers(c)(r) && Expects(c)(r) }

  /** Precision is the share of the cases answered with the class that expect it, recall the share of the
      cases expecting the class that are answered with it; of no cases, zero. */
  lemma SharesOfCases(results: seq<Result>, c: string)
    ensures
      var answered, expected, met := CountIf(results, Answers(c)), CountIf(results, Expects(c)), CountIf(results, Meets(c));
      && Precision(RowOf(results, c)) == (if answered == 0 then 0.0 else met as real / answered as real)
      && Recall(RowOf(results, c)) == (if expected == 0 then 0.0 else met as real / expected as real)
  {
    CountSame(results, IsTp(c), Meets(c));
    CountSplit(results, IsTp(c), IsFp(c), Answers(c));
    CountSplit(results, IsTp(c), IsFn(c), Expects(c));
  }

  /** The harmonic mean as the code computes it. */
  function F1(row: Row): real {
    var p, r := Precision(row), Recall(row);
    if p + r > 0.0 then 2.0 * p * r / (p + r) else 0.0
  }

  lemma HarmonicMean(t: real, a: real, b: real)
    requires 0.0 < t && 0.0 < a && 0.0 < b
    ensures t / a + t / b > 0.0
    ensures 2.0 * (t / a) * (t / b) / (t / a + t / b) == 2.0 * t / (a + b)
  {
    var p, r := t / a, t / b;
    assert p * a == t && r * b == t;
    assert (p + r) * (a * b) == t * b + t * a;
    assert (p + r) * (a * b) == t * (a + b);
    assert p * r * (a * b) == (p * a) * (r * b) == t * t;
    CrossDivide(2.0 * p * r, p + r, 2.0 * t, a + b, a * b, t);
  }

  /** `x / y == z / w`, shown by scaling: `y·s == u·w` and `x·s == u·z`. */
  lemma CrossDivide(x: real, y: real, z: real, w: real, s: real, u: real)
    requires y > 0.0 && w > 0.0 && s > 0.0 && u > 0.0
    requires y * s == u * w && x * s == u * z
    ensures x / y == z / w
  {
    assert (x * w) * s == (x * s) * w == u * z * w;
    assert (z * y) * s == z * (y * s) == u * z * w;
    assert (x * w - z * y) * s == 0.0;
    assert x * w == z * y;
    assert x == z * y / w;
    assert x == (z / w) * y;
  }

  /** A class has a row because a case expects it or proposes it, so the row counts something. */
  lemma RowCountsSomething(results: seq<Result>, rows: seq<Row>, i: nat)
    requires ClassRows(results, rows) && i < |rows|
    ensures rows[i].tp + rows[i].fp + rows[i].fn > 0
  {
    hide Strip, CountIf;
    var c := rows[i].cls;
    assert rows[i] == RowOf(results, c);
    assert IsClass(results, c);
    var r :| r in results && (Expected(r) == c || (r.proposed.Some? && r.proposed.value != "" && Code(r) == c));
    assert IsTp(c)(r) || IsFp(c)(r) || IsFn(c)(r);
    if IsTp(c)(r) {
      CountsOne(results, r, IsTp(c));
    } else if IsFp(c)(r) {
      CountsOne(results, r, IsFp(c));
    } else {
      CountsOne(results, r, IsFn(c));
    }
  }

  lemma {:induction false} CountsOne<R>(results: seq<R>, r: R, p: R -> bool)
    requires r in results && p(r)
    ensures CountIf(results, p) > 0
  {
    if results[0] == r {
    } else {
      CountsOne(results[1..], r, p);
    }
  }

  /** Every F1 the code reports is `2tp / (2tp + fp + fn)` and lies between precision and recall. */
  lemma ReportedF1(results: seq<Result>, rows: seq<Row>)
    requires ClassRows(results, rows)
    ensures forall i | 0 <= i < |rows| ::
              && rows[i].tp + rows[i].fp + rows[i].fn > 0
              && F1(rows[i]) == (2 * rows[i].tp) as real / (2 * rows[i].tp + rows[i].fp + rows[i].fn) as real
              && (Precision(rows[i]) <= F1(rows[i]) <= Recall(rows[i]) || Recall(rows[i]) <= F1(rows[i]) <= Precision(rows[i]))
  {
    hide ClassRows, F1, Precision, Recall;
    forall i | 0 <= i < |rows|
      ensures rows[i].tp + rows[i].fp + rows[i].fn > 0
      ensures F1(rows[i]) == (2 * rows[i].tp) as real / (2 * rows[i].tp + rows[i].fp + rows[i].fn) as real
      ensures Precision(rows[i]) <= F1(rows[i]) <= Recall(rows[i]) || Recall(rows[i]) <= F1(rows[i]) <= Precision(rows[i])
    {
      RowCountsSomething(results, rows, i);
      F1Identity(rows[i]);
    }
  }

  /** Each F1 is `2tp / (2tp + fp + fn)` and lies between precision and recall. */
  lemma F1Identity(row: Row)
    requires row.tp + row.fp + row.fn > 0
    ensures F1(row) == (2 * row.tp) as real / (2 * row.tp + row.fp + row.fn) as real
    ensures Precision(row) <= F1(row) <= Recall(row) || Recall(row) <= F1(row) <= Precision(row)
  {
    if row.tp > 0 {
      var t, a, b := row.tp as real, (row.tp + row.fp) as real, (row.tp + row.fn) as real;
      HarmonicRow(row, t, a, b);
      Between(t, a, b);
    } else {
      assert Precision(row) == 0.0 && Recall(row) == 0.0;
    }
  }

  lemma HarmonicRow(row: Row, t: real, a: real, b: real)
    requires row.tp > 0 && t == row.tp as real && a == (row.tp + row.fp) as real && b == (row.tp + row.fn) as real
    ensures Precision(row) == t / a && Recall(row) == t / b
    ensures F1(row) == 2.0 * t / (a + b)
    ensures 2.0 * t == (2 * row.tp) as real && a + b == (2 * row.tp + row.fp + row.fn) as real
  {
    HarmonicMean(t, a, b);
  }

  lemma Between(t: real, a: real, b: real)
    requires 0.0 < t && 0.0 < a && 0.0 < b
    ensures a <= b ==> t / b <= 2.0 * t / (a + b) <= t / a
    ensures b <= a ==> t / a <= 2.0 * t / (a + b) <= t / b
  {
    var m := (a + b) / 2.0;
    CrossDivide(2.0 * t, a + b, t, m, 1.0, 2.0);
    if a <= b {
      Larger(t, a, m);
      Larger(t, m, b);
    }
    if b <= a {
      Larger(t, b, m);
      Larger(t, m, a);
    }
  }

  lemma Larger(t: real, a: real, b: real)
    requires 0.0 < t && 0.0 < a <= b
    ensures t / b <= t / a
  {
    var q := t / a;
    assert q * a == t;
    Times(q, a, b);
    assert t <= q * b;
    DivideBy(t, q, b);
  }

  lemma Times(q: real, a: real, b: real)
    requires q >= 0.0 && a <= b
    ensures q * a <= q * b
  {
  }

  lemma DivideBy(t: real, q: real, b: real)
    requires b > 0.0 && t <= q * b
    ensures t / b <= q
  {
    var d := q * b - t;
    assert q == (t + d) / b == t / b + d / b;
    assert d / b >= 0.0;
  }

  // ---- latency percentiles ---------------------------------------------------------------

  predicate RealLeq(a: real, b: real) { a <= b }

  /** The index a percentile is read at. */
  function Rank(n: nat, pct: nat): nat
    requires n > 0
  {
    var i := n * pct / 100;
    if i < n then i else n - 1
  }

  lemma RankBounds(n: nat, pct: nat)
    requires n > 0
    ensures Rank(n, pct) < n
    ensures pct < 100 ==> 100 * Rank(n, pct) <= n * pct < 100 * (Rank(n, pct) + 1)
  {
    if pct < 100 {
      assert n * pct < n * 100;
    }
  }

  lemma RankGrows(n: nat, p: nat, q: nat)
    requires n > 0 && p <= q
    ensures Rank(n, p) <= Rank(n, q)
  {
    Scale(n, p, q);
    DivGrows(n * p, n * q);
  }

  lemma Scale(n: nat, p: nat, q: nat)
    requires p <= q
    ensures n * p <= n * q
  {
  }

  lemma DivGrows(a: nat, b: nat)
    requires a <= b
    ensures a / 100 <= b / 100
  {
  }

  /** `_percentile`. */
  function Percentile(values: seq<real>, pct: nat): Option<real> {
    if values == [] then None
    else
      var sorted := Orders.SortBy(RealLeq, values);
      Orders.SortByMultiset(RealLeq, values);
      Some(sorted[Rank(|sorted|, pct)])
  }

  lemma SortedValues(values: seq<real>)
    requires values != []
    ensures
      var sorted := Orders.SortBy(RealLeq, values);
      && |sorted| == |values| && multiset(sorted) == multiset(values)
      && Orders.SortedBy(RealLeq, sorted)
      && forall pct: nat :: Percentile(values, pct) == Some(sorted[Rank(|values|, pct)])
  {
    Orders.SortByMultiset(RealLeq, values);
    Orders.SortBySorted(RealLeq, values);
  }

  /** The reported latency is one of the measured ones, and a higher percentile is never smaller. */
  lemma PercentileOrder(values: seq<real>, p: nat, q: nat)
    requires values != [] && p <= q
    ensures Percentile(values, p).Some? && Percentile(values, q).Some?
    ensures Percentile(values, p).value in values
    ensures Percentile(values, p).value <= Percentile(values, q).value
  {
    hide Orders.SortBy, Percentile, Rank;
    SortedValues(values);
    var sorted := Orders.SortBy(RealLeq, values);
    Orders.SameElements(values, sorted);
    RankGrows(|values|, p, q);
    RankBounds(|values|, p);
    RankBounds(|values|, q);
    var i, j := Rank(|values|, p), Rank(|values|, q);
    if i < j {
      assert RealLeq(sorted[i], sorted[j]);
    }
  }

  function Below(x: real): real -> bool { (v: real) => v <= x }
  function Above(x: real): real -> bool { (v: real) => x <= v }

  /** More than the requested share of the measurements are no larger than the percentile, and at least
      the rest are no smaller. */
  lemma PercentileShare(values: seq<real>, pct: nat)
    requires values != [] && pct < 100
    ensures Percentile(values, pct).Some?
    ensures 100 * CountIf(values, Below(Percentile(values, pct).value)) > pct * |values|
    ensures 100 * CountIf(values, Above(Percentile(values, pct).value)) >= (100 - pct) * |values|
  {
    hide Orders.SortBy, Percentile, Rank, CountIf;
    SortedValues(values);
    var sorted := Orders.SortBy(RealLeq, values);
    var n, i := |values|, Rank(|values|, pct);
    RankBounds(n, pct);
    SortedShare(sorted, i);
    CountForgetsOrder(values, sorted, Below(sorted[i]));
    CountForgetsOrder(values, sorted, Above(sorted[i]));
    assert (100 - pct) * n == 100 * n - n * pct;
  }

  lemma SortedShare(sorted: seq<real>, i: nat)
    requires i < |sorted| && Orders.SortedBy(RealLeq, sorted)
    ensures CountIf(sorted, Below(sorted[i])) >= i + 1
    ensures CountIf(sorted, Above(sorted[i])) >= |sorted| - i
  {
    hide CountIf;
    AllUpTo(sorted, i);
    AllFrom(sorted, i);
    assert sorted[..i + 1] + sorted[i + 1..] == sorted && sorted[..i] + sorted[i..] == sorted;
    CountJoin(sorted[..i + 1], sorted[i + 1..], Below(sorted[i]));
    CountJoin(sorted[..i], sorted[i..], Above(sorted[i]));
  }

  lemma AllUpTo(sorted: seq<real>, i: nat)
    requires i < |sorted| && Orders.SortedBy(RealLeq, sorted)
    ensures CountIf(sorted[..i + 1], Below(sorted[i])) == i + 1
  {
    forall v | v in sorted[..i + 1] ensures Below(sorted[i])(v) {
      var k :| 0 <= k <= i && sorted[k] == v;
      assert k == i || RealLeq(sorted[k], sorted[i]);
    }
    CountAll(sorted[..i + 1], Below(sorted[i]));
  }

  lemma AllFrom(sorted: seq<real>, i: nat)
    requires i < |sorted| && Orders.SortedBy(RealLeq, sorted)
    ensures CountIf(sorted[i..], Above(sorted[i])) == |sorted| - i
  {
    forall v | v in sorted[i..] ensures Above(sorted[i])(v) {
      var k :| i <= k < |sorted| && sorted[k] == v;
      assert k == i || RealLeq(sorted[i], sorted[k]);
    }
    CountAll(sorted[i..], Above(sorted[i]));
  }

  lemma {:induction false} CountJoin<R>(s: seq<R>, t: seq<R>, p: R -> bool)
    ensures CountIf(s + t, p) == CountIf(s, p) + CountIf(t, p)
  {
    if s == [] {
      assert s + t == t;
    } else {
      CountJoin(s[1..], t, p);
      assert (s + t)[1..] == s[1..] + t;
    }
  }

  lemma TakeOut(s: seq<real>, t: seq<real>, k: nat)
    requires s != [] && k < |t| && t[k] == s[0] && multiset(s) == multiset(t)
    ensures multiset(s[1..]) == multiset(t[..k] + t[k + 1..])
  {
    assert t == t[..k] + [t[k]] + t[k + 1..];
    assert s == [s[0]] + s[1..];
    assert multiset(t) == multiset(t[..k]) + multiset{t[k]} + multiset(t[k + 1..]);
    assert multiset(s) == multiset{s[0]} + multiset(s[1..]);
    assert multiset(s[1..]) == multiset(s) - multiset{s[0]};
  }

  lemma {:induction false} CountForgetsOrder(s: seq<real>, t: seq<real>, p: real -> bool)
    requires multiset(s) == multiset(t)
    ensures CountIf(s, p) == CountIf(t, p)
  {
    Orders.SameElements(s, t);
    if s == [] {
    } else {
      assert s[0] in t;
      var k :| 0 <= k < |t| && t[k] == s[0];
      TakeOut(s, t, k);
      CountForgetsOrder(s[1..], t[..k] + t[k + 1..], p);
      CountJoin(t[..k], t[k + 1..], p);
      CountJoin(t[..k] + [t[k]], t[k + 1..], p);
      CountAppend(t[..k], t[k], p);
      assert t == t[..k] + [t[k]] + t[k + 1..];
    }
  }
}
