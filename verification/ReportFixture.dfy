/** The demo report: obligation rows, and the three ways it groups their tax. Money is in cents. */
module ReportFixture {
  import Orders
  import Apportionment

  datatype Spec = Spec(authority: string, month: string, status: string, due: int, currency: string, amount: real)

  datatype Obligation = Obligation(id: nat, authority: string, month: string, status: string, due: int,
                                   currency: string, amount: int, usd: int)

  const EUR_TO_USD: real := 1.08

  /** `_money`. */
  function Money(x: real): int { Apportionment.HalfUp(x * 100.0) }

  function Dollars(cents: int): real { cents as real / 100.0 }

  /** `_to_usd`. */
  function ToUsd(amount: real, currency: string): real {
    if currency == "EUR" then Dollars(Money(amount * EUR_TO_USD)) else amount
  }

  function RowOf(s: Spec, id: nat): Obligation {
    Obligation(id, s.authority, s.month, s.status, s.due, s.currency, Money(s.amount), Money(ToUsd(s.amount, s.currency)))
  }

  /** `_generate_obligations`, for any list of specifications with their amounts drawn. */
  method Obligations(specs: seq<Spec>) returns (rows: seq<Obligation>)
    ensures IsRowsOf(rows, specs)
  {
    hide RowOf, IsRow;
    rows := [];
    for i := 0 to |specs|
      invariant |rows| == i && forall k | 0 <= k < i :: IsRow(rows[k], specs[k], k + 1)
    {
      RowOfIsRow(specs[i], i + 1);
      rows := rows + [RowOf(specs[i], i + 1)];
    }
  }

  /** The whole number of cents nearest to an amount; a tie goes away from zero. */
  predicate Cents(cents: int, amount: real) {
    && 100.0 * amount - 0.5 <= cents as real <= 100.0 * amount + 0.5
    && (amount >= 0.0 ==> cents as real != 100.0 * amount - 0.5)
    && (amount <= 0.0 ==> cents as real != 100.0 * amount + 0.5)
  }

  /** The row of a specification: its texts and its due date, its amount in cents, and its worth in cents of a
      dollar, a euro being 1.08 dollars. */
  predicate IsRow(o: Obligation, s: Spec, id: nat) {
    && o.id == id && o.authority == s.authority && o.month == s.month && o.status == s.status && o.due == s.due
    && o.currency == s.currency && Cents(o.amount, s.amount)
    && Cents(o.usd, if s.currency == "EUR" then 1.08 * s.amount else s.amount)
  }

  predicate IsRowsOf(rows: seq<Obligation>, specs: seq<Spec>) {
    |rows| == |specs| && forall k | 0 <= k < |specs| :: IsRow(rows[k], specs[k], k + 1)
  }

  lemma MoneyIsCents(amount: real)
    ensures Cents(Money(amount), amount)
  {
    var x := amount * 100.0;
    Apportionment.HalfUpIsNearest(x);
    if x >= 0.0 && Money(amount) as real == x - 0.5 {
      HalfAbove(x, Money(amount));
    }
    if x <= 0.0 && Money(amount) as real == x + 0.5 {
      HalfAbove(x, Money(amount) - 1);
    }
  }

  lemma HalfAbove(x: real, n: int)
    requires n as real + 0.5 == x
    ensures x.Floor == n && x == x.Floor as real + 0.5
  {
  }

  lemma RowOfIsRow(s: Spec, id: nat)
    ensures IsRow(RowOf(s, id), s, id)
  {
    hide Cents;
    MoneyIsCents(s.amount);
    if s.currency == "EUR" {
      MoneyOfDollars(Money(s.amount * EUR_TO_USD));
      MoneyIsCents(s.amount * EUR_TO_USD);
      assert s.amount * EUR_TO_USD == 1.08 * s.amount;
    }
  }

  // ---- conversion error --------------------------------------------------------------

  /** The conversion before any rounding. */
  function Exact(s: Spec): real { if s.currency == "EUR" then 1.08 * s.amount else s.amount }

  predicate WholeCents(x: real) { x * 100.0 == (x * 100.0).Floor as real }

  lemma MoneyOfDollars(cents: int)
    ensures Money(Dollars(cents)) == cents
  {
    Apportionment.HalfUpIsNearest(cents as real);
  }

  lemma RowIsNear(o: Obligation, s: Spec, id: nat)
    requires IsRow(o, s, id)
    ensures 100.0 * Exact(s) - 0.5 <= o.usd as real <= 100.0 * Exact(s) + 0.5
    ensures s.currency != "EUR" && WholeCents(s.amount) ==> o.usd as real == 100.0 * Exact(s)
  {
    if s.currency != "EUR" && WholeCents(s.amount) {
      NearestWhole(100.0 * s.amount, (s.amount * 100.0).Floor, o.usd);
    }
  }

  lemma NearestWhole(x: real, n: int, m: int)
    requires x == n as real && x - 0.5 <= m as real <= x + 0.5
    ensures m == n
  {
  }

  function ExactTotal(specs: seq<Spec>): real {
    if specs == [] then 0.0 else Exact(specs[0]) + ExactTotal(specs[1..])
  }

  function EuroRows(specs: seq<Spec>): nat {
    if specs == [] then 0 else (if specs[0].currency == "EUR" then 1 else 0) + EuroRows(specs[1..])
  }

  /** A quantity added up over rows. */
  function Total(rows: seq<Obligation>, weight: Obligation -> int): int {
    if rows == [] then 0 else weight(rows[0]) + Total(rows[1..], weight)
  }

  function Usd(): Obligation -> int { (o: Obligation) => o.usd }

  /** The reported total is within half a cent per euro row of the unrounded conversion. */
  lemma {:induction false} TotalIsNear(specs: seq<Spec>, rows: seq<Obligation>, first: nat)
    requires |rows| == |specs| && forall k | 0 <= k < |specs| :: IsRow(rows[k], specs[k], first + k)
    requires forall s | s in specs :: s.currency == "EUR" || WholeCents(s.amount)
    ensures 100.0 * ExactTotal(specs) - 0.5 * EuroRows(specs) as real <= Total(rows, Usd()) as real
    ensures Total(rows, Usd()) as real <= 100.0 * ExactTotal(specs) + 0.5 * EuroRows(specs) as real
  {
    hide IsRow, Exact;
    if specs == [] {
    } else {
      assert specs[0] in specs && IsRow(rows[0], specs[0], first + 0);
      RowIsNear(rows[0], specs[0], first);
      forall k | 0 <= k < |specs| - 1 ensures IsRow(rows[1..][k], specs[1..][k], first + 1 + k) {
        assert IsRow(rows[k + 1], specs[k + 1], first + (k + 1));
      }
      TotalIsNear(specs[1..], rows[1..], first + 1);
    }
  }

  // ---- grouping ------------------------------------------------------------------------

  /** The rows with the key, in order. */
  function Having(rows: seq<Obligation>, key: Obligation -> string, k: string): seq<Obligation> {
    if rows == [] then []
    else (if key(rows[0]) == k then [rows[0]] else []) + Having(rows[1..], key, k)
  }

  function Ids(rows: seq<Obligation>): (ids: seq<nat>)
    ensures |ids| == |rows| && forall i | 0 <= i < |ids| :: ids[i] == rows[i].id
  {
    seq(|rows|, i requires 0 <= i < |rows| => rows[i].id)
  }

  lemma {:induction false} HavingAppend(rows: seq<Obligation>, o: Obligation, key: Obligation -> string, k: string)
    ensures Having(rows + [o], key, k) == Having(rows, key, k) + (if key(o) == k then [o] else [])
  {
    if rows == [] {
      assert rows + [o] == [o] && [o][1..] == [];
    } else {
      HavingAppend(rows[1..], o, key, k);
      assert (rows + [o])[1..] == rows[1..] + [o];
    }
  }

  lemma {:induction false} TotalAppend(rows: seq<Obligation>, o: Obligation, weight: Obligation -> int)
    ensures Total(rows + [o], weight) == Total(rows, weight) + weight(o)
  {
    if rows == [] {
      assert rows + [o] == [o] && [o][1..] == [];
    } else {
      TotalAppend(rows[1..], o, weight);
      assert (rows + [o])[1..] == rows[1..] + [o];
    }
  }

  /** Group by group, then all groups together. */
  function GroupTotals(keys: seq<string>, rows: seq<Obligation>, key: Obligation -> string, weight: Obligation -> int): int {
    if keys == [] then 0
    else Total(Having(rows, key, keys[0]), weight) + GroupTotals(keys[1..], rows, key, weight)
  }

  lemma {:induction false} GroupTotalsStep(keys: seq<string>, rows: seq<Obligation>, key: Obligation -> string, weight: Obligation -> int)
    requires Orders.Distinct(keys) && rows != []
    ensures GroupTotals(keys, rows, key, weight)
         == GroupTotals(keys, rows[1..], key, weight) + (if key(rows[0]) in keys then weight(rows[0]) else 0)
  {
    if keys == [] {
    } else {
      GroupTotalsStep(keys[1..], rows, key, weight);
      var rest := Having(rows[1..], key, keys[0]);
      if key(rows[0]) == keys[0] {
        assert Having(rows, key, keys[0]) == [rows[0]] + rest && ([rows[0]] + rest)[1..] == rest;
        assert key(rows[0]) !in keys[1..];
      } else {
        assert Having(rows, key, keys[0]) == rest;
      }
    }
  }

  /** Regrouping loses nothing and counts nothing twice. */
  lemma {:induction false} RegroupingConserves(keys: seq<string>, rows: seq<Obligation>, key: Obligation -> string, weight: Obligation -> int)
    requires Orders.Distinct(keys) && forall o | o in rows :: key(o) in keys
    ensures GroupTotals(keys, rows, key, weight) == Total(rows, weight)
  {
    if rows == [] {
      NothingToGroup(keys, key, weight);
    } else {
      assert rows[0] in rows;
      GroupTotalsStep(keys, rows, key, weight);
      RegroupingConserves(keys, rows[1..], key, weight);
    }
  }

  lemma {:induction false} NothingToGroup(keys: seq<string>, key: Obligation -> string, weight: Obligation -> int)
    ensures GroupTotals(keys, [], key, weight) == 0
  {
    if keys == [] {
    } else {
      NothingToGroup(keys[1..], key, weight);
    }
  }

  // ---- the trend -----------------------------------------------------------------------

  datatype Figure = Figure(key: string, value: int, ids: seq<nat>)

  function Month(): Obligation -> string { (o: Obligation) => o.month }
  function Authority(): Obligation -> string { (o: Obligation) => o.authority }

  /** One figure per distinct key, each the dollars of exactly its rows. */
  ghost predicate Grouped(figures: seq<Figure>, rows: seq<Obligation>, key: Obligation -> string) {
    && (forall i, j | 0 <= i < j < |figures| :: figures[i].key != figures[j].key)
    && (forall k :: KeyUsed(rows, key, k) <==> HasFigure(figures, k))
    && forall i | 0 <= i < |figures| :: FigureOf(figures[i], rows, key)
  }

  ghost predicate KeyUsed(rows: seq<Obligation>, key: Obligation -> string, k: string) {
    exists o | o in rows :: key(o) == k
  }

  ghost predicate HasFigure(figures: seq<Figure>, k: string) {
    exists i | 0 <= i < |figures| :: figures[i].key == k
  }

  ghost predicate FigureOf(f: Figure, rows: seq<Obligation>, key: Obligation -> string) {
    f.value == Total(Having(rows, key, f.key), Usd()) && f.ids == Ids(Having(rows, key, f.key))
  }

  /** The set comprehension that collects keys. */
  function KeysOf(rows: seq<Obligation>, key: Obligation -> string): (keys: seq<string>)
    ensures Orders.Distinct(keys)
    ensures forall k :: k in keys <==> KeyUsed(rows, key, k)
  {
    if rows == [] then []
    else
      var before := rows[..|rows| - 1];
      var o := rows[|rows| - 1];
      assert rows == before + [o] && forall k :: KeyUsed(rows, key, k) <==> KeyUsed(before, key, k) || key(o) == k;
      Orders.AddTo(KeysOf(before, key), key(o))
  }

  /** `_generate_trend`: a point per assessed month, in month order. */
  method Trend(rows: seq<Obligation>) returns (points: seq<Figure>)
    ensures Grouped(points, rows, Month())
    ensures forall i, j | 0 <= i < j < |points| :: Orders.Leq(points[i].key, points[j].key)
  {
    var found := KeysOf(rows, Month());
    var months := Orders.SortBy(Orders.Leq, found);
    Orders.SortedDistinct(found);
    points := [];
    for i := 0 to |months|
      invariant |points| == i
      invariant forall k | 0 <= k < i :: points[k].key == months[k] && FigureOf(points[k], rows, Month())
    {
      var members := Having(rows, Month(), months[i]);
      MoneyOfDollars(Total(members, Usd()));
      points := points + [Figure(months[i], Money(Dollars(Total(members, Usd()))), Ids(members))];
    }
    GroupedByKeys(points, months, rows, Month());
  }

  lemma GroupedByKeys(figures: seq<Figure>, keys: seq<string>, rows: seq<Obligation>, key: Obligation -> string)
    requires |figures| == |keys| && Orders.Distinct(keys) && forall k :: k in keys <==> KeyUsed(rows, key, k)
    requires forall i | 0 <= i < |keys| :: figures[i].key == keys[i] && FigureOf(figures[i], rows, key)
    ensures Grouped(figures, rows, key)
  {
    hide FigureOf, KeyUsed;
    forall k ensures KeyUsed(rows, key, k) <==> HasFigure(figures, k) {
      if k in keys {
        var i :| 0 <= i < |keys| && keys[i] == k;
        assert figures[i].key == k;
      }
    }
  }

  // ---- the authorities -----------------------------------------------------------------

  function Held(totals: map<string, int>, k: string): int { if k in totals then totals[k] else 0 }

  predicate RanksBefore(totals: map<string, int>, a: string, b: string) {
    Held(totals, a) > Held(totals, b) || (Held(totals, a) == Held(totals, b) && Orders.Leq(a, b))
  }

  function Ranking(totals: map<string, int>): (string, string) -> bool {
    (a: string, b: string) => RanksBefore(totals, a, b)
  }

  lemma RankingIsOrder(totals: map<string, int>)
    ensures Orders.TotalPreorder(Ranking(totals))
  {
    var leq := Ranking(totals);
    forall a, b ensures leq(a, b) || leq(b, a) {
      Orders.LeqTotal(a, b);
    }
    forall a, b, c | leq(a, b) && leq(b, c) ensures leq(a, c) {
      if Held(totals, a) == Held(totals, b) == Held(totals, c) {
        Orders.LeqTransitive(a, b, c);
      }
    }
  }

  /** The `by_authority` dictionary, as its keys in insertion order and their sums. */
  method AddUp(rows: seq<Obligation>) returns (keys: seq<string>, totals: map<string, int>)
    ensures Orders.Distinct(keys) && forall k :: k in keys <==> k in totals
    ensures forall k :: k in keys <==> KeyUsed(rows, Authority(), k)
    ensures forall k :: Held(totals, k) == Total(Having(rows, Authority(), k), Usd())
  {
    hide Total, Having, KeyUsed;
    keys, totals := [], map[];
    forall k {
      NoRows(k);
    }
    for i := 0 to |rows|
      invariant Orders.Distinct(keys) && forall k :: k in keys <==> k in totals
      invariant forall k :: k in keys <==> KeyUsed(rows[..i], Authority(), k)
      invariant forall k :: Held(totals, k) == Total(Having(rows[..i], Authority(), k), Usd())
    {
      var o := rows[i];
      assert rows[..i + 1] == rows[..i] + [o];
      forall k {
        OneMoreRow(rows[..i], o, k);
      }
      keys := Orders.AddTo(keys, o.authority);
      totals := totals[o.authority := Held(totals, o.authority) + o.usd];
    }
    assert rows[..|rows|] == rows;
  }

  lemma NoRows(k: string)
    ensures Total(Having([], Authority(), k), Usd()) == 0 && !KeyUsed([], Authority(), k)
  {
  }

  lemma OneMoreRow(rows: seq<Obligation>, o: Obligation, k: string)
    ensures Total(Having(rows + [o], Authority(), k), Usd())
         == Total(Having(rows, Authority(), k), Usd()) + (if o.authority == k then o.usd else 0)
    ensures KeyUsed(rows + [o], Authority(), k) <==> KeyUsed(rows, Authority(), k) || o.authority == k
  {
    HavingAppend(rows, o, Authority(), k);
    TotalAppend(Having(rows, Authority(), k), o, Usd());
    assert Having(rows, Authority(), k) + [] == Having(rows, Authority(), k);
    assert o in rows + [o] && Authority()(o) == o.authority;
    if KeyUsed(rows, Authority(), k) {
      var q :| q in rows && Authority()(q) == k;
      assert q in rows + [o];
    }
  }

  lemma RankedKeys(keys: seq<string>, totals: map<string, int>)
    requires Orders.Distinct(keys)
    ensures
      var ranked := Orders.SortBy(Ranking(totals), keys);
      && Orders.Distinct(ranked) && (forall k :: k in ranked <==> k in keys)
      && forall i, j | 0 <= i < j < |ranked| :: RanksBefore(totals, ranked[i], ranked[j])
  {
    var ranked := Orders.SortBy(Ranking(totals), keys);
    RankingIsOrder(totals);
    Orders.SortBySorted(Ranking(totals), keys);
    Orders.SortByMultiset(Ranking(totals), keys);
    Orders.SameElements(keys, ranked);
    Orders.DistinctForgetsOrder(keys, ranked);
    forall i, j | 0 <= i < j < |ranked| ensures RanksBefore(totals, ranked[i], ranked[j]) {
      assert Ranking(totals)(ranked[i], ranked[j]);
    }
  }

  /** The `by_authority` figures, largest first and ties by name. */
  method ByAuthority(rows: seq<Obligation>) returns (figures: seq<Figure>)
    ensures Grouped(figures, rows, Authority())
    ensures forall i, j | 0 <= i < j < |figures| ::
              figures[i].value > figures[j].value
              || (figures[i].value == figures[j].value && Orders.Leq(figures[i].key, figures[j].key))
  {
    hide Orders.SortBy, Orders.Leq, Total, Having, KeyUsed, Grouped, Money, Dollars;
    var keys, totals := AddUp(rows);
    var ranked := Orders.SortBy(Ranking(totals), keys);
    RankedKeys(keys, totals);
    figures := [];
    for i := 0 to |ranked|
      invariant |figures| == i
      invariant forall k | 0 <= k < i ::
                  && figures[k].key == ranked[k] && figures[k].value == Held(totals, ranked[k])
                  && FigureOf(figures[k], rows, Authority())
    {
      var k := ranked[i];
      MoneyOfDollars(Held(totals, k));
      figures := figures + [Figure(k, Money(Dollars(Held(totals, k))), Ids(Having(rows, Authority(), k)))];
    }
    GroupedByKeys(figures, ranked, rows, Authority());
    assert forall i, j | 0 <= i < j < |figures| :: RanksBefore(totals, ranked[i], ranked[j]);
  }

  // ---- conservation ----------------------------------------------------------------------

  function Sum(figures: seq<Figure>): int {
    if figures == [] then 0 else figures[0].value + Sum(figures[1..])
  }

  function KeysIn(figures: seq<Figure>): (ks: seq<string>)
    ensures |ks| == |figures| && forall i | 0 <= i < |ks| :: ks[i] == figures[i].key
  {
    seq(|figures|, i requires 0 <= i < |figures| => figures[i].key)
  }

  lemma {:induction false} SumIsGroupTotals(figures: seq<Figure>, rows: seq<Obligation>, key: Obligation -> string)
    requires forall i | 0 <= i < |figures| :: FigureOf(figures[i], rows, key)
    ensures Sum(figures) == GroupTotals(KeysIn(figures), rows, key, Usd())
  {
    if figures == [] {
    } else {
      assert FigureOf(figures[0], rows, key);
      SumIsGroupTotals(figures[1..], rows, key);
      assert KeysIn(figures)[1..] == KeysIn(figures[1..]);
    }
  }

  lemma GroupedConserves(figures: seq<Figure>, rows: seq<Obligation>, key: Obligation -> string)
    requires Grouped(figures, rows, key)
    ensures Sum(figures) == Total(rows, Usd())
  {
    SumIsGroupTotals(figures, rows, key);
    forall o | o in rows ensures key(o) in KeysIn(figures) {
      assert KeyUsed(rows, key, key(o)) && HasFigure(figures, key(o));
      var i :| 0 <= i < |figures| && figures[i].key == key(o);
      assert KeysIn(figures)[i] == key(o);
    }
    RegroupingConserves(KeysIn(figures), rows, key, Usd());
  }

  /** The trend points, the per-authority figures and the total-tax figure all tell the same sum, and it
      is within half a cent per euro row of the unrounded conversion. */
  lemma ThreeWaysOneTotal(specs: seq<Spec>, rows: seq<Obligation>, points: seq<Figure>, figures: seq<Figure>)
    requires IsRowsOf(rows, specs) && forall s | s in specs :: s.currency == "EUR" || WholeCents(s.amount)
    requires Grouped(points, rows, Month()) && Grouped(figures, rows, Authority())
    ensures Sum(points) == Sum(figures) == Total(rows, Usd()) == Money(Dollars(Total(rows, Usd())))
    ensures 100.0 * ExactTotal(specs) - 0.5 * EuroRows(specs) as real <= Sum(points) as real
    ensures Sum(points) as real <= 100.0 * ExactTotal(specs) + 0.5 * EuroRows(specs) as real
  {
    hide Grouped, IsRow, Money, Dollars;
    GroupedConserves(points, rows, Month());
    GroupedConserves(figures, rows, Authority());
    MoneyOfDollars(Total(rows, Usd()));
    TotalIsNear(specs, rows, 1);
  }

  /** Row numbers run upwards. */
  predicate Numbered(rows: seq<Obligation>) {
    forall i, j | 0 <= i < j < |rows| :: rows[i].id < rows[j].id
  }

  lemma RowsAreNumbered(rows: seq<Obligation>, specs: seq<Spec>)
    requires IsRowsOf(rows, specs)
    ensures Numbered(rows)
  {
    hide Cents;
    forall i, j | 0 <= i < j < |rows| ensures rows[i].id < rows[j].id {
      assert IsRow(rows[i], specs[i], i + 1) && IsRow(rows[j], specs[j], j + 1);
    }
  }

  lemma {:induction false} HavingIs(rows: seq<Obligation>, key: Obligation -> string, k: string, o: Obligation)
    ensures o in Having(rows, key, k) <==> o in rows && key(o) == k
  {
    if rows != [] {
      assert rows == [rows[0]] + rows[1..];
      HavingIs(rows[1..], key, k, o);
    }
  }

  lemma {:induction false} HavingNumbered(rows: seq<Obligation>, key: Obligation -> string, k: string)
    requires Numbered(rows)
    ensures Numbered(Having(rows, key, k))
  {
    if rows != [] {
      var rest := Having(rows[1..], key, k);
      HavingNumbered(rows[1..], key, k);
      forall i | 0 <= i < |rest| ensures rows[0].id < rest[i].id {
        HavingIs(rows[1..], key, k, rest[i]);
        var j :| 0 <= j < |rows[1..]| && rows[1..][j] == rest[i];
        assert rows[1..][j] == rows[j + 1];
      }
      NumberedFrom(rows[0], rest);
      assert [] + rest == rest;
    }
  }

  lemma NumberedFrom(o: Obligation, rest: seq<Obligation>)
    requires Numbered(rest) && forall i | 0 <= i < |rest| :: o.id < rest[i].id
    ensures Numbered([o] + rest)
  {
  }

  /** The ids are those of the rows that satisfy `p`, lowest first. */
  ghost predicate IdsOf(ids: seq<nat>, rows: seq<Obligation>, p: Obligation -> bool) {
    && (forall i, j | 0 <= i < j < |ids| :: ids[i] < ids[j])
    && (forall x: nat :: x in ids <==> exists o | o in rows :: o.id == x && p(o))
  }

  lemma IdsRise(rows: seq<Obligation>)
    requires Numbered(rows)
    ensures forall i, j | 0 <= i < j < |rows| :: Ids(rows)[i] < Ids(rows)[j]
  {
  }

  lemma HavingIds(rows: seq<Obligation>, key: Obligation -> string, k: string, p: Obligation -> bool)
    requires Numbered(rows) && forall o | o in rows :: p(o) <==> key(o) == k
    ensures IdsOf(Ids(Having(rows, key, k)), rows, p)
  {
    hide Having, Numbered;
    HavingNumbered(rows, key, k);
    forall o ensures o in Having(rows, key, k) <==> o in rows && key(o) == k {
      HavingIs(rows, key, k, o);
    }
    IdsRise(Having(rows, key, k));
    var ids := Ids(Having(rows, key, k));
    forall x: nat ensures x in ids <==> exists o | o in rows :: o.id == x && p(o) {
      if x in ids {
        var i :| 0 <= i < |ids| && ids[i] == x;
        assert Having(rows, key, k)[i] in Having(rows, key, k);
      }
      if o :| o in rows && o.id == x && p(o) {
        var i :| 0 <= i < |ids| && Having(rows, key, k)[i] == o;
        assert ids[i] == x;
      }
    }
  }

  /** A figure lists the ids of its month's or its authority's rows, in order. */
  lemma FigureLists(f: Figure, rows: seq<Obligation>)
    requires Numbered(rows)
    ensures FigureOf(f, rows, Month()) ==> IdsOf(f.ids, rows, (o: Obligation) => o.month == f.key)
    ensures FigureOf(f, rows, Authority()) ==> IdsOf(f.ids, rows, (o: Obligation) => o.authority == f.key)
  {
    hide IdsOf, Numbered;
    HavingIds(rows, Month(), f.key, (o: Obligation) => o.month == f.key);
    HavingIds(rows, Authority(), f.key, (o: Obligation) => o.authority == f.key);
  }

  // ---- the filing pipeline -----------------------------------------------------------------

  const FILED: set<string> := {"FILED", "ACCEPTED", "PAYMENT_DUE", "PAID", "CLOSED"}
  const REVIEW: set<string> := {"IN_REVIEW", "APPROVED"}

  const LABELS: seq<string> := ["Filed & Acknowledged", "Under Legal Review", "Draft Prepared", "Overdue / At Risk"]

  /** `_bucket_of`: a filed obligation is never overdue, and an overdue one is under no review. */
  function BucketOf(o: Obligation, asOf: int): string {
    if o.status in FILED then LABELS[0]
    else if o.due < asOf then LABELS[3]
    else if o.status in REVIEW then LABELS[1]
    else LABELS[2]
  }

  function InBucket(asOf: int): Obligation -> string { (o: Obligation) => BucketOf(o, asOf) }

  datatype Bucket = Bucket(title: string, count: nat, total: nat, tenths: int, ids: seq<nat>)

  lemma LabelsDiffer()
    ensures Orders.Distinct(LABELS)
  {
    assert LABELS[0][0] == 'F' && LABELS[1][0] == 'U' && LABELS[2][0] == 'D' && LABELS[3][0] == 'O';
  }

  /** `_generate_filing_pipeline`; with no obligations `_percent` divides by zero and it raises. */
  method FilingPipeline(rows: seq<Obligation>, asOf: int) returns (raised: bool, buckets: seq<Bucket>)
    ensures raised <==> rows == []
    ensures !raised ==> IsPipeline(buckets, rows, asOf)
  {
    hide LABELS, BucketOf, Having, Apportionment.Tenths;
    var members: map<string, seq<nat>> := map l | l in LABELS :: [];
    forall l {
      EmptyBucket(asOf, l);
    }
    for i := 0 to |rows|
      invariant members.Keys == (set l | l in LABELS)
      invariant forall l | l in LABELS :: members[l] == Ids(Having(rows[..i], InBucket(asOf), l))
    {
      var o := rows[i];
      var b := BucketOf(o, asOf);
      assert rows[..i + 1] == rows[..i] + [o];
      forall l | l in LABELS {
        BucketGrows(rows[..i], o, asOf, l);
      }
      BucketIsLabelled(o, asOf);
      members := members[b := members[b] + [o.id]];
    }
    assert rows[..|rows|] == rows;
    buckets := [];
    if rows == [] {
      return true, [];
    }
    for i := 0 to |LABELS|
      invariant |buckets| == i && forall k | 0 <= k < i :: IsBucket(buckets[k], LABELS[k], rows, asOf)
    {
      var ids := members[LABELS[i]];
      buckets := buckets + [Bucket(LABELS[i], |ids|, |rows|, Apportionment.Tenths(|ids|, |rows|), ids)];
    }
    return false, buckets;
  }

  lemma EmptyBucket(asOf: int, l: string)
    ensures Ids(Having([], InBucket(asOf), l)) == []
  {
  }

  lemma BucketGrows(rows: seq<Obligation>, o: Obligation, asOf: int, l: string)
    ensures Ids(Having(rows + [o], InBucket(asOf), l))
         == Ids(Having(rows, InBucket(asOf), l)) + (if BucketOf(o, asOf) == l then [o.id] else [])
  {
    HavingAppend(rows, o, InBucket(asOf), l);
  }

  lemma BucketIsLabelled(o: Obligation, asOf: int)
    ensures BucketOf(o, asOf) in LABELS
  {
    assert LABELS[0] in LABELS && LABELS[1] in LABELS && LABELS[2] in LABELS && LABELS[3] in LABELS;
  }

  ghost predicate IsBucket(b: Bucket, title: string, rows: seq<Obligation>, asOf: int)
    requires rows != []
  {
    && b.title == title && b.ids == Ids(Having(rows, InBucket(asOf), title))
    && b.count == |b.ids| && b.total == |rows| && b.tenths == Apportionment.Tenths(b.count, b.total)
  }

  ghost predicate IsPipeline(buckets: seq<Bucket>, rows: seq<Obligation>, asOf: int) {
    && rows != [] && |buckets| == |LABELS|
    && forall k | 0 <= k < |LABELS| :: IsBucket(buckets[k], LABELS[k], rows, asOf)
  }

  /** The return has been filed, whatever came of it since. */
  predicate IsFiled(o: Obligation) {
    o.status == "FILED" || o.status == "ACCEPTED" || o.status == "PAYMENT_DUE" || o.status == "PAID" || o.status == "CLOSED"
  }

  function Filed(): Obligation -> bool { (o: Obligation) => IsFiled(o) }

  function Late(asOf: int): Obligation -> bool { (o: Obligation) => !IsFiled(o) && o.due < asOf }

  function Reviewed(asOf: int): Obligation -> bool {
    (o: Obligation) => !IsFiled(o) && o.due >= asOf && (o.status == "IN_REVIEW" || o.status == "APPROVED")
  }

  function Drafted(asOf: int): Obligation -> bool {
    (o: Obligation) => !IsFiled(o) && o.due >= asOf && o.status != "IN_REVIEW" && o.status != "APPROVED"
  }

  /** The four buckets in order: what was filed is never late, what is late is under no review, and the rest is
      a draft. Each shows its ids, how many they are, and the nearest tenth of a percent. */
  lemma PipelineLists(buckets: seq<Bucket>, rows: seq<Obligation>, asOf: int)
    requires IsPipeline(buckets, rows, asOf) && Numbered(rows)
    ensures |buckets| == 4
    ensures buckets[0].title == "Filed & Acknowledged" && IdsOf(buckets[0].ids, rows, Filed())
    ensures buckets[1].title == "Under Legal Review" && IdsOf(buckets[1].ids, rows, Reviewed(asOf))
    ensures buckets[2].title == "Draft Prepared" && IdsOf(buckets[2].ids, rows, Drafted(asOf))
    ensures buckets[3].title == "Overdue / At Risk" && IdsOf(buckets[3].ids, rows, Late(asOf))
    ensures forall k | 0 <= k < 4 ::
              && buckets[k].count == |buckets[k].ids| && buckets[k].total == |rows|
              && NearestTenth(buckets[k].tenths, buckets[k].count, buckets[k].total)
  {
    hide Numbered, IdsOf, BucketOf, InBucket, Having, Filed, Reviewed, Drafted, Late, Apportionment.Tenths, NearestTenth;
    forall k | 0 <= k < 4 ensures IsBucket(buckets[k], LABELS[k], rows, asOf) {
    }
    forall k | 0 <= k < 4 ensures NearestTenth(buckets[k].tenths, buckets[k].count, |rows|) {
      TenthsAreNearest(buckets[k].count, |rows|);
    }
    forall o {
      BucketMeans(o, asOf);
    }
    HavingIds(rows, InBucket(asOf), LABELS[0], Filed());
    HavingIds(rows, InBucket(asOf), LABELS[1], Reviewed(asOf));
    HavingIds(rows, InBucket(asOf), LABELS[2], Drafted(asOf));
    HavingIds(rows, InBucket(asOf), LABELS[3], Late(asOf));
  }

  lemma BucketMeans(o: Obligation, asOf: int)
    ensures InBucket(asOf)(o) == LABELS[0] <==> Filed()(o)
    ensures InBucket(asOf)(o) == LABELS[1] <==> Reviewed(asOf)(o)
    ensures InBucket(asOf)(o) == LABELS[2] <==> Drafted(asOf)(o)
    ensures InBucket(asOf)(o) == LABELS[3] <==> Late(asOf)(o)
  {
    LabelsDiffer();
  }

  /** `tenths` is the nearest tenth of a percent, a tie going up. */
  predicate NearestTenth(tenths: int, part: int, total: int) {
    2000 * part - total < 2 * (tenths * total) <= 2000 * part + total
  }

  lemma TenthsAreNearest(part: nat, total: nat)
    requires total > 0
    ensures NearestTenth(Apportionment.Tenths(part, total), part, total)
  {
    hide Apportionment.HalfUp, Apportionment.Share;
    var x, n := Apportionment.Share(part, total), Apportionment.Tenths(part, total);
    ShareTimes(part, total);
    Apportionment.HalfUpIsNearest(x);
    if n as real == x - 0.5 {
      HalfAbove(x, n);
    }
    Widen(n as real, x, total as real, 1000.0 * part as real);
    RealProduct(n, total);
    Doubled(n * total, part, total);
  }

  lemma RealProduct(n: int, t: int)
    ensures n as real * t as real == (n * t) as real
  {
  }

  lemma Doubled(w: int, part: int, total: int)
    requires 1000.0 * part as real - 0.5 * total as real < w as real <= 1000.0 * part as real + 0.5 * total as real
    ensures 2000 * part - total < 2 * w <= 2000 * part + total
  {
  }

  lemma ShareTimes(part: nat, total: nat)
    requires total > 0
    ensures Apportionment.Share(part, total) >= 0.0
    ensures Apportionment.Share(part, total) * total as real == 1000.0 * part as real
  {
    var q := part as real / total as real;
    assert q * total as real == part as real;
    NotNegative(q, total as real);
    Regroup(q, total as real);
  }

  lemma NotNegative(q: real, t: real)
    requires t > 0.0 && q * t >= 0.0
    ensures q >= 0.0
  {
  }

  lemma Regroup(q: real, t: real)
    ensures (q * 1000.0) * t == 1000.0 * (q * t)
  {
  }

  lemma Widen(n: real, x: real, t: real, p: real)
    requires t > 0.0 && x - 0.5 < n <= x + 0.5 && x * t == p
    ensures p - 0.5 * t < n * t <= p + 0.5 * t
  {
    HalfApart(x, n, t, p, n * t);
    HalfApart(n, x, t, n * t, p);
  }

  /** Numbers at most half a unit apart stay at most half of `t` apart when multiplied by it. */
  lemma HalfApart(a: real, b: real, t: real, at: real, bt: real)
    requires t > 0.0 && at == a * t && bt == b * t
    ensures a - 0.5 < b ==> at - 0.5 * t < bt
    ensures a - 0.5 <= b ==> at - 0.5 * t <= bt
  {
    var d := b - a + 0.5;
    Scaled(d, t);
    Expanded(a, b, t);
    assert d * t == bt - at + 0.5 * t;
  }

  lemma Expanded(a: real, b: real, t: real)
    ensures (b - a + 0.5) * t == b * t - a * t + 0.5 * t
  {
  }

  lemma Scaled(d: real, t: real)
    requires t > 0.0
    ensures d > 0.0 ==> d * t > 0.0
    ensures d >= 0.0 ==> d * t >= 0.0
  {
  }

  function Counts(buckets: seq<Bucket>): (cs: seq<nat>)
    ensures |cs| == |buckets| && forall i | 0 <= i < |cs| :: cs[i] == buckets[i].count
  {
    seq(|buckets|, i requires 0 <= i < |buckets| => buckets[i].count)
  }

  function IdIs(x: nat): Obligation -> int { (o: Obligation) => if o.id == x then 1 else 0 }

  function One(): Obligation -> int { (o: Obligation) => 1 }

  lemma {:induction false} TotalOne(rows: seq<Obligation>)
    ensures Total(rows, One()) == |rows|
  {
    if rows == [] {
    } else {
      TotalOne(rows[1..]);
    }
  }

  /** How often the buckets list an id. */
  function Listed(buckets: seq<Bucket>, x: nat): int {
    if buckets == [] then 0 else multiset(buckets[0].ids)[x] + Listed(buckets[1..], x)
  }

  lemma {:induction false} TotalIdIs(rows: seq<Obligation>, x: nat)
    ensures Total(rows, IdIs(x)) == multiset(Ids(rows))[x]
  {
    if rows == [] {
    } else {
      TotalIdIs(rows[1..], x);
      assert Ids(rows) == [rows[0].id] + Ids(rows[1..]);
    }
  }

  lemma {:induction false} ListedIsGroupTotals(buckets: seq<Bucket>, labels: seq<string>, rows: seq<Obligation>, asOf: int, x: nat)
    requires rows != [] && |buckets| == |labels|
    requires forall k | 0 <= k < |labels| :: IsBucket(buckets[k], labels[k], rows, asOf)
    ensures Listed(buckets, x) == GroupTotals(labels, rows, InBucket(asOf), IdIs(x))
  {
    if labels == [] {
    } else {
      assert IsBucket(buckets[0], labels[0], rows, asOf);
      TotalIdIs(Having(rows, InBucket(asOf), labels[0]), x);
      ListedIsGroupTotals(buckets[1..], labels[1..], rows, asOf, x);
    }
  }

  lemma {:induction false} CountsAreGroupTotals(buckets: seq<Bucket>, labels: seq<string>, rows: seq<Obligation>, asOf: int, k: nat)
    requires rows != [] && k <= |buckets| == |labels|
    requires forall i | 0 <= i < |labels| :: IsBucket(buckets[i], labels[i], rows, asOf)
    ensures Apportionment.Prefix(Counts(buckets), k) + GroupTotals(labels[k..], rows, InBucket(asOf), One())
         == GroupTotals(labels, rows, InBucket(asOf), One())
  {
    if k == 0 {
      assert labels[0..] == labels;
    } else {
      CountsAreGroupTotals(buckets, labels, rows, asOf, k - 1);
      assert IsBucket(buckets[k - 1], labels[k - 1], rows, asOf);
      TotalOne(Having(rows, InBucket(asOf), labels[k - 1]));
      assert labels[k - 1..][0] == labels[k - 1] && labels[k - 1..][1..] == labels[k..];
    }
  }

  /** The buckets partition the obligations: every id is listed in the buckets as often as in the rows. */
  lemma PipelinePartitions(buckets: seq<Bucket>, rows: seq<Obligation>, asOf: int)
    requires IsPipeline(buckets, rows, asOf)
    ensures Apportionment.Prefix(Counts(buckets), |buckets|) == |rows|
    ensures forall x: nat :: Listed(buckets, x) == multiset(Ids(rows))[x]
  {
    hide IsBucket, LABELS;
    forall o | o in rows ensures InBucket(asOf)(o) in LABELS {
      BucketIsLabelled(o, asOf);
    }
    LabelsDiffer();
    CountsAreGroupTotals(buckets, LABELS, rows, asOf, |buckets|);
    RegroupingConserves(LABELS, rows, InBucket(asOf), One());
    TotalOne(rows);
    assert LABELS[|buckets|..] == [];
    forall x: nat ensures Listed(buckets, x) == multiset(Ids(rows))[x] {
      ListedIsGroupTotals(buckets, LABELS, rows, asOf, x);
      RegroupingConserves(LABELS, rows, InBucket(asOf), IdIs(x));
      TotalIdIs(rows, x);
    }
  }

  /** What the pipeline chart draws tiles its bar exactly, while the printed percentages may miss 100.0
      by up to 0.2. */
  lemma PipelineChart(buckets: seq<Bucket>, rows: seq<Obligation>, asOf: int, segments: seq<Apportionment.Segment>)
    requires IsPipeline(buckets, rows, asOf)
    requires Apportionment.CutAtEdges(segments, Counts(buckets), |rows|)
    ensures Apportionment.Tiles(segments, Counts(buckets), |rows|) && Apportionment.Widths(segments) == 1000
    ensures 998 <= buckets[0].tenths + buckets[1].tenths + buckets[2].tenths + buckets[3].tenths <= 1002
  {
    hide Apportionment.CutAtEdges, Apportionment.Tiles, Apportionment.Prefix, Apportionment.Tenths;
    PipelinePartitions(buckets, rows, asOf);
    var counts := Counts(buckets);
    Apportionment.SegmentsTile(segments, counts, |rows|);
    Apportionment.PercentsAddUp(counts, |rows|);
    assert forall k | 0 <= k < 4 :: IsBucket(buckets[k], LABELS[k], rows, asOf);
    FourTenths(counts, |rows|);
  }

  lemma FourTenths(counts: seq<nat>, total: nat)
    requires |counts| == 4 && total > 0
    ensures Apportionment.TenthsUpTo(counts, total, 4)
         == Apportionment.Tenths(counts[0], total) + Apportionment.Tenths(counts[1], total)
          + Apportionment.Tenths(counts[2], total) + Apportionment.Tenths(counts[3], total)
  {
    hide Apportionment.Tenths;
    assert Apportionment.TenthsUpTo(counts, total, 1) == Apportionment.Tenths(counts[0], total);
    assert Apportionment.TenthsUpTo(counts, total, 3)
        == Apportionment.TenthsUpTo(counts, total, 2) + Apportionment.Tenths(counts[2], total);
  }
}
