/** Rounding half up, and the per-mille shares behind the report's three charts. */
module Apportionment {

  // ---- rounding -------------------------------------------------------------------

  /** `quantize(..., rounding=ROUND_HALF_UP)` in units of the quantum: a tie goes away from zero. */
  function HalfUp(x: real): int {
    if x >= 0.0 then (x + 0.5).Floor else -((0.5 - x).Floor)
  }

  /** The rounding error is at most half a unit, ties leave zero behind, and whole numbers stay. */
  lemma HalfUpIsNearest(x: real)
    ensures x - 0.5 <= HalfUp(x) as real <= x + 0.5
    ensures x == x.Floor as real + 0.5 ==> HalfUp(x) == if x > 0.0 then x.Floor + 1 else x.Floor
    ensures x == x.Floor as real ==> HalfUp(x) == x.Floor
  {
    if x < 0.0 {
      var f := (0.5 - x).Floor;
      assert f as real <= 0.5 - x < f as real + 1.0;
      if x == x.Floor as real {
        assert (-x.Floor) as real == -x;
      }
    }
  }

  // ---- cumulative-edge segments -----------------------------------------------------

  datatype Segment = Segment(start: int, width: int)

  /** The first `i` counts, added up. */
  function Prefix(counts: seq<nat>, i: nat): nat
    requires i <= |counts|
  {
    if i == 0 then 0 else Prefix(counts, i - 1) + counts[i - 1]
  }

  /** `int(part * 1000 / total)`. */
  function Permille(part: nat, total: nat): nat
    requires total > 0
  {
    part * 1000 / total
  }

  /** Where the `i`-th segment begins. */
  function Edge(counts: seq<nat>, total: nat, i: nat): nat
    requires i <= |counts|
  {
    if total == 0 then 0 else Permille(Prefix(counts, i), total)
  }

  /** `w` is less than one per mille of `total` away from `part`'s exact share. */
  predicate Near(w: int, part: int, total: nat) {
    1000 * part - total < w * total < 1000 * part + total
  }

  /** The segments run from each edge to the next. */
  ghost predicate CutAtEdges(segments: seq<Segment>, counts: seq<nat>, total: nat) {
    && |segments| == |counts|
    && forall i {:trigger segments[i]} | 0 <= i < |counts| ::
         segments[i] == Segment(Edge(counts, total, i), Edge(counts, total, i + 1) - Edge(counts, total, i))
  }

  /** The pipeline loop of `_generate_chart_geometry`. */
  method PipelineSegments(counts: seq<nat>, total: nat) returns (segments: seq<Segment>)
    ensures CutAtEdges(segments, counts, total)
  {
    segments := [];
    var previousEdge, cumulative := 0, 0;
    for k := 0 to |counts|
      invariant |segments| == k && cumulative == Prefix(counts, k) && previousEdge == Edge(counts, total, k)
      invariant forall i {:trigger segments[i]} | 0 <= i < k ::
                  segments[i] == Segment(Edge(counts, total, i), Edge(counts, total, i + 1) - Edge(counts, total, i))
    {
      cumulative := cumulative + counts[k];
      var edge := if total <= 0 then 0 else Permille(cumulative, total);
      segments := segments + [Segment(previousEdge, edge - previousEdge)];
      previousEdge := edge;
    }
  }

  function Widths(segments: seq<Segment>): int {
    if segments == [] then 0 else Widths(segments[..|segments| - 1]) + segments[|segments| - 1].width
  }

  /** `w` is the whole number of per mille that `part`'s exact share reaches. */
  predicate Reaches(w: int, part: int, total: nat) {
    w * total <= 1000 * part < w * total + total
  }

  /** Side by side from zero, each starting at what the counts before it reach, no width negative, and each
      width less than one per mille from its exact share. */
  ghost predicate Tiles(segments: seq<Segment>, counts: seq<nat>, total: nat) {
    && |segments| == |counts|
    && (segments != [] ==> segments[0].start == 0)
    && (forall i | 0 < i < |segments| :: segments[i].start == segments[i - 1].start + segments[i - 1].width)
    && (forall i | 0 <= i < |segments| :: Reaches(segments[i].start, Prefix(counts, i), total))
    && (forall i | 0 <= i < |segments| :: segments[i].width >= 0)
    && (forall i | 0 <= i < |segments| :: Near(segments[i].width, counts[i], total))
  }

  lemma DivideBounds(a: nat, t: nat)
    requires t > 0
    ensures t * (a / t) <= a < t * (a / t) + t
  {
  }

  lemma DivideGrows(a: nat, b: nat, t: nat)
    requires t > 0 && a <= b
    ensures a / t <= b / t
  {
    DivideBounds(a, t);
    DivideBounds(b, t);
    if b / t + 1 <= a / t {
      Scale(t, b / t + 1, a / t);
      assert false;
    }
  }

  lemma Scale(t: nat, x: nat, y: nat)
    requires x <= y
    ensures t * x <= t * y
  {
  }

  lemma PermilleBounds(a: nat, t: nat)
    requires t > 0
    ensures t * Permille(a, t) <= 1000 * a < t * Permille(a, t) + t
  {
    DivideBounds(a * 1000, t);
  }

  lemma PermilleReaches(a: nat, t: nat)
    requires t > 0
    ensures Reaches(Permille(a, t), a, t)
  {
    hide Permille;
    PermilleBounds(a, t);
    Commuted(Permille(a, t), t);
  }

  lemma Commuted(x: int, y: int)
    ensures x * y == y * x
  {
  }

  lemma PermilleGrows(a: nat, b: nat, t: nat)
    requires t > 0 && a <= b
    ensures Permille(a, t) <= Permille(b, t)
  {
    DivideGrows(a * 1000, b * 1000, t);
  }

  lemma PermilleWhole(t: nat)
    requires t > 0
    ensures Permille(t, t) == 1000
  {
    WholeTimes(1000, t);
  }

  lemma WholeTimes(k: nat, t: nat)
    requires t > 0
    ensures t * k / t == k
  {
    var q, r := t * k / t, t * k % t;
    assert t * k == t * q + r;
    OnlyQuotient(t, k, q, r);
  }

  lemma OnlyQuotient(t: nat, k: nat, q: nat, r: nat)
    requires r < t && t * k == t * q + r
    ensures q == k
  {
    Minus(k, q, t);
    NoMultipleBetween(t, k - q, r);
  }

  /** Only zero times `t` lies from 0 to below `t`. */
  lemma NoMultipleBetween(t: nat, d: int, r: nat)
    requires r < t && d * t == r
    ensures d == 0
  {
    WholeStep(t, d);
  }

  lemma WholeStep(t: int, d: int)
    requires t >= 0
    ensures d >= 1 ==> d * t >= t
    ensures d <= -1 ==> d * t <= -t
  {
    assert d * t == t + (d - 1) * t == (d + 1) * t - t;
    assert d >= 1 ==> (d - 1) * t >= 0;
    assert d <= -1 ==> (d + 1) * t <= 0;
  }

  lemma StepIsNear(p: nat, c: nat, t: nat)
    requires t > 0
    ensures Permille(p, t) <= Permille(p + c, t)
    ensures Near(Permille(p + c, t) - Permille(p, t), c, t)
  {
    hide Permille;
    PermilleBounds(p, t);
    PermilleBounds(p + c, t);
    PermilleGrows(p, p + c, t);
    Minus(Permille(p + c, t), Permille(p, t), t);
  }

  lemma Minus(x: int, y: int, t: int)
    ensures (x - y) * t == t * x - t * y
  {
  }

  lemma {:induction false} WidthsTelescope(segments: seq<Segment>, counts: seq<nat>, total: nat, k: nat)
    requires k <= |segments| && CutAtEdges(segments, counts, total)
    ensures Widths(segments[..k]) == Edge(counts, total, k)
  {
    if k == 0 {
    } else {
      WidthsTelescope(segments, counts, total, k - 1);
      assert segments[..k][..k - 1] == segments[..k - 1];
    }
  }

  /** When the counts add up to a positive total the segments tile 0 to 1000 exactly. */
  lemma SegmentsTile(segments: seq<Segment>, counts: seq<nat>, total: nat)
    requires CutAtEdges(segments, counts, total) && total == Prefix(counts, |counts|) > 0
    ensures Tiles(segments, counts, total)
    ensures Widths(segments) == 1000
  {
    hide Permille, Near, Reaches, Widths;
    forall i | 0 <= i < |segments| ensures segments[i].width >= 0 && Near(segments[i].width, counts[i], total) {
      StepIsNear(Prefix(counts, i), counts[i], total);
      assert Prefix(counts, i + 1) == Prefix(counts, i) + counts[i];
      assert segments[i].width == Permille(Prefix(counts, i + 1), total) - Permille(Prefix(counts, i), total);
    }
    forall i | 0 <= i < |segments| ensures Reaches(segments[i].start, Prefix(counts, i), total) {
      PermilleReaches(Prefix(counts, i), total);
    }
    forall i | 0 < i < |segments| ensures segments[i].start == segments[i - 1].start + segments[i - 1].width {
      assert segments[i - 1].start == Edge(counts, total, i - 1);
    }
    assert segments != [] ==> segments[0].start == Edge(counts, total, 0);
    assert segments[..|segments|] == segments;
    WidthsTelescope(segments, counts, total, |segments|);
    PermilleWhole(total);
    StartsAtZero(total);
  }

  lemma StartsAtZero(t: nat)
    requires t > 0
    ensures Permille(0, t) == 0
  {
    assert 0 / t == 0;
  }

  /** Cutting each share down by itself would lose some of the bar: three equal counts make 999. */
  lemma SeparateSharesFallShort()
    ensures
      var counts := [1, 1, 1];
      Prefix(counts, 3) == 3 && Permille(counts[0], 3) + Permille(counts[1], 3) + Permille(counts[2], 3) == 999
  {
    var counts := [1, 1, 1];
    assert Prefix(counts, 1) == 1 && Prefix(counts, 2) == 2;
  }

  // ---- percentages --------------------------------------------------------------------

  function Share(part: nat, total: nat): real
    requires total > 0
  {
    part as real / total as real * 1000.0
  }

  lemma Factor(a: real, b: real, z: real)
    requires z > 0.0 && a * z == b * z
    ensures a == b
  {
    assert (a - b) * z == 0.0;
  }

  lemma Quotients(x: real, y: real, z: real)
    requires z > 0.0
    ensures (x + y) / z == x / z + y / z
  {
    var p, q, r := x / z, y / z, (x + y) / z;
    assert p * z == x && q * z == y && r * z == x + y;
    Factor(p + q, r, z);
  }

  lemma SharesAdd(p: nat, c: nat, t: nat)
    requires t > 0
    ensures Share(p + c, t) == Share(p, t) + Share(c, t)
  {
    var x, y, z := p as real, c as real, t as real;
    assert (p + c) as real == x + y;
    Quotients(x, y, z);
  }

  lemma WholeShare(t: nat)
    requires t > 0
    ensures Share(t, t) == 1000.0 && Share(0, t) == 0.0
  {
    var z := t as real;
    var p, q := z / z, 0.0 / z;
    assert p * z == z && q * z == 0.0;
    Factor(p, 1.0, z);
    Factor(q, 0.0, z);
  }

  /** `_percent`, in tenths of a percent; dividing by zero raises. */
  function Tenths(part: nat, total: nat): int
    requires total > 0
  {
    HalfUp(Share(part, total))
  }

  function TenthsUpTo(counts: seq<nat>, total: nat, i: nat): int
    requires total > 0 && i <= |counts|
  {
    if i == 0 then 0 else TenthsUpTo(counts, total, i - 1) + Tenths(counts[i - 1], total)
  }

  lemma {:induction false} TenthsNear(counts: seq<nat>, total: nat, i: nat)
    requires total > 0 && i <= |counts|
    ensures
      var exact := Share(Prefix(counts, i), total);
      exact - 0.5 * i as real <= TenthsUpTo(counts, total, i) as real <= exact + 0.5 * i as real
  {
    hide Share, HalfUp;
    if i == 0 {
      WholeShare(total);
    } else {
      TenthsNear(counts, total, i - 1);
      HalfUpIsNearest(Share(counts[i - 1], total));
      SharesAdd(Prefix(counts, i - 1), counts[i - 1], total);
    }
  }

  /** `n` rounded percentages of a whole add up to 100 give or take 0.05·n. */
  lemma PercentsAddUp(counts: seq<nat>, total: nat)
    requires total == Prefix(counts, |counts|) > 0
    ensures 2000 - |counts| <= 2 * TenthsUpTo(counts, total, |counts|) <= 2000 + |counts|
  {
    hide Share, HalfUp;
    TenthsNear(counts, total, |counts|);
    WholeShare(total);
  }

  // ---- bars ---------------------------------------------------------------------------

  /** `max(values, default=0)`. */
  function Top(values: seq<int>): (top: int)
    ensures forall v | v in values :: v <= top
    ensures if values == [] then top == 0 else top in values
  {
    if values == [] then 0
    else if |values| == 1 then values[0]
    else
      var rest := Top(values[1..]);
      assert forall v | v in values :: v == values[0] || v in values[1..];
      if values[0] >= rest then values[0] else rest
  }

  /** `int(part / whole * 1000)`: towards zero. */
  function Truncated(part: int, whole: nat): int
    requires whole > 0
  {
    if part >= 0 then Permille(part, whole) else 0 - Permille(-part, whole)
  }

  /** The authority-bar and trend-point loops. */
  method Bars(values: seq<int>) returns (bars: seq<int>)
    ensures |bars| == |values|
    ensures forall i | 0 <= i < |bars| :: bars[i] == Bar(values, values[i])
  {
    var top := Top(values);
    bars := [];
    for k := 0 to |values|
      invariant |bars| == k && forall i | 0 <= i < k :: bars[i] == Bar(values, values[i])
    {
      bars := bars + [if top <= 0 then 0 else Truncated(values[k], top)];
    }
  }

  function Bar(values: seq<int>, v: int): int {
    if Top(values) <= 0 then 0 else Truncated(v, Top(values))
  }

  /** The tallest value reaches 1000 exactly, no value passes it or falls below zero unless negative,
      each bar is less than one per mille from its exact share, and the part of a per mille is dropped. */
  lemma BarsFit(values: seq<int>, v: int)
    requires v in values && Top(values) > 0
    ensures Bar(values, Top(values)) == 1000
    ensures Bar(values, v) <= 1000 && (v >= 0 ==> Bar(values, v) >= 0)
    ensures Near(Bar(values, v), v, Top(values))
    ensures if v >= 0 then Reaches(Bar(values, v), v, Top(values)) else Reaches(-Bar(values, v), -v, Top(values))
  {
    hide Permille, Reaches;
    PermilleReaches(if v >= 0 then v else -v, Top(values));
    PermilleWhole(Top(values));
    TruncatedIsNear(v, Top(values));
    BarsKeepOrder(values, v, Top(values));
  }

  lemma TruncatedIsNear(v: int, t: nat)
    requires t > 0
    ensures Near(Truncated(v, t), v, t)
  {
    hide Permille;
    var a := if v >= 0 then v else -v;
    PermilleBounds(a, t);
    if v >= 0 {
      Minus(Permille(a, t), 0, t);
    } else {
      Minus(0, Permille(a, t), t);
    }
  }

  /** A larger value never gets a shorter bar. */
  lemma BarsKeepOrder(values: seq<int>, v: int, w: int)
    requires v <= w
    ensures Bar(values, v) <= Bar(values, w)
  {
    hide Permille;
    if Top(values) > 0 {
      if 0 <= v {
        PermilleGrows(v, w, Top(values));
      } else if w < 0 {
        PermilleGrows(-w, -v, Top(values));
      }
    }
  }
}
