/** Do two hostname patterns share a hostname? `globs_intersect` and the Cilium egress check that
    rests on it. */
module Globs {

  // ---- what a pattern means ----------------------------------------------------

  /** The same character, ASCII case apart. */
  predicate SameLetter(a: char, b: char) {
    || a == b
    || ('A' <= a <= 'Z' && b as int == a as int + 32)
    || ('A' <= b <= 'Z' && a as int == b as int + 32)
  }

  /** `*` stands for any run of characters, dots included; dots at the end of the pattern for nothing; any
      other character for itself in either case. */
  ghost predicate Matches(pattern: string, host: string) {
    if forall i | 0 <= i < |pattern| :: pattern[i] == '.' then host == ""
    else if pattern[0] == '*' then exists k | 0 <= k <= |host| :: Matches(pattern[1..], host[k..])
    else host != "" && SameLetter(pattern[0], host[0]) && Matches(pattern[1..], host[1..])
  }

  /** The narrower reading: `*` stays inside one label. */
  ghost predicate MatchesInLabel(pattern: string, host: string) {
    if forall i | 0 <= i < |pattern| :: pattern[i] == '.' then host == ""
    else if pattern[0] == '*' then
      exists k | 0 <= k <= |host| && '.' !in host[..k] :: MatchesInLabel(pattern[1..], host[k..])
    else host != "" && SameLetter(pattern[0], host[0]) && MatchesInLabel(pattern[1..], host[1..])
  }

  /** Some hostname matches both patterns. */
  ghost predicate ShareHost(a: string, b: string) {
    exists host: string :: Matches(a, host) && Matches(b, host)
  }

  // ---- the form both patterns are compared in ----------------------------------------

  function LowerChar(c: char): char {
    if 'A' <= c <= 'Z' then (c as int + 32) as char else c
  }

  function Lower(s: string): (r: string)
    ensures |r| == |s| && forall i | 0 <= i < |r| :: r[i] == LowerChar(s[i])
  {
    seq(|s|, i requires 0 <= i < |s| => LowerChar(s[i]))
  }

  /** `s.rstrip(".")`. */
  function StripDots(s: string): string {
    if s != "" && s[|s| - 1] == '.' then StripDots(s[..|s| - 1]) else s
  }

  function Fold(pattern: string): string { StripDots(Lower(pattern)) }

  /** A folded pattern against a host, character by character. */
  ghost predicate Spans(folded: string, host: string) {
    if folded == "" then host == ""
    else if folded[0] == '*' then exists k | 0 <= k <= |host| :: Spans(folded[1..], host[k..])
    else host != "" && host[0] == folded[0] && Spans(folded[1..], host[1..])
  }

  lemma {:induction false} StripAll(s: string)
    requires forall i | 0 <= i < |s| :: s[i] == '.'
    ensures StripDots(s) == ""
  {
    if s == "" {
    } else {
      StripAll(s[..|s| - 1]);
    }
  }

  lemma {:induction false} StripCons(s: string, i: nat)
    requires i < |s| && s[i] != '.'
    ensures StripDots(s) == [s[0]] + StripDots(s[1..])
  {
    var n := |s| - 1;
    if s[n] != '.' {
      assert s == [s[0]] + s[1..];
    } else {
      StripCons(s[..n], i);
      assert s[1..][..n - 1] == s[..n][1..];
      assert s[1..][|s[1..]| - 1] == '.';
    }
  }

  lemma LowerTail(s: string, k: nat)
    requires k <= |s|
    ensures Lower(s)[k..] == Lower(s[k..])
  {
  }

  lemma LowerCharSame(a: char, b: char)
    ensures SameLetter(a, b) <==> LowerChar(a) == LowerChar(b)
    ensures (LowerChar(a) == '.' <==> a == '.') && (LowerChar(a) == '*' <==> a == '*')
  {
  }

  lemma FoldDots(pattern: string)
    requires forall i | 0 <= i < |pattern| :: pattern[i] == '.'
    ensures Fold(pattern) == ""
  {
    StripAll(Lower(pattern));
  }

  lemma FoldCons(pattern: string, i: nat)
    requires i < |pattern| && pattern[i] != '.'
    ensures Fold(pattern) == [LowerChar(pattern[0])] + Fold(pattern[1..])
  {
    LowerCharSame(pattern[i], pattern[i]);
    StripCons(Lower(pattern), i);
    LowerTail(pattern, 1);
  }

  /** Folding keeps the meaning. */
  lemma {:induction false} MatchesIsSpans(pattern: string, host: string)
    ensures Matches(pattern, host) <==> Spans(Fold(pattern), Lower(host))
  {
    if forall i | 0 <= i < |pattern| :: pattern[i] == '.' {
      FoldDots(pattern);
    } else {
      var i :| 0 <= i < |pattern| && pattern[i] != '.';
      FoldCons(pattern, i);
      var rest := pattern[1..];
      assert Fold(pattern)[1..] == Fold(rest);
      if pattern[0] == '*' {
        forall k | 0 <= k <= |host| ensures Matches(rest, host[k..]) <==> Spans(Fold(rest), Lower(host)[k..]) {
          MatchesIsSpans(rest, host[k..]);
          LowerTail(host, k);
        }
      } else {
        LowerCharSame(pattern[0], pattern[0]);
        if host != "" {
          LowerCharSame(pattern[0], host[0]);
          MatchesIsSpans(rest, host[1..]);
          LowerTail(host, 1);
        }
      }
    }
  }

  predicate NoUpper(s: string) { forall c | c in s :: LowerChar(c) == c }

  lemma {:induction false} StripKeeps(s: string)
    requires NoUpper(s)
    ensures NoUpper(StripDots(s)) && |StripDots(s)| <= |s|
  {
    if s == "" || s[|s| - 1] != '.' {
    } else {
      StripKeeps(s[..|s| - 1]);
    }
  }

  lemma FoldIsLower(pattern: string)
    ensures NoUpper(Fold(pattern)) && |Fold(pattern)| <= |pattern|
  {
    forall c | c in Lower(pattern) ensures LowerChar(c) == c {
      var i :| 0 <= i < |pattern| && Lower(pattern)[i] == c;
    }
    StripKeeps(Lower(pattern));
  }

  /** What a folded pattern spans it spans in lower case as well. */
  lemma {:induction false} SpansLower(folded: string, host: string)
    requires NoUpper(folded) && Spans(folded, host)
    ensures Spans(folded, Lower(host))
  {
    if folded == "" {
    } else {
      var rest := folded[1..];
      assert folded[0] in folded && forall c | c in rest :: c in folded;
      if folded[0] == '*' {
        var k :| 0 <= k <= |host| && Spans(rest, host[k..]);
        SpansLower(rest, host[k..]);
        LowerTail(host, k);
        assert Spans(rest, Lower(host)[k..]);
      } else {
        SpansLower(rest, host[1..]);
        LowerTail(host, 1);
      }
    }
  }

  // ---- the recursion -----------------------------------------------------------

  /** `f(i, j)` of `globs_intersect`, without the memo. */
  predicate Meet(a: string, b: string, i: nat, j: nat)
    requires i <= |a| && j <= |b|
    decreases |a| - i + |b| - j
  {
    if i == |a| && j == |b| then true
    else if i < |a| && a[i] == '*' && (Meet(a, b, i + 1, j) || (j < |b| && Meet(a, b, i, j + 1))) then true
    else if j < |b| && b[j] == '*' && (Meet(a, b, i, j + 1) || (i < |a| && Meet(a, b, i + 1, j))) then true
    else i < |a| && j < |b| && a[i] != '*' && b[j] != '*' && a[i] == b[j] && Meet(a, b, i + 1, j + 1)
  }

  lemma Skip(pattern: string, host: string)
    requires pattern != "" && pattern[0] == '*' && Spans(pattern[1..], host)
    ensures Spans(pattern, host)
  {
    assert host[0..] == host;
  }

  lemma Absorb(pattern: string, c: char, host: string)
    requires pattern != "" && pattern[0] == '*' && Spans(pattern, host)
    ensures Spans(pattern, [c] + host)
  {
    var k :| 0 <= k <= |host| && Spans(pattern[1..], host[k..]);
    assert ([c] + host)[k + 1..] == host[k..];
  }

  lemma Take(pattern: string, host: string)
    requires pattern != "" && pattern[0] != '*' && Spans(pattern[1..], host)
    ensures Spans(pattern, [pattern[0]] + host)
  {
    assert ([pattern[0]] + host)[1..] == host;
  }

  /** From a host of (star suffix, shorter suffix) to a host of (star suffix, whole suffix). */
  lemma Extend(star: string, other: string, host: string) returns (longer: string)
    requires star != "" && star[0] == '*' && other != ""
    requires Spans(star, host) && Spans(other[1..], host)
    ensures Spans(star, longer) && Spans(other, longer)
  {
    if other[0] == '*' {
      Skip(other, host);
      longer := host;
    } else {
      Absorb(star, other[0], host);
      Take(other, host);
      longer := [other[0]] + host;
    }
  }

  /** Soundness: when the recursion says yes, here is a hostname both suffixes match. */
  lemma {:induction false} MeetGivesHost(a: string, b: string, i: nat, j: nat) returns (host: string)
    requires i <= |a| && j <= |b| && Meet(a, b, i, j)
    ensures Spans(a[i..], host) && Spans(b[j..], host)
    decreases |a| - i + |b| - j
  {
    if i == |a| && j == |b| {
      host := "";
    } else if i < |a| && a[i] == '*' && Meet(a, b, i + 1, j) {
      host := MeetGivesHost(a, b, i + 1, j);
      assert a[i..][1..] == a[i + 1..];
      Skip(a[i..], host);
    } else if j < |b| && b[j] == '*' && Meet(a, b, i, j + 1) {
      host := MeetGivesHost(a, b, i, j + 1);
      assert b[j..][1..] == b[j + 1..];
      Skip(b[j..], host);
    } else if i < |a| && a[i] == '*' && j < |b| && Meet(a, b, i, j + 1) {
      host := MeetGivesHost(a, b, i, j + 1);
      assert b[j..][1..] == b[j + 1..];
      host := Extend(a[i..], b[j..], host);
    } else if i < |a| && j < |b| && b[j] == '*' && Meet(a, b, i + 1, j) {
      host := MeetGivesHost(a, b, i + 1, j);
      assert a[i..][1..] == a[i + 1..];
      host := Extend(b[j..], a[i..], host);
    } else {
      host := MeetGivesHost(a, b, i + 1, j + 1);
      assert a[i..][1..] == a[i + 1..] && b[j..][1..] == b[j + 1..];
      Take(a[i..], host);
      Take(b[j..], host);
      host := [a[i]] + host;
    }
  }

  /** A star either matches nothing or takes the host's first character. */
  lemma StarCases(pattern: string, host: string)
    requires pattern != "" && pattern[0] == '*' && Spans(pattern, host)
    ensures Spans(pattern[1..], host) || (host != "" && Spans(pattern, host[1..]))
  {
    var k :| 0 <= k <= |host| && Spans(pattern[1..], host[k..]);
    if k == 0 {
      assert host[0..] == host;
    } else {
      assert host[1..][k - 1..] == host[k..];
    }
  }

  /** Completeness: a hostname both suffixes match makes the recursion say yes. */
  lemma {:induction false} HostGivesMeet(a: string, b: string, i: nat, j: nat, host: string)
    requires i <= |a| && j <= |b|
    requires Spans(a[i..], host) && Spans(b[j..], host)
    ensures Meet(a, b, i, j)
    decreases |a| - i + |b| - j + |host|
  {
    if i < |a| { assert a[i..][1..] == a[i + 1..]; }
    if j < |b| { assert b[j..][1..] == b[j + 1..]; }
    if i < |a| && a[i] == '*' && Spans(a[i + 1..], host) {
      HostGivesMeet(a, b, i + 1, j, host);
    } else if j < |b| && b[j] == '*' && Spans(b[j + 1..], host) {
      HostGivesMeet(a, b, i, j + 1, host);
    } else if host != "" {
      if i < |a| && a[i] == '*' { StarCases(a[i..], host); }
      if j < |b| && b[j] == '*' { StarCases(b[j..], host); }
      HostGivesMeet(a, b,
        if a[i] == '*' then i else i + 1, if b[j] == '*' then j else j + 1, host[1..]);
    } else {
      if i < |a| && a[i] == '*' { StarCases(a[i..], host); }
      if j < |b| && b[j] == '*' { StarCases(b[j..], host); }
    }
  }

  /** `globs_intersect(a, b)`. */
  predicate GlobsIntersect(a: string, b: string) { Meet(Fold(a), Fold(b), 0, 0) }

  /** The claim in the function's docstring, both ways: true exactly when some hostname matches both
      patterns. */
  lemma IntersectIffShared(a: string, b: string)
    ensures GlobsIntersect(a, b) <==> ShareHost(a, b)
  {
    hide Matches, Spans, Meet, Fold, Lower;
    var x, y := Fold(a), Fold(b);
    assert x[0..] == x && y[0..] == y;
    if Meet(x, y, 0, 0) {
      var host := MeetGivesHost(x, y, 0, 0);
      FoldIsLower(a);
      FoldIsLower(b);
      SpansLower(x, host);
      SpansLower(y, host);
      MatchesIsSpans(a, host);
      MatchesIsSpans(b, host);
      assert Matches(a, host) && Matches(b, host);
    }
    if ShareHost(a, b) {
      var host: string :| Matches(a, host) && Matches(b, host);
      MatchesIsSpans(a, host);
      MatchesIsSpans(b, host);
      HostGivesMeet(x, y, 0, 0, Lower(host));
    }
  }

  /** The wide star matches whatever the single-label star matches. */
  lemma {:induction false} InLabelIsWider(pattern: string, host: string)
    requires MatchesInLabel(pattern, host)
    ensures Matches(pattern, host)
  {
    if forall i | 0 <= i < |pattern| :: pattern[i] == '.' {
    } else {
      if pattern[0] == '*' {
        var k :| 0 <= k <= |host| && '.' !in host[..k] && MatchesInLabel(pattern[1..], host[k..]);
        InLabelIsWider(pattern[1..], host[k..]);
      } else {
        InLabelIsWider(pattern[1..], host[1..]);
      }
    }
  }

  /** So a "no" also rules out every hostname under Cilium's narrower star, for either pattern. */
  lemma NoMeansNoHostInLabel(a: string, b: string, host: string)
    requires !GlobsIntersect(a, b)
    ensures !(MatchesInLabel(a, host) && MatchesInLabel(b, host))
    ensures !(MatchesInLabel(a, host) && Matches(b, host))
  {
    hide GlobsIntersect;
    IntersectIffShared(a, b);
    if MatchesInLabel(a, host) {
      InLabelIsWider(a, host);
      if MatchesInLabel(b, host) {
        InLabelIsWider(b, host);
      }
    }
  }

  // ---- the memo ------------------------------------------------------------------

  /** Positions at or past `(i, j)`. */
  ghost function Cells(a: string, b: string, i: nat, j: nat): set<(nat, nat)>
    requires i <= |a| && j <= |b|
  {
    set p: nat, q: nat | i <= p <= |a| && j <= q <= |b| :: (p, q)
  }

  /** The positions past `(i, j)`. */
  ghost function Beyond(a: string, b: string, i: nat, j: nat): set<(nat, nat)>
    requires i <= |a| && j <= |b|
  {
    Cells(a, b, i, j) - {(i, j)}
  }

  lemma BeyondCovers(a: string, b: string, i: nat, j: nat)
    requires i <= |a| && j <= |b|
    ensures (i, j) in Cells(a, b, i, j) && (i, j) !in Beyond(a, b, i, j)
    ensures i < |a| ==> Cells(a, b, i + 1, j) <= Beyond(a, b, i, j)
    ensures j < |b| ==> Cells(a, b, i, j + 1) <= Beyond(a, b, i, j)
    ensures i < |a| && j < |b| ==> Cells(a, b, i + 1, j + 1) <= Beyond(a, b, i, j)
  {
  }

  lemma {:induction false} RowSize(p: nat, q: nat)
    ensures |set k: nat | 0 <= k <= q :: (p, k)| == q + 1
  {
    var row := set k: nat | 0 <= k <= q :: (p, k);
    if q == 0 {
      assert row == {(p, 0)};
    } else {
      RowSize(p, q - 1);
      assert row == (set k: nat | 0 <= k <= q - 1 :: (p, k)) + {(p, q)};
    }
  }

  lemma {:induction false} GridSize(m: nat, n: nat)
    ensures |set p: nat, q: nat | 0 <= p <= m && 0 <= q <= n :: (p, q)| == (m + 1) * (n + 1)
  {
    var grid := set p: nat, q: nat | 0 <= p <= m && 0 <= q <= n :: (p, q);
    var row := set k: nat | 0 <= k <= n :: (m, k);
    RowSize(m, n);
    if m == 0 {
      assert grid == row;
    } else {
      GridSize(m - 1, n);
      var above := set p: nat, q: nat | 0 <= p <= m - 1 && 0 <= q <= n :: (p, q);
      assert grid == above + row && above !! row;
      assert m * (n + 1) + (n + 1) == (m + 1) * (n + 1);
    }
  }

  lemma SubsetSize<T>(s: set<T>, t: set<T>)
    requires s <= t
    ensures |s| <= |t|
  {
    assert t == s + (t - s);
  }

  /** The `lru_cache` around `f`: an unbounded memo, and a count of the bodies actually run. */
  class Intersection {
    const a: string
    const b: string
    var memo: map<(nat, nat), bool>
    var misses: nat

    constructor (x: string, y: string)
      ensures a == Fold(x) && b == Fold(y) && Valid() && misses == 0
    {
      a, b := Fold(x), Fold(y);
      memo, misses := map[], 0;
    }

    /** Every cell filled holds the plain recursion's answer, and was filled once. */
    ghost predicate Valid()
      reads this
    {
      && (forall c | c in memo :: c.0 <= |a| && c.1 <= |b| && memo[c] == Meet(a, b, c.0, c.1))
      && misses == |memo|
    }

    method F(i: nat, j: nat) returns (r: bool)
      requires Valid() && i <= |a| && j <= |b|
      modifies this
      ensures Valid() && r == Meet(a, b, i, j)
      ensures old(memo.Keys) <= memo.Keys && (i, j) in memo
      ensures memo.Keys <= old(memo.Keys) + Cells(a, b, i, j)
      decreases |a| - i + |b| - j, 2
    {
      if (i, j) in memo {
        return memo[(i, j)];
      }
      r := Body(i, j);
      BeyondCovers(a, b, i, j);
      assert (i, j) !in memo;
      memo := memo[(i, j) := r];
      misses := misses + 1;
    }

    /** `f(i + 1, j) or (j < len(b) and f(i, j + 1))`. */
    method SkipA(i: nat, j: nat) returns (r: bool)
      requires Valid() && i < |a| && j <= |b|
      modifies this
      ensures Valid() && r == (Meet(a, b, i + 1, j) || (j < |b| && Meet(a, b, i, j + 1)))
      ensures old(memo.Keys) <= memo.Keys <= old(memo.Keys) + Beyond(a, b, i, j)
      decreases |a| - i + |b| - j, 0
    {
      BeyondCovers(a, b, i, j);
      r := F(i + 1, j);
      if !r && j < |b| {
        r := F(i, j + 1);
      }
    }

    /** `f(i, j + 1) or (i < len(a) and f(i + 1, j))`. */
    method SkipB(i: nat, j: nat) returns (r: bool)
      requires Valid() && i <= |a| && j < |b|
      modifies this
      ensures Valid() && r == (Meet(a, b, i, j + 1) || (i < |a| && Meet(a, b, i + 1, j)))
      ensures old(memo.Keys) <= memo.Keys <= old(memo.Keys) + Beyond(a, b, i, j)
      decreases |a| - i + |b| - j, 0
    {
      BeyondCovers(a, b, i, j);
      r := F(i, j + 1);
      if !r && i < |a| {
        r := F(i + 1, j);
      }
    }

    /** The body of `f`: it never asks for its own cell. */
    method Body(i: nat, j: nat) returns (r: bool)
      requires Valid() && i <= |a| && j <= |b|
      modifies this
      ensures Valid() && r == Meet(a, b, i, j)
      ensures old(memo.Keys) <= memo.Keys <= old(memo.Keys) + Beyond(a, b, i, j)
      decreases |a| - i + |b| - j, 1
    {
      if i == |a| && j == |b| {
        return true;
      }
      if i < |a| && a[i] == '*' {
        r := SkipA(i, j);
        if r {
          return;
        }
      }
      if j < |b| && b[j] == '*' {
        r := SkipB(i, j);
        if r {
          return;
        }
      }
      if i < |a| && j < |b| && a[i] != '*' && b[j] != '*' && a[i] == b[j] {
        BeyondCovers(a, b, i, j);
        r := F(i + 1, j + 1);
        return;
      }
      return false;
    }

    /** However often cells are asked for, at most one body runs per pair of positions. */
    lemma MissesBounded()
      requires Valid()
      ensures misses <= (|a| + 1) * (|b| + 1)
    {
      var grid := set p: nat, q: nat | 0 <= p <= |a| && 0 <= q <= |b| :: (p, q);
      assert memo.Keys <= grid;
      SubsetSize(memo.Keys, grid);
      GridSize(|a|, |b|);
      assert |memo| == |memo.Keys|;
    }
  }

  /** `globs_intersect`, memoised: the docstring's answer, in at most `(|a|+1)(|b|+1)` bodies. */
  method Intersect(a: string, b: string) returns (r: bool, bodies: nat)
    ensures r <==> ShareHost(a, b)
    ensures bodies <= (|a| + 1) * (|b| + 1)
  {
    hide ShareHost, Fold;
    var table := new Intersection(a, b);
    r := table.F(0, 0);
    IntersectIffShared(a, b);
    table.MissesBounded();
    FoldIsLower(a);
    FoldIsLower(b);
    GridGrows(|Fold(a)| + 1, |Fold(b)| + 1, |a| + 1, |b| + 1);
    bodies := table.misses;
  }

  lemma GridGrows(m: nat, n: nat, x: nat, y: nat)
    requires m <= x && n <= y
    ensures m * n <= x * y
  {
    assert m * n <= x * n <= x * y;
  }
}
