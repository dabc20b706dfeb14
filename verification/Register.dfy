/** The document register's hash clause, and the textual edit that re-registers draft hashes.
    A text is its list of lines. */
module Register {
  import opened Options

  /** One document of the parsed register. */
  datatype Entry = Entry(id: string, status: string, source: Option<string>, hash: Option<string>)

  /** What `\s` matches within a line. */
  predicate Space(c: char) {
    || c in {' ', '\t', '\r', '\U{0B}', '\U{0C}', '\U{85}', '\U{A0}', '\U{1680}', '\U{2028}', '\U{2029}', '\U{202F}', '\U{205F}', '\U{3000}'}
    || '\U{1C}' <= c <= '\U{1F}' || '\U{2000}' <= c <= '\U{200A}'
  }

  predicate AllSpace(s: string) { forall i | 0 <= i < |s| :: Space(s[i]) }

  function Indent(line: string): (k: nat)
    ensures k <= |line| && AllSpace(line[..k]) && (k < |line| ==> !Space(line[k]))
  {
    if line == "" || !Space(line[0]) then 0
    else
      assert line[..1 + Indent(line[1..])] == [line[0]] + line[1..][..Indent(line[1..])];
      1 + Indent(line[1..])
  }

  const ENTRY: string := "- document_id: "
  const HASH: string := "publication_hash: "

  predicate IsEntry(line: string) { ENTRY <= line[Indent(line)..] }

  predicate IsHash(line: string) { HASH <= line[Indent(line)..] }

  /** The line opens the entry of exactly this id. */
  predicate Opens(line: string, id: string) {
    ENTRY + id <= line[Indent(line)..] && AllSpace(line[Indent(line) + |ENTRY| + |id|..])
  }

  /** `\g<1>"new"`: the indentation and the key stay, the value is replaced. */
  function Rewritten(line: string, hash: string): string
  {
    line[..Indent(line)] + HASH + "\"" + hash + "\""
  }

  // ---- hashes and how the register spells them -----------------------------------------

  type HexText = s: string | forall c | c in s :: '0' <= c <= '9' || 'a' <= c <= 'f'

  /** `file_hash`; `files` gives the SHA-256 of each source that is a file, in hexadecimal. */
  function FileHash(files: map<string, HexText>, path: string): string
    requires path in files
  {
    "sha256:" + files[path]
  }

  /** The text before the first `c`. */
  function Before(s: string, c: char): string {
    if s == "" || s[0] == c then "" else [s[0]] + Before(s[1..], c)
  }

  /** The text before a comment; `#` opens one at the start or after a space. */
  function BeforeComment(s: string, spaced: bool): string {
    if s == "" || (spaced && s[0] == '#') then "" else [s[0]] + BeforeComment(s[1..], Space(s[0]))
  }

  function TrimEnd(s: string): string {
    if s != "" && Space(s[|s| - 1]) then TrimEnd(s[..|s| - 1]) else s
  }

  /** A one-line YAML scalar as a string or null: quoted either way, or plain, with any comment after it. */
  function Scalar(v: string): Option<string> {
    var t := v[Indent(v)..];
    if t == "" then None
    else if t[0] == '"' || t[0] == '\'' then
      if t[0] in t[1..] then Some(Before(t[1..], t[0])) else None
    else
      var plain := TrimEnd(BeforeComment(t, true));
      if plain in {"", "~", "null", "Null", "NULL"} then None else Some(plain)
  }

  /** The hash a hash line registers. */
  function ValueOf(line: string): Option<string>
    requires IsHash(line)
  {
    Scalar(line[Indent(line) + |HASH|..])
  }

  /** What a file hash is made of: no quotes, no spaces, no comment signs. */
  predicate Bare(hash: string) {
    forall c | c in hash :: c != '"' && c != '\'' && c != '#' && !Space(c)
  }

  lemma FileHashIsBare(files: map<string, HexText>, path: string)
    requires path in files
    ensures Bare(FileHash(files, path)) && |FileHash(files, path)| >= 7
  {
    assert forall c | c in "sha256:" :: c in {'s', 'h', 'a', '2', '5', '6', ':'};
  }

  lemma {:induction false} BeforeQuote(s: string, c: char, rest: string)
    requires c !in s
    ensures Before(s + [c] + rest, c) == s
  {
    if s == "" {
      assert s + [c] + rest == [c] + rest;
    } else {
      assert (s + [c] + rest)[0] == s[0] && (s + [c] + rest)[1..] == s[1..] + [c] + rest;
      BeforeQuote(s[1..], c, rest);
    }
  }

  lemma {:induction false} BeforeNote(hash: string, note: string, spaced: bool)
    requires Bare(hash)
    ensures BeforeComment(hash + " #" + note, spaced) == hash + " "
  {
    if hash == "" {
      assert hash + " #" + note == " #" + note;
      assert (" #" + note)[1..] == "#" + note;
      assert BeforeComment("#" + note, true) == "";
    } else {
      assert hash[0] in hash && (hash + " #" + note)[0] == hash[0] && (hash + " #" + note)[1..] == hash[1..] + " #" + note;
      assert forall c | c in hash[1..] :: c in hash;
      BeforeNote(hash[1..], note, Space(hash[0]));
      assert hash == [hash[0]] + hash[1..];
    }
  }

  /** The three ways a register may write a hash, with or without a comment: all read as the hash. */
  lemma HashSpellings(hash: string, note: string)
    requires Bare(hash) && |hash| >= 5
    ensures Scalar("\"" + hash + "\"" + note) == Some(hash)
    ensures Scalar("'" + hash + "'" + note) == Some(hash)
    ensures Scalar(hash + " #" + note) == Some(hash)
  {
    QuotedReads(hash, '"', note);
    QuotedReads(hash, '\'', note);
    PlainReads(hash, note);
    assert ['"'] + hash + ['"'] + note == "\"" + hash + "\"" + note;
    assert ['\''] + hash + ['\''] + note == "'" + hash + "'" + note;
  }

  lemma QuotedReads(hash: string, q: char, note: string)
    requires Bare(hash) && (q == '"' || q == '\'')
    ensures Scalar([q] + hash + [q] + note) == Some(hash)
  {
    var t := [q] + hash + [q] + note;
    IndentOf("", t);
    assert "" + t == t && t[0..] == t && t[1..] == hash + [q] + note && q in t[1..];
    BeforeQuote(hash, q, note);
  }

  lemma PlainReads(hash: string, note: string)
    requires Bare(hash) && |hash| >= 5
    ensures Scalar(hash + " #" + note) == Some(hash)
  {
    var t := hash + " #" + note;
    assert hash[0] in hash;
    IndentOf("", t);
    assert "" + t == t && t[0..] == t && t[0] == hash[0];
    BeforeNote(hash, note, true);
    assert (hash + " ")[..|hash + " "| - 1] == hash && hash[|hash| - 1] in hash;
    assert TrimEnd(hash + " ") == TrimEnd(hash) == hash;
    assert |"null"| == 4 && |"Null"| == 4 && |"NULL"| == 4 && |"~"| == 1;
  }

  lemma {:induction false} IndentOf(space: string, rest: string)
    requires AllSpace(space) && rest != "" && !Space(rest[0])
    ensures Indent(space + rest) == |space|
  {
    if space == "" {
      assert space + rest == rest;
    } else {
      assert (space + rest)[1..] == space[1..] + rest;
      IndentOf(space[1..], rest);
    }
  }

  /** A rewritten line is still a hash line with the same indentation, and opens nothing. */
  lemma RewrittenIsHash(line: string, hash: string)
    requires IsHash(line)
    ensures
      var r := Rewritten(line, hash);
      && Indent(r) == Indent(line) && IsHash(r) && !IsEntry(r) && r[Indent(r) + |HASH|..] == "\"" + hash + "\""
      && forall other :: Rewritten(r, other) == Rewritten(line, other)
  {
    var space, value := line[..Indent(line)], "\"" + hash + "\"";
    var r := Rewritten(line, hash);
    assert r == space + (HASH + value);
    IndentOf(space, HASH + value);
    assert r[..Indent(r)] == space && r[Indent(r)..] == HASH + value;
    assert r[Indent(r) + |HASH|..] == value;
    assert (HASH + value)[0] == 'p' && ENTRY[0] == '-';
  }

  /** A rewritten line reads back as the hash it was given. */
  lemma RewrittenReads(line: string, hash: string)
    requires IsHash(line) && Bare(hash)
    ensures IsHash(Rewritten(line, hash)) && ValueOf(Rewritten(line, hash)) == Some(hash)
  {
    RewrittenIsHash(line, hash);
    QuotedReads(hash, '"', "");
    assert ['"'] + hash + ['"'] + "" == "\"" + hash + "\"";
  }

  lemma HashIsNoEntry(line: string)
    requires IsHash(line)
    ensures !IsEntry(line)
  {
    assert line[Indent(line)..][0] == HASH[0] && HASH[0] == 'p' && ENTRY[0] == '-';
  }

  lemma OpensOne(line: string, a: string, b: string)
    requires Opens(line, a) && Opens(line, b) && Tidy(a) && Tidy(b)
    ensures a == b
  {
    hide AllSpace, Opens, Tidy;
    var t := AfterKey(line, a);
    var u := AfterKey(line, b);
    NotLonger(t, a, b);
    NotLonger(t, b, a);
    assert a == t[..|a|] && b == t[..|b|];
  }

  /** What follows the key on a line that opens an id: the id, and space to the end. */
  lemma AfterKey(line: string, id: string) returns (t: string)
    requires Opens(line, id)
    ensures |ENTRY| <= |line[Indent(line)..]| && t == line[Indent(line)..][|ENTRY|..] && id <= t && AllSpace(t[|id|..])
  {
    t := line[Indent(line)..][|ENTRY|..];
    assert t[|id|..] == line[Indent(line) + |ENTRY| + |id|..];
  }

  lemma NotLonger(t: string, a: string, b: string)
    requires a <= t && b <= t && AllSpace(t[|a|..]) && Tidy(b)
    ensures |b| <= |a|
  {
  }

  /** An id that does not end in a space. */
  predicate Tidy(id: string) { id != "" ==> !Space(id[|id| - 1]) }

  // ---- where an id's hash line is ------------------------------------------------------

  datatype Spot = NoEntry | NoHash | At(k: nat)

  /** The first line from `i` on that opens the id. */
  function Opening(lines: seq<string>, id: string, i: nat): (k: nat)
    requires i <= |lines|
    ensures i <= k <= |lines| && (k < |lines| ==> Opens(lines[k], id))
    ensures forall j | i <= j < k :: !Opens(lines[j], id)
    decreases |lines| - i
  {
    if i == |lines| || Opens(lines[i], id) then i else Opening(lines, id, i + 1)
  }

  /** The first entry line from `i` on, or the end. */
  function NextEntry(lines: seq<string>, i: nat): (k: nat)
    requires i <= |lines|
    ensures i <= k <= |lines| && (k < |lines| ==> IsEntry(lines[k]))
    ensures forall j | i <= j < k :: !IsEntry(lines[j])
    decreases |lines| - i
  {
    if i == |lines| || IsEntry(lines[i]) then i else NextEntry(lines, i + 1)
  }

  /** The first hash line in [i, end), or `end`. */
  function HashLine(lines: seq<string>, i: nat, end: nat): (k: nat)
    requires i <= end <= |lines|
    ensures i <= k <= end && (k < end ==> IsHash(lines[k]))
    ensures forall j | i <= j < k :: !IsHash(lines[j])
    decreases end - i
  {
    if i == end || IsHash(lines[i]) then i else HashLine(lines, i + 1, end)
  }

  function SpotOf(lines: seq<string>, id: string): (s: Spot)
    ensures s.At? ==> s.k < |lines| && IsHash(lines[s.k])
  {
    var start := Opening(lines, id, 0);
    if start == |lines| then NoEntry
    else
      var end := NextEntry(lines, start + 1);
      var k := HashLine(lines, start, end);
      if k == end then NoHash else At(k)
  }

  /** What the register's text says the document's hash is. */
  function HashIn(lines: seq<string>, id: string): Option<string> {
    var s := SpotOf(lines, id);
    if s.At? then ValueOf(lines[s.k]) else None
  }

  /** Line for line the same, except that a hash line may be another hash line. */
  predicate SameShape(a: seq<string>, b: seq<string>) {
    && |a| == |b|
    && forall k | 0 <= k < |a| :: a[k] == b[k] || (IsHash(a[k]) && IsHash(b[k]))
  }

  lemma ShapeKeepsLines(a: seq<string>, b: seq<string>, k: nat, id: string)
    requires SameShape(a, b) && k < |a|
    ensures IsHash(a[k]) == IsHash(b[k]) && IsEntry(a[k]) == IsEntry(b[k]) && Opens(a[k], id) == Opens(b[k], id)
  {
    if a[k] != b[k] {
      HashIsNoEntry(a[k]);
      HashIsNoEntry(b[k]);
      if Opens(a[k], id) {
        OpensIsEntry(a[k], id);
      }
      if Opens(b[k], id) {
        OpensIsEntry(b[k], id);
      }
    }
  }

  lemma OpensIsEntry(line: string, id: string)
    requires Opens(line, id)
    ensures IsEntry(line)
  {
    assert ENTRY <= ENTRY + id;
  }

  lemma SameSpot(a: seq<string>, b: seq<string>, id: string)
    requires SameShape(a, b)
    ensures SpotOf(a, id) == SpotOf(b, id)
  {
    hide Opens, IsEntry, IsHash, SameShape;
    forall k | 0 <= k < |a|
      ensures |a| == |b| && IsHash(a[k]) == IsHash(b[k]) && IsEntry(a[k]) == IsEntry(b[k]) && Opens(a[k], id) == Opens(b[k], id)
    {
      SameLength(a, b);
      ShapeKeepsLines(a, b, k, id);
    }
    SameLength(a, b);
    var s := Opening(a, id, 0);
    assert s == Opening(b, id, 0);
    if s < |a| {
      var e := NextEntry(a, s + 1);
      assert e == NextEntry(b, s + 1);
      assert HashLine(a, s, e) == HashLine(b, s, e);
    }
  }

  lemma SameLength(a: seq<string>, b: seq<string>)
    requires SameShape(a, b)
    ensures |a| == |b|
  {
  }

  /** The blocks of different ids do not overlap, so neither do their hash lines. */
  lemma SpotsDiffer(lines: seq<string>, a: string, b: string)
    requires a != b && Tidy(a) && Tidy(b) && SpotOf(lines, a).At? && SpotOf(lines, b).At?
    ensures SpotOf(lines, a).k != SpotOf(lines, b).k
  {
    hide Opens, IsEntry, IsHash;
    var i, j := Opening(lines, a, 0), Opening(lines, b, 0);
    OpensIsEntry(lines[i], a);
    OpensIsEntry(lines[j], b);
    if i == j {
      OpensOne(lines[i], a, b);
    }
    HashesAreInside(lines, a);
    HashesAreInside(lines, b);
  }

  lemma HashesAreInside(lines: seq<string>, id: string)
    requires SpotOf(lines, id).At?
    ensures
      var i, k := Opening(lines, id, 0), SpotOf(lines, id).k;
      i < k < |lines| && forall j | i < j <= k :: !IsEntry(lines[j])
  {
    hide Opens, IsHash, IsEntry;
    var i, k := Opening(lines, id, 0), SpotOf(lines, id).k;
    OpensIsEntry(lines[i], id);
    HashIsNoEntry(lines[k]);
  }

  // ---- the edit --------------------------------------------------------------------------

  predicate Draft(d: Entry) { d.status in {"DRAFT", "PROPOSED"} }

  /** The document is a draft whose source exists and no longer has the registered hash. */
  predicate Stale(d: Entry, files: map<string, HexText>) {
    Draft(d) && d.source.Some? && d.source.value in files && d.hash != Some(FileHash(files, d.source.value))
  }

  function Fresh(d: Entry, files: map<string, HexText>): string
    requires Stale(d, files)
  {
    FileHash(files, d.source.value)
  }

  function CountStale(register: seq<Entry>, files: map<string, HexText>): nat {
    if register == [] then 0
    else CountStale(register[..|register| - 1], files) + (if Stale(register[|register| - 1], files) then 1 else 0)
  }

  ghost predicate Edited(register: seq<Entry>, files: map<string, HexText>, lines: seq<string>, k: nat) {
    exists j | 0 <= j < |register| :: Stale(register[j], files) && SpotOf(lines, register[j].id) == At(k)
  }

  /** The ids are tidy and no two documents share one. */
  predicate DistinctIds(register: seq<Entry>) {
    && (forall j | 0 <= j < |register| :: Tidy(register[j].id))
    && forall i, j | 0 <= i < j < |register| :: register[i].id != register[j].id
  }

  /** The edit wrote the new hash of every stale document into its hash line. */
  ghost predicate Settled(register: seq<Entry>, files: map<string, HexText>, lines: seq<string>, text: seq<string>) {
    |text| == |lines| && forall j | 0 <= j < |register| :: SettledAt(register[j], files, lines, text)
  }

  ghost predicate SettledAt(d: Entry, files: map<string, HexText>, lines: seq<string>, text: seq<string>)
    requires |text| == |lines|
  {
    var s := SpotOf(lines, d.id);
    Stale(d, files) && s.At? ==> text[s.k] == Rewritten(lines[s.k], Fresh(d, files))
  }

  /** Some stale document has no entry in the text. */
  ghost predicate Unlocated(register: seq<Entry>, files: map<string, HexText>, lines: seq<string>) {
    exists j | 0 <= j < |register| :: Stale(register[j], files) && SpotOf(lines, register[j].id).NoEntry?
  }

  /** Only hash lines of stale documents were rewritten. */
  ghost predicate OnlyEdited(register: seq<Entry>, files: map<string, HexText>, lines: seq<string>, text: seq<string>) {
    && SameShape(lines, text)
    && forall k | 0 <= k < |lines| :: Edited(register, files, lines, k) || text[k] == lines[k]
  }

  /** What one run does: nothing at all when an entry is missing; otherwise it counts the stale documents
      and rewrites their hash lines and no others. */
  ghost predicate Rehashed(register: seq<Entry>, files: map<string, HexText>, lines: seq<string>,
                           text: Option<seq<string>>, changed: nat) {
    && (text.None? <==> Unlocated(register, files, lines))
    && (text.Some? ==>
          && changed == CountStale(register, files)
          && OnlyEdited(register, files, lines, text.value)
          && (DistinctIds(register) ==> Settled(register, files, lines, text.value)))
  }

  /** `rehash_drafts`; None where it raises because an entry cannot be located. */
  method RehashDrafts(register: seq<Entry>, lines: seq<string>, files: map<string, HexText>)
      returns (text: Option<seq<string>>, changed: nat)
    ensures Rehashed(register, files, lines, text, changed)
  {
    hide SpotOf, Opens, IsEntry, IsHash, Settled, SameShape, CountStale, Edited, Stale;
    var now := lines;
    changed := 0;
    RunBegins(files, lines);
    for i := 0 to |register|
      invariant changed == CountStale(register[..i], files) && |now| == |lines| && SameShape(lines, now)
      invariant forall j | 0 <= j < i :: !(Stale(register[j], files) && SpotOf(lines, register[j].id).NoEntry?)
      invariant forall k | 0 <= k < |lines| :: Edited(register[..i], files, lines, k) || now[k] == lines[k]
      invariant DistinctIds(register) ==> Settled(register[..i], files, lines, now)
    {
      var d := register[i];
      assert register[..i + 1] == register[..i] + [d];
      SameLength(lines, now);
      ghost var was := now;
      SameSpot(lines, now, d.id);
      if Stale(d, files) {
        var spot := SpotOf(now, d.id);
        if spot.NoEntry? {
          return None, 0;
        }
        if spot.At? {
          now := Replaced(now, d, files, spot.k);
        }
        changed := changed + 1;
      }
      StepKeeps(register[..i], d, files, lines, was, now);
      if DistinctIds(register) {
        DistinctPrefix(register, i);
        StepSettles(register[..i], d, files, lines, was, now);
      }
    }
    assert register[..|register|] == register;
    return Some(now), changed;
  }

  lemma RunBegins(files: map<string, HexText>, lines: seq<string>)
    ensures CountStale([], files) == 0 && SameShape(lines, lines) && Settled([], files, lines, lines)
  {
  }

  function Replaced(text: seq<string>, d: Entry, files: map<string, HexText>, k: nat): (r: seq<string>)
    requires k < |text| && Stale(d, files)
    ensures |r| == |text|
  {
    text[k := Rewritten(text[k], Fresh(d, files))]
  }

  lemma DistinctPrefix(register: seq<Entry>, i: nat)
    requires DistinctIds(register) && i < |register|
    ensures DistinctIds(register[..i] + [register[i]])
  {
    assert register[..i] + [register[i]] == register[..i + 1];
  }

  /** What one turn of the loop does to the text. */
  ghost predicate Turn(d: Entry, files: map<string, HexText>, lines: seq<string>, was: seq<string>, now: seq<string>) {
    var s := SpotOf(lines, d.id);
    && (s.At? ==> s.k < |was|)
    && (now == if Stale(d, files) && s.At? then Replaced(was, d, files, s.k) else was)
  }

  lemma StepKeeps(before: seq<Entry>, d: Entry, files: map<string, HexText>, lines: seq<string>, was: seq<string>, now: seq<string>)
    requires SameShape(lines, was) && Turn(d, files, lines, was, now)
    requires forall k | 0 <= k < |lines| :: Edited(before, files, lines, k) || was[k] == lines[k]
    ensures SameShape(lines, now) && CountStale(before + [d], files) == CountStale(before, files) + (if Stale(d, files) then 1 else 0)
    ensures forall k | 0 <= k < |lines| :: Edited(before + [d], files, lines, k) || now[k] == lines[k]
  {
    hide SpotOf, IsHash, Opens, IsEntry, Rewritten, FileHash, Stale;
    var all := before + [d];
    assert all[..|all| - 1] == before && all[|all| - 1] == d;
    var s := SpotOf(lines, d.id);
    if Stale(d, files) && s.At? {
      SameSpot(lines, was, d.id);
      RewrittenIsHash(was[s.k], Fresh(d, files));
    }
    forall k | 0 <= k < |lines| ensures Edited(all, files, lines, k) || now[k] == lines[k] {
      if Edited(before, files, lines, k) {
        var j :| 0 <= j < |before| && Stale(before[j], files) && SpotOf(lines, before[j].id) == At(k);
        assert all[j] == before[j];
      } else if Stale(d, files) && s == At(k) {
        assert all[|before|] == d;
      }
    }
  }

  lemma StepSettles(before: seq<Entry>, d: Entry, files: map<string, HexText>, lines: seq<string>, was: seq<string>, now: seq<string>)
    requires SameShape(lines, was) && Turn(d, files, lines, was, now) && DistinctIds(before + [d])
    requires forall k | 0 <= k < |lines| :: Edited(before, files, lines, k) || was[k] == lines[k]
    requires Settled(before, files, lines, was)
    ensures Settled(before + [d], files, lines, now)
  {
    hide SpotOf, IsHash, Opens, IsEntry, Rewritten;
    var all := before + [d];
    forall j | 0 <= j < |all| ensures SettledAt(all[j], files, lines, now) {
      if j < |before| {
        assert all[j] == before[j] && all[|before|] == d && all[j].id != d.id;
        assert SettledAt(before[j], files, lines, was);
        if SpotOf(lines, d.id).At? && SpotOf(lines, before[j].id).At? {
          SpotsDiffer(lines, before[j].id, d.id);
        }
      } else if Stale(d, files) && SpotOf(lines, d.id).At? {
        OwnLineUntouched(before, d, files, lines, was);
      }
    }
  }

  lemma OwnLineUntouched(before: seq<Entry>, d: Entry, files: map<string, HexText>, lines: seq<string>, was: seq<string>)
    requires |was| == |lines| && DistinctIds(before + [d]) && SpotOf(lines, d.id).At?
    requires forall k | 0 <= k < |lines| :: Edited(before, files, lines, k) || was[k] == lines[k]
    ensures was[SpotOf(lines, d.id).k] == lines[SpotOf(lines, d.id).k]
  {
    hide SpotOf;
    var k := SpotOf(lines, d.id).k;
    if Edited(before, files, lines, k) {
      var j :| 0 <= j < |before| && Stale(before[j], files) && SpotOf(lines, before[j].id) == At(k);
      assert (before + [d])[j] == before[j] && (before + [d])[|before|] == d;
      SpotsDiffer(lines, before[j].id, d.id);
    }
  }

  // ---- the hash clause of check_documents ------------------------------------------------------

  datatype HashProblem = SourceMissing | NoHashRegistered | HashDiffers | HashWithoutSource

  function HashFinding(d: Entry, files: map<string, HexText>): Option<HashProblem> {
    if d.source.Some? then
      if d.source.value !in files then Some(SourceMissing)
      else if d.hash.None? then Some(NoHashRegistered)
      else if FileHash(files, d.source.value) != d.hash.value then Some(HashDiffers)
      else None
    else if d.hash.Some? then Some(HashWithoutSource) else None
  }

  /** The register parsed again from an edited text. */
  function Reread(d: Entry, text: seq<string>): Entry { d.(hash := HashIn(text, d.id)) }

  predicate ReadFrom(register: seq<Entry>, lines: seq<string>) {
    forall j | 0 <= j < |register| :: register[j] == Reread(register[j], lines)
  }

  /** What a run leaves for each document: a stale one that has a hash line becomes clean, and every
      other document reads as before. */
  lemma RehashSettles(register: seq<Entry>, files: map<string, HexText>, lines: seq<string>, text: seq<string>, j: nat)
    requires DistinctIds(register) && ReadFrom(register, lines) && j < |register|
    requires Settled(register, files, lines, text) && OnlyEdited(register, files, lines, text)
    ensures
      var d := register[j];
      if Stale(d, files) && SpotOf(lines, d.id).At?
      then HashFinding(Reread(d, text), files) == None && Reread(d, text).hash == Some(Fresh(d, files))
      else Reread(d, text) == d
  {
    hide SpotOf, IsHash, Opens, IsEntry, Rewritten, ValueOf, DistinctIds;
    var d := register[j];
    assert d == Reread(d, lines);
    SameSpot(lines, text, d.id);
    var s := SpotOf(lines, d.id);
    if s.At? {
      if Stale(d, files) {
        assert SettledAt(d, files, lines, text);
        FileHashIsBare(files, d.source.value);
        RewrittenReads(lines[s.k], Fresh(d, files));
      } else {
        OthersUntouched(register, files, lines, text, j);
      }
    }
  }

  lemma OthersUntouched(register: seq<Entry>, files: map<string, HexText>, lines: seq<string>, text: seq<string>, j: nat)
    requires DistinctIds(register) && j < |register| && |text| == |lines|
    requires SpotOf(lines, register[j].id).At? && !Stale(register[j], files)
    requires forall k | 0 <= k < |lines| :: Edited(register, files, lines, k) || text[k] == lines[k]
    ensures text[SpotOf(lines, register[j].id).k] == lines[SpotOf(lines, register[j].id).k]
  {
    hide SpotOf;
    var k := SpotOf(lines, register[j].id).k;
    if Edited(register, files, lines, k) {
      var i :| 0 <= i < |register| && Stale(register[i], files) && SpotOf(lines, register[i].id) == At(k);
      SpotsDiffer(lines, register[i].id, register[j].id);
    }
  }

  function RereadAll(register: seq<Entry>, text: seq<string>): (r: seq<Entry>)
    ensures |r| == |register| && forall j | 0 <= j < |r| :: r[j] == Reread(register[j], text)
  {
    seq(|register|, j requires 0 <= j < |register| => Reread(register[j], text))
  }

  lemma {:induction false} NoneStaleIff(register: seq<Entry>, files: map<string, HexText>)
    ensures CountStale(register, files) == 0 <==> forall j | 0 <= j < |register| :: !Stale(register[j], files)
  {
    if register == [] {
    } else {
      NoneStaleIff(register[..|register| - 1], files);
      assert forall j | 0 <= j < |register| - 1 :: register[..|register| - 1][j] == register[j];
    }
  }

  /** What is still stale after a run is what had no hash line to rewrite. */
  lemma StillStaleIff(register: seq<Entry>, files: map<string, HexText>, lines: seq<string>, text: seq<string>, j: nat)
    requires DistinctIds(register) && ReadFrom(register, lines) && j < |register|
    requires Settled(register, files, lines, text) && OnlyEdited(register, files, lines, text)
    ensures Stale(Reread(register[j], text), files) <==> Stale(register[j], files) && !SpotOf(lines, register[j].id).At?
    ensures SpotOf(text, register[j].id) == SpotOf(lines, register[j].id)
  {
    hide SpotOf, HashIn, Settled, DistinctIds, SameShape, ReadFrom;
    RehashSettles(register, files, lines, text, j);
    SameSpot(lines, text, register[j].id);
  }

  /** A second run, over the register as parsed from the first run's text, never changes a line, and
      counts no document exactly when every document stale at first had a hash line. */
  lemma SecondRunIsIdleIff(register: seq<Entry>, files: map<string, HexText>, lines: seq<string>, text: seq<string>,
                           first: nat, again: Option<seq<string>>, second: nat)
    requires DistinctIds(register) && ReadFrom(register, lines)
    requires Rehashed(register, files, lines, Some(text), first)
    requires Rehashed(RereadAll(register, text), files, text, again, second)
    ensures again == Some(text)
    ensures second == 0 <==> forall j | 0 <= j < |register| && Stale(register[j], files) :: SpotOf(lines, register[j].id).At?
  {
    hide SpotOf, HashIn, Settled, DistinctIds, SameShape, ReadFrom, Stale;
    var parsed := RereadAll(register, text);
    forall j | 0 <= j < |register|
      ensures Stale(parsed[j], files) <==> Stale(register[j], files) && !SpotOf(lines, register[j].id).At?
      ensures SpotOf(text, parsed[j].id) == SpotOf(lines, register[j].id)
    {
      StillStaleIff(register, files, lines, text, j);
    }
    NoneStaleIff(parsed, files);
    NothingToEdit(parsed, files, text, again);
  }

  /** When no stale document has a hash line, a run that goes through returns the text it was given. */
  lemma NothingToEdit(register: seq<Entry>, files: map<string, HexText>, lines: seq<string>, text: Option<seq<string>>)
    requires forall j | 0 <= j < |register| && Stale(register[j], files) :: SpotOf(lines, register[j].id).NoHash?
    requires text.None? <==> Unlocated(register, files, lines)
    requires text.Some? ==> OnlyEdited(register, files, lines, text.value)
    ensures text == Some(lines)
  {
    hide SpotOf, Stale, IsHash;
    assert !Unlocated(register, files, lines);
    forall k | 0 <= k < |lines| ensures text.value[k] == lines[k] {
      assert !Edited(register, files, lines, k);
    }
    assert text.value == lines;
  }

  /** A stale document whose block has no hash line is counted as changed, and nothing changes. */
  lemma NoHashLineStillCounts(d: Entry, files: map<string, HexText>, lines: seq<string>, text: Option<seq<string>>, changed: nat)
    requires Stale(d, files) && SpotOf(lines, d.id).NoHash?
    requires Rehashed([d], files, lines, text, changed)
    ensures text == Some(lines) && changed == 1
  {
    assert [d][..0] == [];
    assert CountStale([d], files) == CountStale([], files) + 1;
    NothingToEdit([d], files, lines, text);
  }
}
