/** What the draft re-hash does to the register, said of its lines and of its documents' own fields. */
module RegisterLines {
  import opened Options
  import opened Register

  // ---- lines -------------------------------------------------------------------------------

  /** White space within a line, by number. */
  predicate Blank(c: char) {
    var n := c as int;
    || n == 9 || 11 <= n <= 13 || 28 <= n <= 32 || n == 0x85 || n == 0xA0 || n == 0x1680 || 0x2000 <= n <= 0x200A
    || n == 0x2028 || n == 0x2029 || n == 0x202F || n == 0x205F || n == 0x3000
  }

  predicate Blanks(s: string) { forall i | 0 <= i < |s| :: Blank(s[i]) }

  /** After its indentation the line has this text. */
  predicate BeginsWith(line: string, text: string) {
    exists n, m | 0 <= n <= m <= |line| :: Blanks(line[..n]) && line[n..m] == text
  }

  /** After its indentation the line has this text and then nothing. */
  predicate IsJust(line: string, text: string) {
    exists n, m | 0 <= n <= m <= |line| :: Blanks(line[..n]) && line[n..m] == text && Blanks(line[m..])
  }

  lemma SpaceIs(c: char)
    ensures Space(c) <==> Blank(c)
  {
    assert '\U{1C}' as int == 28 && '\U{1F}' as int == 31 && '\U{2000}' as int == 0x2000 && '\U{200A}' as int == 0x200A;
    assert ' ' as int == 32 && '\t' as int == 9 && '\r' as int == 13 && '\U{0B}' as int == 11 && '\U{0C}' as int == 12
        && '\U{85}' as int == 0x85 && '\U{A0}' as int == 0xA0 && '\U{1680}' as int == 0x1680 && '\U{2028}' as int == 0x2028
        && '\U{2029}' as int == 0x2029 && '\U{202F}' as int == 0x202F && '\U{205F}' as int == 0x205F && '\U{3000}' as int == 0x3000;
  }

  lemma AllSpaceIs(s: string)
    ensures AllSpace(s) <==> Blanks(s)
  {
    hide Space, Blank;
    forall i | 0 <= i < |s| ensures Space(s[i]) <==> Blank(s[i]) {
      SpaceIs(s[i]);
    }
  }

  /** A text that does not begin with a space begins where the indentation ends. */
  lemma IndentAt(line: string, n: nat)
    requires n <= |line| && Blanks(line[..n]) && (n < |line| ==> !Space(line[n]))
    ensures Indent(line) == n
  {
    hide Space, Blank, Blanks;
    AllSpaceIs(line[..n]);
    if n < |line| {
      IndentOf(line[..n], line[n..]);
      assert line[..n] + line[n..] == line;
    } else {
      assert line[..n] == line;
    }
  }

  lemma BeginsIff(line: string, text: string)
    requires text != "" && !Space(text[0])
    ensures text <= line[Indent(line)..] <==> BeginsWith(line, text)
  {
    hide Space, Blanks;
    var k := Indent(line);
    AllSpaceIs(line[..k]);
    if text <= line[k..] {
      assert line[k..][..|text|] == line[k..k + |text|];
    }
    if n, m :| 0 <= n <= m <= |line| && Blanks(line[..n]) && line[n..m] == text {
      assert line[n] == text[0];
      IndentAt(line, n);
      assert line[n..][..m - n] == line[n..m];
    }
  }

  lemma JustIff(line: string, text: string)
    requires text != "" && !Space(text[0])
    ensures text <= line[Indent(line)..] && AllSpace(line[Indent(line) + |text|..]) <==> IsJust(line, text)
  {
    hide Space, Blanks, AllSpace;
    var k := Indent(line);
    AllSpaceIs(line[..k]);
    if text <= line[k..] && AllSpace(line[k + |text|..]) {
      AllSpaceIs(line[k + |text|..]);
      assert line[k..][..|text|] == line[k..k + |text|];
    }
    if n, m :| 0 <= n <= m <= |line| && Blanks(line[..n]) && line[n..m] == text && Blanks(line[m..]) {
      assert line[n] == text[0];
      IndentAt(line, n);
      AllSpaceIs(line[m..]);
      assert line[n..][..m - n] == line[n..m];
    }
  }

  lemma LinesAre(line: string, id: string)
    ensures IsEntry(line) <==> BeginsWith(line, "- document_id: ")
    ensures IsHash(line) <==> BeginsWith(line, "publication_hash: ")
    ensures Opens(line, id) <==> IsJust(line, "- document_id: " + id)
  {
    hide BeginsWith, IsJust, AllSpace;
    assert !Space("- document_id: "[0]) && !Space("publication_hash: "[0]) && ("- document_id: " + id)[0] == '-';
    BeginsIff(line, "- document_id: ");
    BeginsIff(line, "publication_hash: ");
    JustIff(line, "- document_id: " + id);
    assert |ENTRY| + |id| == |"- document_id: " + id|;
  }

  // ---- where the hash of a document stands -----------------------------------------------------

  /** The first hash line after the first line that opens the id, before any other entry. */
  ghost predicate HashAt(lines: seq<string>, id: string, k: nat) {
    k < |lines| && BeginsWith(lines[k], "publication_hash: ")
    && exists i | 0 <= i < k :: OpensFirst(lines, id, i)
         && forall j | i < j < k :: !BeginsWith(lines[j], "- document_id: ") && !BeginsWith(lines[j], "publication_hash: ")
  }

  ghost predicate OpensFirst(lines: seq<string>, id: string, i: nat)
    requires i < |lines|
  {
    IsJust(lines[i], "- document_id: " + id) && forall j | 0 <= j < i :: !IsJust(lines[j], "- document_id: " + id)
  }

  lemma AllLinesAre(lines: seq<string>, id: string)
    ensures forall k | 0 <= k < |lines| :: IsEntry(lines[k]) <==> BeginsWith(lines[k], "- document_id: ")
    ensures forall k | 0 <= k < |lines| :: IsHash(lines[k]) <==> BeginsWith(lines[k], "publication_hash: ")
    ensures forall k | 0 <= k < |lines| :: Opens(lines[k], id) <==> IsJust(lines[k], "- document_id: " + id)
  {
    hide IsEntry, IsHash, Opens, BeginsWith, IsJust;
    forall k | 0 <= k < |lines|
      ensures IsEntry(lines[k]) <==> BeginsWith(lines[k], "- document_id: ")
      ensures IsHash(lines[k]) <==> BeginsWith(lines[k], "publication_hash: ")
      ensures Opens(lines[k], id) <==> IsJust(lines[k], "- document_id: " + id)
    {
      LinesAre(lines[k], id);
    }
  }

  /** The spot the edit works at is that line; there is none exactly when nothing opens the id. */
  lemma SpotIs(lines: seq<string>, id: string)
    ensures forall k: nat :: SpotOf(lines, id) == At(k) <==> HashAt(lines, id, k)
    ensures SpotOf(lines, id) == NoEntry <==> forall k | 0 <= k < |lines| :: !IsJust(lines[k], "- document_id: " + id)
  {
    hide IsEntry, IsHash, Opens, BeginsWith, IsJust;
    AllLinesAre(lines, id);
    var i := Opening(lines, id, 0);
    if i < |lines| {
      assert OpensFirst(lines, id, i);
      forall n | 0 <= n < |lines| && OpensFirst(lines, id, n) ensures n == i {
      }
      OpensIsEntry(lines[i], id);
      if IsHash(lines[i]) {
        HashIsNoEntry(lines[i]);
      }
      var end := NextEntry(lines, i + 1);
      var h := HashLine(lines, i, end);
      forall k: nat ensures SpotOf(lines, id) == At(k) <==> HashAt(lines, id, k) {
        if HashAt(lines, id, k) {
          HashIsNoEntry(lines[k]);
        }
      }
    }
  }

  // ---- documents -------------------------------------------------------------------------------

  /** A draft or a proposal whose file no longer has the hash that is registered, if one is. */
  predicate Outdated(d: Entry, files: map<string, HexText>) {
    && (d.status == "DRAFT" || d.status == "PROPOSED")
    && d.source.Some? && d.source.value in files && d.hash != Some("sha256:" + files[d.source.value])
  }

  lemma StaleIs(d: Entry, files: map<string, HexText>)
    ensures Stale(d, files) <==> Outdated(d, files)
  {
  }

  /** A document draws no finding when both its source and its hash are missing, or when the hash is the
      source's. */
  lemma NoFindingIff(d: Entry, files: map<string, HexText>)
    ensures HashFinding(d, files) == None <==>
      || (d.source == None && d.hash == None)
      || (d.source.Some? && d.source.value in files && d.hash == Some("sha256:" + files[d.source.value]))
  {
  }

  /** Where the outdated documents stand in the register. */
  ghost function OutdatedIn(register: seq<Entry>, files: map<string, HexText>): set<int> {
    set j | 0 <= j < |register| && Outdated(register[j], files)
  }

  lemma OneMore(before: seq<Entry>, d: Entry, files: map<string, HexText>)
    ensures OutdatedIn(before + [d], files) == OutdatedIn(before, files) + (if Outdated(d, files) then {|before|} else {})
    ensures |before| !in OutdatedIn(before, files)
  {
    hide Outdated;
    var all := before + [d];
    assert all[|before|] == d && forall j | 0 <= j < |before| :: all[j] == before[j];
  }

  lemma {:induction false} CountIs(register: seq<Entry>, files: map<string, HexText>)
    ensures CountStale(register, files) == |OutdatedIn(register, files)|
  {
    hide Stale, Outdated, OutdatedIn;
    if register == [] {
      assert OutdatedIn(register, files) == {} by {
        NoneIn(files);
      }
    } else {
      var before, d := register[..|register| - 1], register[|register| - 1];
      assert register == before + [d];
      CountIs(before, files);
      StaleIs(d, files);
      OneMore(before, d, files);
    }
  }

  lemma NoneIn(files: map<string, HexText>)
    ensures OutdatedIn([], files) == {}
  {
  }

  // ---- a run -----------------------------------------------------------------------------------

  /** The indentation stays, and the rest of the line becomes the hash of the document's file, quoted. */
  ghost predicate NowSays(was: string, now: string, d: Entry, files: map<string, HexText>) {
    d.source.Some? && d.source.value in files
    && exists n | 0 <= n <= |was| :: Blanks(was[..n]) && now == was[..n] + "publication_hash: \"sha256:" + files[d.source.value] + "\""
  }

  lemma KeyAndHash(space: string, hash: string)
    ensures space + HASH + "\"" + ("sha256:" + hash) + "\"" == space + "publication_hash: \"sha256:" + hash + "\""
  {
    assert HASH + "\"" + "sha256:" == "publication_hash: \"sha256:";
  }

  lemma RewrittenSays(line: string, d: Entry, files: map<string, HexText>)
    requires Stale(d, files)
    ensures NowSays(line, Rewritten(line, Fresh(d, files)), d, files)
  {
    hide Indent, Space, Blank;
    AllSpaceIs(line[..Indent(line)]);
    KeyAndHash(line[..Indent(line)], files[d.source.value]);
  }

  /** The run fails exactly when an outdated document has no entry. Otherwise it counts the outdated documents,
      leaves every line alone but their hash lines, and with distinct ids each of those says its file's hash. */
  lemma RunRewrites(register: seq<Entry>, files: map<string, HexText>, lines: seq<string>, text: Option<seq<string>>, changed: nat)
    requires Rehashed(register, files, lines, text, changed)
    ensures text == None <==>
      exists j | 0 <= j < |register| :: Outdated(register[j], files)
        && forall k | 0 <= k < |lines| :: !IsJust(lines[k], "- document_id: " + register[j].id)
    ensures text.Some? ==>
      && changed == |OutdatedIn(register, files)|
      && |text.value| == |lines|
      && forall k | 0 <= k < |lines| :: text.value[k] == lines[k] || OutdatedAt(register, files, lines, k)
    ensures text.Some? && DistinctIds(register) ==>
      forall j, k: nat | 0 <= j < |register| && Outdated(register[j], files) && HashAt(lines, register[j].id, k) ::
        k < |text.value| && NowSays(lines[k], text.value[k], register[j], files)
  {
    hide SpotOf, Stale, Outdated, HashAt, IsJust, NowSays, DistinctIds, Rewritten, IsHash, CountStale, OutdatedIn;
    forall j | 0 <= j < |register|
      ensures Stale(register[j], files) <==> Outdated(register[j], files)
      ensures forall k: nat :: SpotOf(lines, register[j].id) == At(k) <==> HashAt(lines, register[j].id, k)
      ensures SpotOf(lines, register[j].id) == NoEntry <==>
                forall k | 0 <= k < |lines| :: !IsJust(lines[k], "- document_id: " + register[j].id)
    {
      StaleIs(register[j], files);
      SpotIs(lines, register[j].id);
    }
    CountIs(register, files);
    if text.Some? && DistinctIds(register) {
      forall j, k: nat | 0 <= j < |register| && Outdated(register[j], files) && HashAt(lines, register[j].id, k)
        ensures k < |text.value| && NowSays(lines[k], text.value[k], register[j], files)
      {
        assert SettledAt(register[j], files, lines, text.value);
        RewrittenSays(lines[k], register[j], files);
      }
    }
  }

  /** The line is the hash line of an outdated document. */
  ghost predicate OutdatedAt(register: seq<Entry>, files: map<string, HexText>, lines: seq<string>, k: nat) {
    exists j | 0 <= j < |register| :: Outdated(register[j], files) && HashAt(lines, register[j].id, k)
  }
}
