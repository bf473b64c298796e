/** The line-by-line scanners over `git log` output in git_utils.py. Each scanner is a
    method with the source's loop and state variables. It is specified by a fold over
    the classified lines: how each line reads, the state after a prefix of the lines,
    and the optional dictionary write or set insertion each line causes. The lemmas
    state what the scans compute. */
module GitLog {
  import opened Wrappers
  import opened Text
  import opened MapFolds
  import opened GitPath

  /** The marker token the log formats put at the start of each commit. */
  const Marker: string := "__COMMIT__"

  // ===================================================================================
  // Path -> timestamp scans
  // ===================================================================================

  /** How a timestamp scan reads one line. `Stamp(None)` is a marker whose payload
      `int(...)` rejects. */
  datatype StampLine = Blank | Stamp(ts: Option<int>) | Named(path: string)

  /** The two scans that map paths to commit timestamps. */
  datatype StampScan =
    | NameOnlyScan(prefix: string)  // oldest-first log, stripped lines, paths scoped to the prefix
    | LastCommitScan                // newest-first log, raw lines, paths kept verbatim

  function ReadStampLine(scan: StampScan, raw: string): StampLine {
    match scan
    case NameOnlyScan(_) =>
      var line := Strip(raw);
      if line == [] then Blank
      else if StartsWith(line, Marker + " ") then
        // `int(line.split(maxsplit=1)[1])`; a stripped marker line always has the field
        Stamp(match SecondField(line) case Some(f) => ParseInt(f) case None => None)
      else Named(line)
    case LastCommitScan =>
      if raw == [] then Blank
      else if StartsWith(raw, Marker) then Stamp(ParseInt(raw[|Marker|..]))
      else Named(raw)
  }

  function StampLines(scan: StampScan, lines: seq<string>): (ls: seq<StampLine>)
    ensures |ls| == |lines|
  {
    if lines == [] then []
    else StampLines(scan, lines[..|lines| - 1]) + [ReadStampLine(scan, lines[|lines| - 1])]
  }

  lemma {:induction false} StampLinesAt(scan: StampScan, lines: seq<string>, k: nat)
    requires k < |lines|
    ensures StampLines(scan, lines)[k] == ReadStampLine(scan, lines[k])
  {
    if k < |lines| - 1 {
      StampLinesAt(scan, lines[..|lines| - 1], k);
    }
  }

  /** The dictionary key a scan records for a path line, if it records one. */
  function StampKey(scan: StampScan, path: string): Option<string> {
    match scan
    case NameOnlyScan(prefix) => ScopedPath(path, prefix)
    case LastCommitScan => Some(path)
  }

  /** Every marker's payload parses, so the scan does not raise. */
  predicate WellFormedStamps(ls: seq<StampLine>) {
    forall i :: 0 <= i < |ls| ==> ls[i] != Stamp(None)
  }

  lemma WellFormedSnoc(ls: seq<StampLine>, l: StampLine)
    requires WellFormedStamps(ls) && l != Stamp(None)
    ensures WellFormedStamps(ls + [l])
  {
  }

  /** `current_timestamp` after scanning `ls`: the payload of the last marker. */
  function CurrentStamp(ls: seq<StampLine>): Option<int> {
    if ls == [] then None
    else if ls[|ls| - 1].Stamp? then ls[|ls| - 1].ts
    else CurrentStamp(ls[..|ls| - 1])
  }

  /** The dictionary write a line causes under the current timestamp `cur`. */
  function StampWrite(scan: StampScan, cur: Option<int>, l: StampLine): Option<(string, int)> {
    if l.Named? && cur.Some? && StampKey(scan, l.path).Some? then Some((StampKey(scan, l.path).value, cur.value))
    else None
  }

  function StampWrites(scan: StampScan, ls: seq<StampLine>): (ws: seq<Option<(string, int)>>)
    ensures |ws| == |ls|
  {
    if ls == [] then []
    else
      var init := ls[..|ls| - 1];
      StampWrites(scan, init) + [StampWrite(scan, CurrentStamp(init), ls[|ls| - 1])]
  }

  /** One more line on top of a scan: the step the scanning loops take. */
  lemma StampSnoc(scan: StampScan, ls: seq<StampLine>, l: StampLine)
    ensures CurrentStamp(ls + [l]) == if l.Stamp? then l.ts else CurrentStamp(ls)
    ensures StampWrites(scan, ls + [l]) == StampWrites(scan, ls) + [StampWrite(scan, CurrentStamp(ls), l)]
  {
    assert (ls + [l])[..|ls|] == ls;
  }

  /** Line `k` names a path the scan records as `p`. */
  predicate NamedAt(scan: StampScan, ls: seq<StampLine>, k: int, p: string)
    requires 0 <= k < |ls|
  {
    ls[k].Named? && StampKey(scan, ls[k].path) == Some(p)
  }

  /** The body of the timestamp pass for one raw line: `ok` is false where `int(...)`
      raises; otherwise the new current timestamp and dictionary. */
  method FileTimestampLine(raw: string, prefix: string, current: Option<int>, stamps: map<string, int>)
      returns (ok: bool, next: Option<int>, nextStamps: map<string, int>)
    ensures var l := ReadStampLine(NameOnlyScan(prefix), raw);
            var w := StampWrite(NameOnlyScan(prefix), current, l);
            (ok <==> l != Stamp(None))
            && (ok ==> next == (if l.Stamp? then l.ts else current)
                       && nextStamps == if w.Some? then stamps[w.value.0 := w.value.1] else stamps)
  {
    ok, next, nextStamps := true, current, stamps;
    var line := Strip(raw);
    if line == [] {
      return;
    }
    if StartsWith(line, Marker + " ") {
      var ts := match SecondField(line) case Some(f) => ParseInt(f) case None => None;
      if ts.None? {
        ok := false;
        return;
      }
      next := ts;
      return;
    }
    if current.None? {
      return;
    }
    var normalizedLine := NormalizeGitPath(line, prefix);
    if normalizedLine.Some? && normalizedLine.value != [] {
      nextStamps := stamps[normalizedLine.value := current.value];
    }
  }

  /** The timestamp pass of collect_git_history_info_with_ignored_modification_commits
      over `git log --reverse --name-only --pretty=format:"__COMMIT__ %ct"`. */
  method ScanFileTimestamps(lines: seq<string>, prefix: string) returns (r: Result<map<string, int>>)
    ensures r.Ok? <==> WellFormedStamps(StampLines(NameOnlyScan(prefix), lines))
    ensures r.Err? ==> r.error == InvalidTimestamp
    ensures r.Ok? ==> r.value == LastWins(StampWrites(NameOnlyScan(prefix), StampLines(NameOnlyScan(prefix), lines)))
  {
    ghost var scan := NameOnlyScan(prefix);
    ghost var ls: seq<StampLine> := [];
    var fileCommitTimestamps: map<string, int> := map[];
    var currentTimestamp: Option<int> := None;
    for i := 0 to |lines|
      invariant ls == StampLines(scan, lines[..i])
      invariant currentTimestamp == CurrentStamp(ls)
      invariant fileCommitTimestamps == LastWins(StampWrites(scan, ls))
      invariant WellFormedStamps(ls)
    {
      assert lines[..i + 1][..i] == lines[..i];
      ghost var l := ReadStampLine(scan, lines[i]);
      StampSnoc(scan, ls, l);
      LastWinsSnoc(StampWrites(scan, ls), StampWrite(scan, CurrentStamp(ls), l));
      var ok;
      ok, currentTimestamp, fileCommitTimestamps :=
        FileTimestampLine(lines[i], prefix, currentTimestamp, fileCommitTimestamps);
      if !ok {
        StampLinesAt(scan, lines, i);
        return Err(InvalidTimestamp);
      }
      WellFormedSnoc(ls, l);
      ls := ls + [l];
    }
    assert lines[..|lines|] == lines;
    return Ok(fileCommitTimestamps);
  }

  /** The body of get_last_commit_timestamps' loop for one line, which is not stripped:
      `ok` is false where `int(...)` raises; a path keeps its first timestamp. */
  method LastCommitLine(line: string, current: Option<int>, stamps: map<string, int>)
      returns (ok: bool, next: Option<int>, nextStamps: map<string, int>)
    ensures var l := ReadStampLine(LastCommitScan, line);
            var w := StampWrite(LastCommitScan, current, l);
            (ok <==> l != Stamp(None))
            && (ok ==> next == (if l.Stamp? then l.ts else current)
                       && nextStamps == if w.Some? && w.value.0 !in stamps then stamps[w.value.0 := w.value.1] else stamps)
  {
    ok, next, nextStamps := true, current, stamps;
    if line == [] {
      return;
    }
    if StartsWith(line, Marker) {
      var ts := ParseInt(line[|Marker|..]);
      if ts.None? {
        ok := false;
        return;
      }
      next := ts;
      return;
    }
    if current.None? {
      return;
    }
    if line !in stamps {
      nextStamps := stamps[line := current.value];
    }
  }

  /** get_last_commit_timestamps' scan over `git log --format=__COMMIT__%ct --name-only`
      (newest first): lines are not stripped and the first timestamp per path is kept. */
  method ScanLastCommitTimestamps(lines: seq<string>) returns (r: Result<map<string, int>>)
    ensures r.Ok? <==> WellFormedStamps(StampLines(LastCommitScan, lines))
    ensures r.Err? ==> r.error == InvalidTimestamp
    ensures r.Ok? ==> r.value == FirstWins(StampWrites(LastCommitScan, StampLines(LastCommitScan, lines)))
  {
    ghost var scan := LastCommitScan;
    ghost var ls: seq<StampLine> := [];
    var lastTimestamps: map<string, int> := map[];
    var currentTimestamp: Option<int> := None;
    for i := 0 to |lines|
      invariant ls == StampLines(scan, lines[..i])
      invariant currentTimestamp == CurrentStamp(ls)
      invariant lastTimestamps == FirstWins(StampWrites(scan, ls))
      invariant WellFormedStamps(ls)
    {
      assert lines[..i + 1][..i] == lines[..i];
      ghost var l := ReadStampLine(scan, lines[i]);
      StampSnoc(scan, ls, l);
      FirstWinsSnoc(StampWrites(scan, ls), StampWrite(scan, CurrentStamp(ls), l));
      var ok;
      ok, currentTimestamp, lastTimestamps := LastCommitLine(lines[i], currentTimestamp, lastTimestamps);
      if !ok {
        StampLinesAt(scan, lines, i);
        return Err(InvalidTimestamp);
      }
      WellFormedSnoc(ls, l);
      ls := ls + [l];
    }
    assert lines[..|lines|] == lines;
    return Ok(lastTimestamps);
  }

  lemma {:induction false} StampWritesAt(scan: StampScan, ls: seq<StampLine>, k: nat)
    requires k < |ls|
    ensures StampWrites(scan, ls)[k] == StampWrite(scan, CurrentStamp(ls[..k]), ls[k])
  {
    var init := ls[..|ls| - 1];
    if k < |init| {
      StampWritesAt(scan, init, k);
      assert init[..k] == ls[..k];
    } else {
      assert init == ls[..k];
    }
  }

  /** The current timestamp is the payload of the last marker seen. */
  lemma {:induction false} CurrentStampSource(ls: seq<StampLine>) returns (j: nat)
    requires CurrentStamp(ls).Some?
    ensures j < |ls| && ls[j] == Stamp(CurrentStamp(ls))
    ensures forall k :: j < k < |ls| ==> !ls[k].Stamp?
  {
    var init := ls[..|ls| - 1];
    if ls[|ls| - 1].Stamp? {
      j := |ls| - 1;
    } else {
      j := CurrentStampSource(init);
      assert forall k :: j < k < |init| ==> ls[k] == init[k];
    }
  }

  lemma {:induction false} NoStampNoCurrent(ls: seq<StampLine>)
    requires forall j :: 0 <= j < |ls| ==> !ls[j].Stamp?
    ensures CurrentStamp(ls) == None
  {
    if ls != [] {
      var init := ls[..|ls| - 1];
      assert forall k :: 0 <= k < |init| ==> init[k] == ls[k];
      NoStampNoCurrent(init);
    }
  }

  /** Before any marker there is no current timestamp; after a parsable one there is. */
  lemma {:induction false} CurrentStampPresent(ls: seq<StampLine>)
    requires WellFormedStamps(ls)
    ensures CurrentStamp(ls).Some? <==> exists j :: 0 <= j < |ls| && ls[j].Stamp?
  {
    if ls != [] {
      var init := ls[..|ls| - 1];
      assert forall k :: 0 <= k < |init| ==> init[k] == ls[k];
      CurrentStampPresent(init);
    }
  }

  /** A line writes `p` exactly when it names `p` and some marker precedes it; the value
      written is the current timestamp. */
  lemma StampWriteAt(scan: StampScan, ls: seq<StampLine>, k: nat, p: string)
    requires k < |ls| && WellFormedStamps(ls)
    ensures WritesKey(StampWrites(scan, ls)[k], p)
            <==> NamedAt(scan, ls, k, p) && exists j :: 0 <= j < k && ls[j].Stamp?
    ensures WritesKey(StampWrites(scan, ls)[k], p)
            ==> Some(StampWrites(scan, ls)[k].value.1) == CurrentStamp(ls[..k])
  {
    StampWritesAt(scan, ls, k);
    assert forall j :: 0 <= j < k ==> ls[..k][j] == ls[j];
    CurrentStampPresent(ls[..k]);
  }

  /** The timestamp pass skips a line that names no path, and every path line that
      precedes every marker. */
  lemma TimestampPassSkips(scan: StampScan, ls: seq<StampLine>, k: nat)
    requires k < |ls|
    requires !ls[k].Named? || forall j :: 0 <= j < k ==> !ls[j].Stamp?
    ensures StampWrites(scan, ls)[k] == None
  {
    StampWritesAt(scan, ls, k);
    if ls[k].Named? {
      assert forall j :: 0 <= j < k ==> ls[..k][j] == ls[j];
      NoStampNoCurrent(ls[..k]);
    }
  }

  /** The timestamp pass (oldest-first log) maps each path to the timestamp of the marker
      that precedes the path's last occurrence: the last write wins. */
  lemma TimestampPassLastWrite(prefix: string, ls: seq<StampLine>, p: string) returns (j: nat, i: nat)
    requires WellFormedStamps(ls)
    requires p in LastWins(StampWrites(NameOnlyScan(prefix), ls))
    ensures j < i < |ls| && NamedAt(NameOnlyScan(prefix), ls, i, p)
    ensures ls[j] == Stamp(Some(LastWins(StampWrites(NameOnlyScan(prefix), ls))[p]))
    ensures forall k :: j < k < i ==> !ls[k].Stamp?
    ensures forall k :: i < k < |ls| ==> !NamedAt(NameOnlyScan(prefix), ls, k, p)
  {
    var scan := NameOnlyScan(prefix);
    var ws := StampWrites(scan, ls);
    i := LastWinsEntry(ws, p);
    StampWriteAt(scan, ls, i, p);
    j := CurrentStampSource(ls[..i]);
    assert ls[..i][j] == ls[j];
    assert forall k :: j < k < i ==> ls[..i][k] == ls[k];
    forall k | i < k < |ls| ensures !NamedAt(scan, ls, k, p) {
      StampWriteAt(scan, ls, k, p);
      assert ls[j].Stamp?;
    }
  }

  /** A path is in the timestamp dictionary iff some line under some marker names it. */
  lemma TimestampPassDomain(scan: StampScan, ls: seq<StampLine>, p: string)
    requires WellFormedStamps(ls)
    ensures p in LastWins(StampWrites(scan, ls))
            <==> exists i, j :: 0 <= j < i < |ls| && NamedAt(scan, ls, i, p) && ls[j].Stamp?
    ensures p in FirstWins(StampWrites(scan, ls))
            <==> exists i, j :: 0 <= j < i < |ls| && NamedAt(scan, ls, i, p) && ls[j].Stamp?
  {
    var ws := StampWrites(scan, ls);
    LastWinsDomain(ws, p);
    FirstWinsDomain(ws, p);
    if exists i :: 0 <= i < |ws| && WritesKey(ws[i], p) {
      var i :| 0 <= i < |ws| && WritesKey(ws[i], p);
      StampWriteAt(scan, ls, i, p);
    }
    if exists i, j :: 0 <= j < i < |ls| && NamedAt(scan, ls, i, p) && ls[j].Stamp? {
      var i, j :| 0 <= j < i < |ls| && NamedAt(scan, ls, i, p) && ls[j].Stamp?;
      StampWriteAt(scan, ls, i, p);
    }
  }

  /** get_last_commit_timestamps (newest-first log) keeps, for each path, the timestamp of
      the marker before its first occurrence under a marker: the first write wins, and
      occurrences before every marker are ignored. */
  lemma LastCommitFirstWrite(ls: seq<StampLine>, p: string) returns (j: nat, i: nat)
    requires WellFormedStamps(ls)
    requires p in FirstWins(StampWrites(LastCommitScan, ls))
    ensures j < i < |ls| && ls[i] == Named(p)
    ensures ls[j] == Stamp(Some(FirstWins(StampWrites(LastCommitScan, ls))[p]))
    ensures forall k :: j < k < i ==> !ls[k].Stamp?
    ensures forall k, m :: 0 <= m < k < i && ls[k] == Named(p) ==> !ls[m].Stamp?
  {
    var scan := LastCommitScan;
    var ws := StampWrites(scan, ls);
    i := FirstWinsEntry(ws, p);
    StampWriteAt(scan, ls, i, p);
    j := CurrentStampSource(ls[..i]);
    assert ls[..i][j] == ls[j];
    assert forall k :: j < k < i ==> ls[..i][k] == ls[k];
    forall k, m | 0 <= m < k < i && ls[k] == Named(p) ensures !ls[m].Stamp? {
      StampWriteAt(scan, ls, k, p);
    }
  }

  // ===================================================================================
  // Name-status scan: added and modified sets
  // ===================================================================================

  /** How the name-status pass reads one (stripped) line. */
  datatype StatusLine = NoStatus | CommitHeader(hash: Option<string>) | StatusEntry(status: string, path: string)

  predicate IsTab(c: char) {
    c == '\t'
  }

  function ReadStatusLine(raw: string): StatusLine {
    var line := Strip(raw);
    if line == [] then NoStatus
    else if StartsWith(line, Marker) then CommitHeader(SecondField(line))
    else SplitAtTab(line)
  }

  /** `line.split("\t", 1)`, which has two parts iff the line holds a tab. */
  function SplitAtTab(line: string): StatusLine {
    var k := Find(line, IsTab);
    if k == |line| then NoStatus else StatusEntry(line[..k], line[k + 1..])
  }

  lemma SplitAtTabEntry(status: string, path: string)
    requires '\t' !in status
    ensures SplitAtTab(status + "\t" + path) == StatusEntry(status, path)
  {
    var s := status + "\t" + path;
    var k := Find(s, IsTab);
    assert s[|status|] == '\t';
    assert forall i :: 0 <= i < |status| ==> s[i] == status[i];
    assert s[..|status|] == status;
    assert s[|status| + 1..] == path;
  }

  function StatusLines(lines: seq<string>): (ls: seq<StatusLine>)
    ensures |ls| == |lines|
  {
    if lines == [] then [] else StatusLines(lines[..|lines| - 1]) + [ReadStatusLine(lines[|lines| - 1])]
  }

  lemma {:induction false} StatusLinesAt(lines: seq<string>, k: nat)
    requires k < |lines|
    ensures StatusLines(lines)[k] == ReadStatusLine(lines[k])
  {
    if k < |lines| - 1 {
      StatusLinesAt(lines[..|lines| - 1], k);
    }
  }

  /** `current_commit_hash` after scanning `ls`. */
  function CurrentCommit(ls: seq<StatusLine>): Option<string> {
    if ls == [] then None
    else if ls[|ls| - 1].CommitHeader? then ls[|ls| - 1].hash
    else CurrentCommit(ls[..|ls| - 1])
  }

  /** The ignored-commit test: the lower-cased current hash (`""` when there is none)
      equals or starts with some entry of the resolved ignored set. */
  predicate IsIgnoredCommit(hash: Option<string>, ignored: set<string>) {
    var h := Lower(hash.GetOr([]));
    exists x :: x in ignored && (h == x || StartsWith(h, x))
  }

  /** The scoped path a status line with the given status letter names. */
  function EntryPath(l: StatusLine, status: string, prefix: string): Option<string> {
    if l.StatusEntry? && l.status == status then ScopedPath(l.path, prefix) else None
  }

  function AddedFiles(ls: seq<StatusLine>, prefix: string): set<string> {
    if ls == [] then {}
    else
      var a := AddedFiles(ls[..|ls| - 1], prefix);
      var p := EntryPath(ls[|ls| - 1], "A", prefix);
      if p.Some? then a + {p.value} else a
  }

  function ModifiedFiles(ls: seq<StatusLine>, prefix: string, ignored: set<string>): set<string> {
    if ls == [] then {}
    else
      var init := ls[..|ls| - 1];
      var m := ModifiedFiles(init, prefix, ignored);
      var p := EntryPath(ls[|ls| - 1], "M", prefix);
      if p.Some? && !IsIgnoredCommit(CurrentCommit(init), ignored) then m + {p.value} else m
  }

  lemma StatusSnoc(ls: seq<StatusLine>, l: StatusLine, prefix: string, ignored: set<string>)
    ensures CurrentCommit(ls + [l]) == if l.CommitHeader? then l.hash else CurrentCommit(ls)
    ensures AddedFiles(ls + [l], prefix)
            == AddedFiles(ls, prefix) + (if EntryPath(l, "A", prefix).Some? then {EntryPath(l, "A", prefix).value} else {})
    ensures ModifiedFiles(ls + [l], prefix, ignored)
            == ModifiedFiles(ls, prefix, ignored)
               + (if EntryPath(l, "M", prefix).Some? && !IsIgnoredCommit(CurrentCommit(ls), ignored)
                  then {EntryPath(l, "M", prefix).value} else {})
  {
    assert (ls + [l])[..|ls|] == ls;
  }

  /** The body of the name-status pass for one raw line: the new current commit and
      the added and modified sets. */
  method NameStatusLine(raw: string, prefix: string, ignored: set<string>, current: Option<string>,
                        added: set<string>, modified: set<string>)
      returns (next: Option<string>, nextAdded: set<string>, nextModified: set<string>)
    ensures var l := ReadStatusLine(raw);
            next == (if l.CommitHeader? then l.hash else current)
            && nextAdded == added + (if EntryPath(l, "A", prefix).Some? then {EntryPath(l, "A", prefix).value} else {})
            && nextModified
               == modified + (if EntryPath(l, "M", prefix).Some? && !IsIgnoredCommit(current, ignored)
                              then {EntryPath(l, "M", prefix).value} else {})
  {
    next, nextAdded, nextModified := current, added, modified;
    var line := Strip(raw);
    if line == [] {
      return;
    }
    if StartsWith(line, Marker) {
      next := SecondField(line);
      return;
    }
    var k := Find(line, IsTab);
    if k == |line| {
      return;
    }
    var status, relPath := line[..k], line[k + 1..];
    var normalizedPath := NormalizeGitPath(relPath, prefix);
    if normalizedPath.None? || normalizedPath.value == [] {
      return;
    }
    if status == "A" {
      nextAdded := added + {normalizedPath.value};
    } else if status == "M" {
      var commitIsIgnored := IsIgnoredCommit(current, ignored);
      if !commitIsIgnored {
        nextModified := modified + {normalizedPath.value};
      }
    }
  }

  /** The name-status pass over `git log --name-status --pretty=format:"__COMMIT__ %H"`. */
  method ScanNameStatus(lines: seq<string>, prefix: string, ignored: set<string>)
      returns (added: set<string>, modified: set<string>)
    ensures added == AddedFiles(StatusLines(lines), prefix)
    ensures modified == ModifiedFiles(StatusLines(lines), prefix, ignored)
  {
    ghost var ls: seq<StatusLine> := [];
    added, modified := {}, {};
    var currentCommitHash: Option<string> := None;
    for i := 0 to |lines|
      invariant ls == StatusLines(lines[..i])
      invariant currentCommitHash == CurrentCommit(ls)
      invariant added == AddedFiles(ls, prefix)
      invariant modified == ModifiedFiles(ls, prefix, ignored)
    {
      assert lines[..i + 1][..i] == lines[..i];
      ghost var l := ReadStatusLine(lines[i]);
      StatusSnoc(ls, l, prefix, ignored);
      currentCommitHash, added, modified :=
        NameStatusLine(lines[i], prefix, ignored, currentCommitHash, added, modified);
      ls := ls + [l];
    }
    assert lines[..|lines|] == lines;
  }

  /** Since every string starts with itself, the exact-match half of the test is
      subsumed: a commit is ignored iff its lower-cased hash has an ignored prefix. */
  lemma IgnoredIsPrefixMatch(hash: Option<string>, ignored: set<string>)
    ensures IsIgnoredCommit(hash, ignored)
            <==> exists x :: x in ignored && StartsWith(Lower(hash.GetOr([])), x)
  {
    var h := Lower(hash.GetOr([]));
    if IsIgnoredCommit(hash, ignored) {
      var x :| x in ignored && (h == x || StartsWith(h, x));
      assert StartsWith(h, x);
    }
  }

  /** With nothing ignored, no commit is ignored; a commit with no hash is ignored only
      when the ignored set holds the empty string. */
  lemma IgnoredEdgeCases(hash: Option<string>, ignored: set<string>)
    ensures !IsIgnoredCommit(hash, {})
    ensures IsIgnoredCommit(None, ignored) <==> [] in ignored
  {
    if IsIgnoredCommit(None, ignored) {
      var x :| x in ignored && ([] == x || StartsWith([], x));
    }
    if [] in ignored {
      assert StartsWith(Lower([]), []);
    }
  }

  /** A path is added iff some `A` line names it; the ignored set plays no part. */
  lemma {:induction false} AddedFilesMembers(ls: seq<StatusLine>, prefix: string, p: string)
    ensures p in AddedFiles(ls, prefix) <==> exists i :: 0 <= i < |ls| && EntryPath(ls[i], "A", prefix) == Some(p)
  {
    if ls != [] {
      var init := ls[..|ls| - 1];
      AddedFilesMembers(init, prefix, p);
      assert forall i :: 0 <= i < |init| ==> init[i] == ls[i];
    }
  }

  /** A path is modified iff some `M` line names it in a commit that is not ignored. */
  lemma {:induction false} ModifiedFilesMembers(ls: seq<StatusLine>, prefix: string, ignored: set<string>, p: string)
    ensures p in ModifiedFiles(ls, prefix, ignored)
            <==> exists i :: 0 <= i < |ls| && EntryPath(ls[i], "M", prefix) == Some(p)
                             && !IsIgnoredCommit(CurrentCommit(ls[..i]), ignored)
  {
    if ls != [] {
      var init := ls[..|ls| - 1];
      ModifiedFilesMembers(init, prefix, ignored, p);
      assert forall i :: 0 <= i < |init| ==> init[i] == ls[i] && init[..i] == ls[..i];
    }
  }

  /** Ignoring more commits can only remove paths from the modified set. */
  lemma {:induction false} ModifiedFilesAntitone(ls: seq<StatusLine>, prefix: string, fewer: set<string>, more: set<string>)
    requires fewer <= more
    ensures ModifiedFiles(ls, prefix, more) <= ModifiedFiles(ls, prefix, fewer)
  {
    if ls != [] {
      ModifiedFilesAntitone(ls[..|ls| - 1], prefix, fewer, more);
    }
  }

  /** The current hash is the second field of the last marker line, if any. */
  lemma {:induction false} CurrentCommitSource(ls: seq<StatusLine>) returns (j: nat)
    requires CurrentCommit(ls).Some?
    ensures j < |ls| && ls[j] == CommitHeader(CurrentCommit(ls))
    ensures forall k :: j < k < |ls| ==> !ls[k].CommitHeader?
  {
    var init := ls[..|ls| - 1];
    if ls[|ls| - 1].CommitHeader? {
      j := |ls| - 1;
    } else {
      j := CurrentCommitSource(init);
      assert forall k :: j < k < |init| ==> ls[k] == init[k];
    }
  }

  /** A status line in the source's format reads as that entry. */
  lemma ReadStatusEntry(status: string, path: string)
    requires status != [] && IsStripped(status + "\t" + path) && !StartsWith(status + "\t" + path, Marker)
    requires '\t' !in status
    ensures ReadStatusLine(status + "\t" + path) == StatusEntry(status, path)
  {
    StripOfStripped(status + "\t" + path);
    SplitAtTabEntry(status, path);
  }

  // ===================================================================================
  // Description scan
  // ===================================================================================

  /** FileCommitDescription: the last commit touching a file (hash, formatted date, subject). */
  datatype FileCommitDescription = FileCommitDescription(commitHash: string, commitDate: string, description: string)

  /** How the description scan reads one line: blank, the bare marker, or stripped text. */
  datatype DescLine = DescBlank | DescMarker | DescText(text: string)

  function ReadDescLine(raw: string): DescLine {
    var line := Strip(raw);
    if line == [] then DescBlank else if line == Marker then DescMarker else DescText(line)
  }

  function DescLines(lines: seq<string>): (ls: seq<DescLine>)
    ensures |ls| == |lines|
  {
    if lines == [] then [] else DescLines(lines[..|lines| - 1]) + [ReadDescLine(lines[|lines| - 1])]
  }

  /** `current_commit_hash`, `current_commit_date`, `current_commit_subject`. */
  datatype DescriptionCursor = DescriptionCursor(hash: Option<string>, date: Option<string>, subject: Option<string>)
  {
    predicate Complete() {
      hash.Some? && date.Some? && subject.Some?
    }
  }

  const NoCommit := DescriptionCursor(None, None, None)

  /** The cursor's three fields fill in order: hash, then date, then subject. */
  predicate FillsInOrder(cur: DescriptionCursor) {
    (cur.subject.Some? ==> cur.date.Some?) && (cur.date.Some? ==> cur.hash.Some?)
  }

  function DescriptionStep(cur: DescriptionCursor, l: DescLine): DescriptionCursor {
    match l
    case DescBlank => cur
    case DescMarker => NoCommit
    case DescText(line) =>
      if cur.hash.None? then cur.(hash := Some(line))
      else if cur.date.None? then cur.(date := Some(line))
      else if cur.subject.None? then cur.(subject := Some(line))
      else cur
  }

  /** The dictionary write a line causes: a path line, once hash, date and subject are known. */
  function DescriptionWrite(cur: DescriptionCursor, l: DescLine, prefix: string)
    : Option<(string, Option<FileCommitDescription>)>
  {
    if l.DescText? && cur.Complete() && ScopedPath(l.text, prefix).Some? then
      Some((ScopedPath(l.text, prefix).value, Some(FileCommitDescription(cur.hash.value, cur.date.value, cur.subject.value))))
    else None
  }

  function CursorAfter(ls: seq<DescLine>): DescriptionCursor {
    if ls == [] then NoCommit
    else DescriptionStep(CursorAfter(ls[..|ls| - 1]), ls[|ls| - 1])
  }

  function DescriptionWrites(ls: seq<DescLine>, prefix: string): (ws: seq<Option<(string, Option<FileCommitDescription>)>>)
    ensures |ws| == |ls|
  {
    if ls == [] then []
    else
      var init := ls[..|ls| - 1];
      DescriptionWrites(init, prefix) + [DescriptionWrite(CursorAfter(init), ls[|ls| - 1], prefix)]
  }

  /** The body of the description scan for one raw line: the new hash, date and subject
      of the current commit, and the dictionary. */
  method DescriptionLine(raw: string, prefix: string, hash: Option<string>, date: Option<string>,
                         subject: Option<string>, descriptions: map<string, Option<FileCommitDescription>>)
      returns (nextHash: Option<string>, nextDate: Option<string>, nextSubject: Option<string>,
               nextDescriptions: map<string, Option<FileCommitDescription>>)
    ensures var cur := DescriptionCursor(hash, date, subject);
            var l := ReadDescLine(raw);
            var w := DescriptionWrite(cur, l, prefix);
            DescriptionCursor(nextHash, nextDate, nextSubject) == DescriptionStep(cur, l)
            && nextDescriptions == if w.Some? then descriptions[w.value.0 := w.value.1] else descriptions
  {
    nextHash, nextDate, nextSubject, nextDescriptions := hash, date, subject, descriptions;
    var line := Strip(raw);
    if line == [] {
    } else if line == Marker {
      nextHash, nextDate, nextSubject := None, None, None;
    } else if hash.None? {
      nextHash := Some(line);
    } else if date.None? {
      nextDate := Some(line);
    } else if subject.None? {
      nextSubject := Some(line);
    } else {
      var normalizedPath := NormalizeGitPath(line, prefix);
      if normalizedPath.Some? && normalizedPath.value != [] {
        nextDescriptions := descriptions[normalizedPath.value :=
          Some(FileCommitDescription(hash.value, date.value, subject.value))];
      }
    }
  }

  /** The scan of collect_recent_file_descriptions over
      `git log --reverse --name-only --pretty=format:__COMMIT__%n%H%n%ad%n%s`. */
  method ScanDescriptions(lines: seq<string>, prefix: string)
      returns (descriptions: map<string, Option<FileCommitDescription>>)
    ensures descriptions == LastWins(DescriptionWrites(DescLines(lines), prefix))
  {
    ghost var ls: seq<DescLine> := [];
    descriptions := map[];
    var currentHash: Option<string> := None;
    var currentDate: Option<string> := None;
    var currentSubject: Option<string> := None;
    for i := 0 to |lines|
      invariant ls == DescLines(lines[..i])
      invariant DescriptionCursor(currentHash, currentDate, currentSubject) == CursorAfter(ls)
      invariant descriptions == LastWins(DescriptionWrites(ls, prefix))
    {
      assert lines[..i + 1][..i] == lines[..i];
      ghost var l := ReadDescLine(lines[i]);
      assert (ls + [l])[..|ls|] == ls;
      LastWinsSnoc(DescriptionWrites(ls, prefix), DescriptionWrite(CursorAfter(ls), l, prefix));
      currentHash, currentDate, currentSubject, descriptions :=
        DescriptionLine(lines[i], prefix, currentHash, currentDate, currentSubject, descriptions);
      ls := ls + [l];
    }
    assert lines[..|lines|] == lines;
  }

  lemma {:induction false} CursorFillsInOrder(ls: seq<DescLine>)
    ensures FillsInOrder(CursorAfter(ls))
  {
    if ls != [] {
      CursorFillsInOrder(ls[..|ls| - 1]);
    }
  }

  /** After a marker line, the next three text lines become hash, date and subject,
      whatever state the scan was in. */
  lemma DescriptionHeader(before: seq<DescLine>, h: string, d: string, s: string)
    ensures CursorAfter(before + [DescMarker, DescText(h), DescText(d), DescText(s)])
            == DescriptionCursor(Some(h), Some(d), Some(s))
  {
    var l1 := before + [DescMarker];
    var l2 := l1 + [DescText(h)];
    var l3 := l2 + [DescText(d)];
    var l4 := l3 + [DescText(s)];
    assert l1[..|l1| - 1] == before;
    assert l2[..|l2| - 1] == l1;
    assert l3[..|l3| - 1] == l2;
    assert l4[..|l4| - 1] == l3;
    assert CursorAfter(l1) == NoCommit;
    assert CursorAfter(l2) == DescriptionCursor(Some(h), None, None);
    assert CursorAfter(l3) == DescriptionCursor(Some(h), Some(d), None);
    assert l4 == before + [DescMarker, DescText(h), DescText(d), DescText(s)];
  }

  /** A raw line that is neither blank nor the marker reads as its stripped text. */
  lemma ReadDescText(raw: string)
    requires Strip(raw) != [] && Strip(raw) != Marker
    ensures ReadDescLine(raw) == DescText(Strip(raw))
  {
  }

  lemma {:induction false} DescriptionWritesAt(ls: seq<DescLine>, prefix: string, k: nat)
    requires k < |ls|
    ensures DescriptionWrites(ls, prefix)[k] == DescriptionWrite(CursorAfter(ls[..k]), ls[k], prefix)
  {
    var init := ls[..|ls| - 1];
    if k < |init| {
      DescriptionWritesAt(init, prefix, k);
      assert init[..k] == ls[..k];
    } else {
      assert init == ls[..k];
    }
  }

  /** Each recorded path holds the (hash, date, subject) that was current at the last
      line recorded for it; a path is only recorded once all three are known, so the
      dictionary never holds `None`. */
  lemma DescriptionLastWrite(ls: seq<DescLine>, prefix: string, p: string) returns (i: nat)
    requires p in LastWins(DescriptionWrites(ls, prefix))
    ensures i < |ls| && ls[i].DescText? && ScopedPath(ls[i].text, prefix) == Some(p)
    ensures CursorAfter(ls[..i]).Complete()
    ensures var cur := CursorAfter(ls[..i]);
            LastWins(DescriptionWrites(ls, prefix))[p]
            == Some(FileCommitDescription(cur.hash.value, cur.date.value, cur.subject.value))
    ensures forall k :: i < k < |ls| ==> !WritesKey(DescriptionWrites(ls, prefix)[k], p)
  {
    var ws := DescriptionWrites(ls, prefix);
    i := LastWinsEntry(ws, p);
    DescriptionWritesAt(ls, prefix, i);
  }
}
