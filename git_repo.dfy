/** The git-facing operations of git_utils.py. git itself is an oracle: a function from
    one invocation (`git -C <root> <args...>`) to its completed process. A `GitGateway`
    holds that oracle and records every invocation issued through it, so that the
    contracts can say which queries an operation makes. */
module GitRepo {
  import opened Wrappers
  import opened Text
  import opened MapFolds
  import opened GitPath
  import opened GitLog

  /** `git -C <root> <args...>` */
  datatype GitCall = GitCall(root: string, args: seq<string>)

  /** `subprocess.CompletedProcess`: exit code and captured text streams. */
  datatype Completed = Completed(returncode: int, stdout: string, stderr: string)

  class GitGateway {
    /** What git answers to each invocation. */
    const git: GitCall -> Completed
    /** Every invocation issued so far, in order. */
    var issued: seq<GitCall>

    constructor (git: GitCall -> Completed)
      ensures this.git == git && issued == []
    {
      this.git := git;
      issued := [];
    }

    /** run_git_command: issue one invocation and return what git answers. */
    method Run(root: string, args: seq<string>) returns (c: Completed)
      modifies this
      ensures c == git(GitCall(root, args))
      ensures issued == old(issued) + [GitCall(root, args)]
    {
      c := git(GitCall(root, args));
      issued := issued + [GitCall(root, args)];
    }
  }

  // ===================================================================================
  // The invocations
  // ===================================================================================

  const DateFormat := "--date=format:%Y-%m-%d %H:%M:%S %z"
  const IsInsideWorkTreeArgs: seq<string> := ["rev-parse", "--is-inside-work-tree"]
  const DescriptionLogArgs: seq<string> :=
    ["log", "--first-parent", "--reverse", "--name-only", DateFormat,
     "--pretty=format:__COMMIT__%n%H%n%ad%n%s", "--diff-filter=AM", "HEAD"]
  const TimestampLogArgs: seq<string> :=
    ["log", "--first-parent", "--reverse", "--name-only", "--pretty=format:__COMMIT__ %ct",
     "--diff-filter=AM", "HEAD"]
  const StatusLogArgs: seq<string> :=
    ["log", "--first-parent", "--name-status", "--pretty=format:__COMMIT__ %H", "--diff-filter=AM", "HEAD"]

  function SingleFileLogArgs(relPath: string): seq<string> {
    ["log", "--first-parent", "-1", DateFormat, "--format=%H%n%ad%n%s", "--", relPath]
  }

  function IsAncestorArgs(ancestor: string, descendant: string): seq<string> {
    ["merge-base", "--is-ancestor", ancestor, descendant]
  }

  function VerifyCommitArgs(commit: string): seq<string> {
    ["rev-parse", "--verify", commit + "^{commit}"]
  }

  function LsFilesArgs(pathspecs: seq<string>): seq<string> {
    ["ls-files", "-z", "--"] + pathspecs
  }

  function LastCommitLogArgs(pathspecs: seq<string>): seq<string> {
    ["log", "--format=__COMMIT__%ct", "--name-only", "--"] + pathspecs
  }

  // ===================================================================================
  // run_git_stdout, is_git_repo
  // ===================================================================================

  /** The error rule of run_git_stdout: a non-zero exit raises with the stripped stderr,
      or a fixed message when stderr is blank. */
  function StdoutOrError(c: Completed): (r: Result<string>)
    ensures r.Ok? <==> c.returncode == 0
    ensures r.Ok? ==> r.value == c.stdout
  {
    if c.returncode != 0 then
      Err(RuntimeError(if Strip(c.stderr) == [] then "git command failed" else Strip(c.stderr)))
    else Ok(c.stdout)
  }

  /** The error message is never empty and never carries surrounding whitespace. */
  lemma StdoutOrErrorMessage(c: Completed)
    requires c.returncode != 0
    ensures StdoutOrError(c).Err? && StdoutOrError(c).error.RuntimeError?
    ensures var m := StdoutOrError(c).error.message; m != [] && IsStripped(m)
    ensures Strip(c.stderr) != [] ==> StdoutOrError(c).error.message == Strip(c.stderr)
  {
    StripIsStripped(c.stderr);
  }

  method RunGitStdout(gw: GitGateway, root: string, args: seq<string>) returns (r: Result<string>)
    modifies gw
    ensures r == StdoutOrError(gw.git(GitCall(root, args)))
    ensures gw.issued == old(gw.issued) + [GitCall(root, args)]
  {
    var completed := gw.Run(root, args);
    r := StdoutOrError(completed);
  }

  /** `rev-parse --is-inside-work-tree` succeeded and printed "true" (in any case). */
  predicate ReportsWorkTree(c: Completed) {
    c.returncode == 0 && Lower(Strip(c.stdout)) == "true"
  }

  /** A successful answer printing one word, with or without its line break, reports a
      work tree iff that word lower-cases to "true". */
  lemma ReportsWorkTreeWord(word: string, err: string)
    requires word != [] && IsStripped(word)
    ensures ReportsWorkTree(Completed(0, word + "\n", err)) <==> Lower(word) == "true"
    ensures ReportsWorkTree(Completed(0, word, err)) <==> Lower(word) == "true"
    ensures forall rc: int :: rc != 0 ==> !ReportsWorkTree(Completed(rc, word, err))
  {
    StripLineEnd(word);
    StripOfStripped(word);
  }

  method IsGitRepo(gw: GitGateway, root: string) returns (b: bool)
    modifies gw
    ensures b == ReportsWorkTree(gw.git(GitCall(root, IsInsideWorkTreeArgs)))
    ensures gw.issued == old(gw.issued) + [GitCall(root, IsInsideWorkTreeArgs)]
  {
    var repoCheck := gw.Run(root, IsInsideWorkTreeArgs);
    b := repoCheck.returncode == 0 && Lower(Strip(repoCheck.stdout)) == "true";
  }

  // ===================================================================================
  // list_tracked_files, get_last_commit_timestamps
  // ===================================================================================

  /** `[item for item in output.split("\0") if item]` */
  function NonEmptyPieces(pieces: seq<string>): (r: seq<string>)
    ensures forall i :: 0 <= i < |r| ==> r[i] != []
    ensures forall x :: x in r <==> x in pieces && x != []
  {
    if pieces == [] then []
    else if pieces[0] == [] then NonEmptyPieces(pieces[1..])
    else [pieces[0]] + NonEmptyPieces(pieces[1..])
  }

  function TrackedEntries(output: string): (r: seq<string>)
    ensures forall i :: 0 <= i < |r| ==> r[i] != [] && '\0' !in r[i]
  {
    var pieces := SplitOn(output, '\0');
    var r := NonEmptyPieces(pieces);
    assert forall i :: 0 <= i < |r| ==> r[i] in pieces by {
      forall i | 0 <= i < |r| ensures r[i] in pieces {
        assert r[i] in r;
      }
    }
    r
  }

  /** What `git ls-files -z` prints: each entry followed by a NUL. */
  function NulTerminated(items: seq<string>): string {
    if items == [] then [] else items[0] + "\0" + NulTerminated(items[1..])
  }

  lemma SplitOnFirst(item: string, rest: string)
    requires '\0' !in item
    ensures SplitOn(item + "\0" + rest, '\0') == [item] + SplitOn(rest, '\0')
  {
    var s := item + "\0" + rest;
    var k := IndexOf(s, '\0');
    assert forall i :: 0 <= i < |item| ==> s[i] == item[i];
    assert s[|item|] == '\0';
    assert k == |item|;
    assert s[..k] == item;
    assert s[k + 1..] == rest;
  }

  /** list_tracked_files reads back exactly the entries `git ls-files -z` printed. */
  lemma {:induction false} TrackedEntriesRoundTrip(items: seq<string>)
    requires forall i :: 0 <= i < |items| ==> items[i] != [] && '\0' !in items[i]
    ensures TrackedEntries(NulTerminated(items)) == items
  {
    if items == [] {
      assert SplitOn([], '\0') == [[]];
      assert NonEmptyPieces([[]]) == NonEmptyPieces([]);
    } else {
      var rest := SplitOn(NulTerminated(items[1..]), '\0');
      SplitOnFirst(items[0], NulTerminated(items[1..]));
      assert ([items[0]] + rest)[1..] == rest;
      TrackedEntriesRoundTrip(items[1..]);
    }
  }

  /** list_tracked_files: the entries, joined onto the repository root. */
  method ListTrackedFiles(gw: GitGateway, root: string, pathspecs: seq<string>) returns (r: Result<seq<string>>)
    modifies gw
    ensures gw.issued == old(gw.issued) + [GitCall(root, LsFilesArgs(pathspecs))]
    ensures var out := StdoutOrError(gw.git(GitCall(root, LsFilesArgs(pathspecs))));
            (r.Ok? <==> out.Ok?)
            && (r.Err? ==> r.error == out.error)
            && (r.Ok? ==> |r.value| == |TrackedEntries(out.value)|
                          && forall i :: 0 <= i < |r.value| ==> r.value[i] == root + "/" + TrackedEntries(out.value)[i])
  {
    var output := RunGitStdout(gw, root, LsFilesArgs(pathspecs));
    if output.Err? {
      return Err(output.error);
    }
    var entries := TrackedEntries(output.value);
    var paths := seq(|entries|, i requires 0 <= i < |entries| => root + "/" + entries[i]);
    return Ok(paths);
  }

  /** get_last_commit_timestamps: a failing `git log` raises; a malformed marker raises;
      otherwise the newest-first scan (first write wins). */
  method GetLastCommitTimestamps(gw: GitGateway, root: string, pathspecs: seq<string>)
      returns (r: Result<map<string, int>>)
    modifies gw
    ensures gw.issued == old(gw.issued) + [GitCall(root, LastCommitLogArgs(pathspecs))]
    ensures var out := StdoutOrError(gw.git(GitCall(root, LastCommitLogArgs(pathspecs))));
            (out.Err? ==> r == Err(out.error))
            && (out.Ok? ==> var ls := StampLines(LastCommitScan, SplitLines(out.value));
                            if WellFormedStamps(ls) then r == Ok(FirstWins(StampWrites(LastCommitScan, ls)))
                            else r == Err(InvalidTimestamp))
  {
    var output := RunGitStdout(gw, root, LastCommitLogArgs(pathspecs));
    if output.Err? {
      return Err(output.error);
    }
    r := ScanLastCommitTimestamps(SplitLines(output.value));
  }

  // ===================================================================================
  // Repository metadata and the description cache
  // ===================================================================================

  /** The description dictionary collect_recent_file_descriptions builds from its log. */
  function DescriptionsOf(c: Completed, prefix: string): map<string, Option<FileCommitDescription>> {
    if c.returncode != 0 then map[] else LastWins(DescriptionWrites(DescLines(SplitLines(c.stdout)), prefix))
  }

  /** The recent-descriptions dictionary never holds `None`. */
  lemma DescriptionsOfPresent(c: Completed, prefix: string, p: string)
    requires p in DescriptionsOf(c, prefix)
    ensures DescriptionsOf(c, prefix)[p].Some?
  {
    var i := DescriptionLastWrite(DescLines(SplitLines(c.stdout)), prefix, p);
  }

  method CollectRecentFileDescriptions(gw: GitGateway, root: string, prefix: string)
      returns (descriptions: map<string, Option<FileCommitDescription>>)
    modifies gw
    ensures descriptions == DescriptionsOf(gw.git(GitCall(root, DescriptionLogArgs)), prefix)
    ensures gw.issued == old(gw.issued) + [GitCall(root, DescriptionLogArgs)]
  {
    var result := gw.Run(root, DescriptionLogArgs);
    if result.returncode != 0 {
      return map[];
    }
    descriptions := ScanDescriptions(SplitLines(result.stdout), prefix);
  }

  /** RepoMetadata: the root, whether it is a git work tree, and the description cache
      that get_file_description fills in place. */
  class RepoMetadata {
    const root: string
    const isGitRepo: bool
    var descriptionCache: map<string, Option<FileCommitDescription>>

    constructor (root: string, isGitRepo: bool, descriptionCache: map<string, Option<FileCommitDescription>>)
      ensures this.root == root && this.isGitRepo == isGitRepo && this.descriptionCache == descriptionCache
    {
      this.root := root;
      this.isGitRepo := isGitRepo;
      this.descriptionCache := descriptionCache;
    }
  }

  /** build_repo_metadata: a work tree gets its cache pre-filled from one log query. */
  method BuildRepoMetadata(gw: GitGateway, root: string, prefix: string) returns (repo: RepoMetadata)
    modifies gw
    ensures fresh(repo)
    ensures repo.root == root
    ensures repo.isGitRepo == ReportsWorkTree(gw.git(GitCall(root, IsInsideWorkTreeArgs)))
    ensures repo.descriptionCache
            == if repo.isGitRepo then DescriptionsOf(gw.git(GitCall(root, DescriptionLogArgs)), prefix) else map[]
    ensures gw.issued == old(gw.issued) + [GitCall(root, IsInsideWorkTreeArgs)]
                         + (if repo.isGitRepo then [GitCall(root, DescriptionLogArgs)] else [])
  {
    var repoIsGit := IsGitRepo(gw, root);
    var descriptionCache: map<string, Option<FileCommitDescription>> := map[];
    if repoIsGit {
      descriptionCache := CollectRecentFileDescriptions(gw, root, prefix);
    }
    repo := new RepoMetadata(root, repoIsGit, descriptionCache);
  }

  /** `[line.strip() for line in lines if line.strip()]` */
  function StrippedNonBlank(lines: seq<string>): (r: seq<string>)
    ensures |r| <= |lines|
    ensures forall i :: 0 <= i < |r| ==> r[i] != [] && IsStripped(r[i])
  {
    if lines == [] then []
    else
      StripIsStripped(lines[0]);
      var rest := StrippedNonBlank(lines[1..]);
      if Strip(lines[0]) == [] then rest else [Strip(lines[0])] + rest
  }

  lemma {:induction false} StrippedNonBlankOfStripped(lines: seq<string>)
    requires forall i :: 0 <= i < |lines| ==> lines[i] != [] && IsStripped(lines[i])
    ensures StrippedNonBlank(lines) == lines
  {
    if lines != [] {
      StripOfStripped(lines[0]);
      StrippedNonBlankOfStripped(lines[1..]);
    }
  }

  /** What a single-file `git log -1 --format=%H%n%ad%n%s` answer describes: nothing when
      git fails or prints fewer than three non-blank lines. */
  function SingleFileDescription(c: Completed): Option<FileCommitDescription> {
    if c.returncode != 0 then None
    else
      var lines := StrippedNonBlank(SplitLines(c.stdout));
      if |lines| < 3 then None else Some(FileCommitDescription(lines[0], lines[1], lines[2]))
  }

  /** The three printed lines are read back as hash, date and subject. */
  lemma SingleFileRoundTrip(h: string, d: string, s: string, err: string)
    requires forall x :: x in [h, d, s] ==> x != [] && IsStripped(x) && NoLineBreak(x)
    ensures SingleFileDescription(Completed(0, JoinLines([h, d, s]), err)) == Some(FileCommitDescription(h, d, s))
  {
    var lines := [h, d, s];
    assert forall i :: 0 <= i < 3 ==> lines[i] in lines;
    SplitLinesJoinLines(lines);
    StrippedNonBlankOfStripped(lines);
  }

  /** The number of lines that are not blank once stripped. */
  function NonBlankCount(lines: seq<string>): nat {
    if lines == [] then 0
    else (if Strip(lines[0]) == [] then 0 else 1) + NonBlankCount(lines[1..])
  }

  lemma {:induction false} StrippedNonBlankCount(lines: seq<string>)
    ensures |StrippedNonBlank(lines)| == NonBlankCount(lines)
  {
    if lines != [] {
      StrippedNonBlankCount(lines[1..]);
    }
  }

  lemma {:induction false} StrippedNonBlankConcat(a: seq<string>, b: seq<string>)
    ensures StrippedNonBlank(a + b) == StrippedNonBlank(a) + StrippedNonBlank(b)
  {
    if a == [] {
      assert a + b == b;
    } else {
      assert (a + b)[0] == a[0] && (a + b)[1..] == a[1..] + b;
      StrippedNonBlankConcat(a[1..], b);
    }
  }

  /** A failed answer, or one with fewer than three non-blank lines (such as a commit with
      an empty subject), describes nothing. */
  lemma SingleFileShort(c: Completed)
    requires c.returncode != 0 || NonBlankCount(SplitLines(c.stdout)) < 3
    ensures SingleFileDescription(c) == None
  {
    StrippedNonBlankCount(SplitLines(c.stdout));
  }

  /** Dropping a blank line leaves the non-blank lines as they were. */
  lemma StrippedNonBlankSkipsBlank(a: seq<string>, b: string, z: seq<string>)
    requires Strip(b) == []
    ensures StrippedNonBlank(a + [b] + z) == StrippedNonBlank(a + z)
  {
    assert a + [b] + z == a + ([b] + z);
    StrippedNonBlankConcat(a, [b] + z);
    assert ([b] + z)[1..] == z;
    StrippedNonBlankConcat(a, z);
  }

  /** An answer printed as separate lines is described by its non-blank lines alone. */
  lemma SingleFileOfLines(ls: seq<string>, err: string)
    requires forall i :: 0 <= i < |ls| ==> NoLineBreak(ls[i])
    ensures var n := StrippedNonBlank(ls);
            SingleFileDescription(Completed(0, JoinLines(ls), err))
            == if |n| < 3 then None else Some(FileCommitDescription(n[0], n[1], n[2]))
  {
    SplitLinesJoinLines(ls);
  }

  /** Blank lines anywhere in the answer are ignored: removing one changes nothing. */
  lemma SingleFileIgnoresBlankLine(a: seq<string>, b: string, z: seq<string>, err: string)
    requires forall i :: 0 <= i < |a| ==> NoLineBreak(a[i])
    requires forall i :: 0 <= i < |z| ==> NoLineBreak(z[i])
    requires NoLineBreak(b) && Strip(b) == []
    ensures SingleFileDescription(Completed(0, JoinLines(a + [b] + z), err))
            == SingleFileDescription(Completed(0, JoinLines(a + z), err))
  {
    var with := a + [b] + z;
    forall i | 0 <= i < |with| ensures NoLineBreak(with[i]) {
      if i < |a| { assert with[i] == a[i]; }
      else if i > |a| { assert with[i] == z[i - |a| - 1]; }
    }
    var without := a + z;
    forall i | 0 <= i < |without| ensures NoLineBreak(without[i]) {
      if i < |a| { assert without[i] == a[i]; }
      else { assert without[i] == z[i - |a|]; }
    }
    SingleFileOfLines(with, err);
    SingleFileOfLines(without, err);
    StrippedNonBlankSkipsBlank(a, b, z);
  }

  /** get_file_description: a cached answer (including `None`) is returned without a
      query; otherwise the answer is computed, cached, and returned. */
  method GetFileDescription(gw: GitGateway, repo: RepoMetadata, relPath: string)
      returns (description: Option<FileCommitDescription>)
    modifies gw, repo
    ensures relPath in old(repo.descriptionCache) ==>
              description == old(repo.descriptionCache)[relPath]
              && repo.descriptionCache == old(repo.descriptionCache)
              && gw.issued == old(gw.issued)
    ensures relPath !in old(repo.descriptionCache) ==>
              description == (if repo.isGitRepo then SingleFileDescription(gw.git(GitCall(repo.root, SingleFileLogArgs(relPath))))
                              else None)
              && repo.descriptionCache == old(repo.descriptionCache)[relPath := description]
              && gw.issued == old(gw.issued)
                              + (if repo.isGitRepo then [GitCall(repo.root, SingleFileLogArgs(relPath))] else [])
    ensures relPath in repo.descriptionCache && repo.descriptionCache[relPath] == description
  {
    if relPath in repo.descriptionCache {
      return repo.descriptionCache[relPath];
    }
    if !repo.isGitRepo {
      repo.descriptionCache := repo.descriptionCache[relPath := None];
      return None;
    }
    var result := gw.Run(repo.root, SingleFileLogArgs(relPath));
    if result.returncode != 0 {
      repo.descriptionCache := repo.descriptionCache[relPath := None];
      return None;
    }
    var lines := StrippedNonBlank(SplitLines(result.stdout));
    if |lines| < 3 {
      repo.descriptionCache := repo.descriptionCache[relPath := None];
      return None;
    }
    description := Some(FileCommitDescription(lines[0], lines[1], lines[2]));
    repo.descriptionCache := repo.descriptionCache[relPath := description];
  }

  /** Asking twice gives the same answer, and at most one git query is made. */
  method DescribeTwice(gw: GitGateway, repo: RepoMetadata, relPath: string)
      returns (first: Option<FileCommitDescription>, second: Option<FileCommitDescription>)
    modifies gw, repo
    ensures first == second
    ensures |gw.issued| <= |old(gw.issued)| + 1
  {
    first := GetFileDescription(gw, repo, relPath);
    second := GetFileDescription(gw, repo, relPath);
  }

  // ===================================================================================
  // is_commit_ancestor
  // ===================================================================================

  /** The caller-owned `(root, ancestor, descendant) -> bool` cache. */
  class AncestorCache {
    var entries: map<(string, string, string), bool>

    constructor ()
      ensures entries == map[]
    {
      entries := map[];
    }
  }

  method IsCommitAncestor(gw: GitGateway, root: string, ancestor: string, descendant: string, cache: AncestorCache)
      returns (isAncestor: bool)
    modifies gw, cache
    ensures var key := (root, ancestor, descendant);
            (key in old(cache.entries) ==>
               isAncestor == old(cache.entries)[key] && cache.entries == old(cache.entries) && gw.issued == old(gw.issued))
            && (key !in old(cache.entries) ==>
               isAncestor == (gw.git(GitCall(root, IsAncestorArgs(ancestor, descendant))).returncode == 0)
               && cache.entries == old(cache.entries)[key := isAncestor]
               && gw.issued == old(gw.issued) + [GitCall(root, IsAncestorArgs(ancestor, descendant))])
    ensures (root, ancestor, descendant) in cache.entries && cache.entries[(root, ancestor, descendant)] == isAncestor
  {
    var cacheKey := (root, ancestor, descendant);
    if cacheKey in cache.entries {
      return cache.entries[cacheKey];
    }
    var result := gw.Run(root, IsAncestorArgs(ancestor, descendant));
    isAncestor := result.returncode == 0;
    cache.entries := cache.entries[cacheKey := isAncestor];
  }

  /** Asking twice gives the same answer, and at most one git query is made. */
  method AncestorTwice(gw: GitGateway, root: string, ancestor: string, descendant: string, cache: AncestorCache)
      returns (first: bool, second: bool)
    modifies gw, cache
    ensures first == second
    ensures |gw.issued| <= |old(gw.issued)| + 1
  {
    first := IsCommitAncestor(gw, root, ancestor, descendant, cache);
    second := IsCommitAncestor(gw, root, ancestor, descendant, cache);
  }

  // ===================================================================================
  // Commit lists
  // ===================================================================================

  /** How load_commit_list reads one line of the file. */
  datatype CommitLine = Skipped | Malformed | Commit(hash: string)

  function ReadCommitLine(raw: string): CommitLine {
    var line := Strip(raw);
    if line == [] || StartsWith(line, "#") || StartsWith(line, "//") then Skipped
    else if HasSpace(line) then Malformed
    else Commit(Lower(line))
  }

  /** load_commit_list: the lower-cased commit of every line that is neither blank nor a
      comment; a line with inner whitespace raises, naming its 1-based line number. */
  method LoadCommitList(lines: seq<string>) returns (r: Result<set<string>>)
    ensures r.Ok? <==> forall i :: 0 <= i < |lines| ==> ReadCommitLine(lines[i]) != Malformed
    ensures r.Ok? ==> forall c :: c in r.value <==> exists i :: 0 <= i < |lines| && ReadCommitLine(lines[i]) == Commit(c)
    ensures r.Err? ==> exists k :: 0 <= k < |lines| && r.error == InvalidCommitListLine(k + 1)
                                   && ReadCommitLine(lines[k]) == Malformed
                                   && forall j :: 0 <= j < k ==> ReadCommitLine(lines[j]) != Malformed
  {
    var commits: set<string> := {};
    for i := 0 to |lines|
      invariant forall j :: 0 <= j < i ==> ReadCommitLine(lines[j]) != Malformed
      invariant forall c :: c in commits <==> exists j :: 0 <= j < i && ReadCommitLine(lines[j]) == Commit(c)
    {
      ghost var l := ReadCommitLine(lines[i]);
      var line := Strip(lines[i]);
      if line == [] || StartsWith(line, "#") || StartsWith(line, "//") {
        assert l == Skipped;
      } else if HasSpace(line) {
        assert l == Malformed;
        return Err(InvalidCommitListLine(i + 1));
      } else {
        assert l == Commit(Lower(line));
        commits := commits + {Lower(line)};
      }
    }
    return Ok(commits);
  }

  /** Comment and blank lines are skipped; every accepted commit is lower case and has
      no whitespace. */
  lemma CommitLineCases(raw: string)
    ensures Strip(raw) == [] || StartsWith(Strip(raw), "#") || StartsWith(Strip(raw), "//")
            ==> ReadCommitLine(raw) == Skipped
    ensures ReadCommitLine(raw).Commit? ==>
              !HasSpace(ReadCommitLine(raw).hash) && Lower(ReadCommitLine(raw).hash) == ReadCommitLine(raw).hash
  {
    if ReadCommitLine(raw).Commit? {
      var line := Strip(raw);
      LowerIdempotent(line);
    }
  }

  /** The token resolve_commit_hashes looks up for a ref. */
  function Token(ref: string): string {
    Lower(Strip(ref))
  }

  /** The commit a token resolves to: git's answer when `rev-parse` succeeds, otherwise
      the token itself. */
  function Resolved(c: Completed, token: string): string {
    if c.returncode == 0 then Lower(Strip(c.stdout)) else token
  }

  /** The resolved set for some refs. */
  function Resolution(git: GitCall -> Completed, root: string, refs: set<string>): set<string> {
    set ref | ref in refs && Token(ref) != [] :: Resolved(git(GitCall(root, VerifyCommitArgs(Token(ref)))), Token(ref))
  }

  /** The `rev-parse --verify` queries for the non-blank tokens of `refs`. */
  ghost function VerifyCalls(root: string, refs: set<string>): set<GitCall> {
    set ref | ref in refs && Token(ref) != [] :: GitCall(root, VerifyCommitArgs(Token(ref)))
  }

  /** The method issues one query per non-blank reference and no other call: the calls
      are exactly the verify queries of the references' tokens, with at most one per
      reference. */
  method ResolveCommitHashes(gw: GitGateway, root: string, commitRefs: set<string>)
      returns (resolvedCommits: set<string>, ghost calls: seq<GitCall>)
    modifies gw
    ensures resolvedCommits == Resolution(gw.git, root, commitRefs)
    ensures gw.issued == old(gw.issued) + calls
    ensures (set c | c in calls) == VerifyCalls(root, commitRefs)
    ensures |calls| <= |commitRefs|
  {
    resolvedCommits := {};
    calls := [];
    var remaining := commitRefs;
    ghost var processed: seq<string> := [];
    while remaining != {}
      invariant remaining <= commitRefs
      invariant resolvedCommits == Resolution(gw.git, root, commitRefs - remaining)
      invariant gw.issued == old(gw.issued) + calls
      invariant (set c | c in calls) == VerifyCalls(root, commitRefs - remaining)
      invariant forall k :: 0 <= k < |processed| ==> processed[k] in commitRefs && processed[k] !in remaining
      invariant forall k, m :: 0 <= k < m < |processed| ==> processed[k] != processed[m]
      invariant |calls| <= |processed|
      decreases remaining
    {
      var commitRef :| commitRef in remaining;
      ghost var done := commitRefs - remaining;
      var added, now := ResolveOne(gw, root, commitRef);
      ghost var next := commitRefs - (remaining - {commitRef});
      ResolveStep(commitRefs, remaining, commitRef);
      assert resolvedCommits + added == Resolution(gw.git, root, next) by {
        ResolutionAdd(gw.git, root, done, commitRef);
      }
      assert (set c | c in calls + now) == VerifyCalls(root, next) by {
        SeqSetConcat(calls, now);
        VerifyCallsAdd(root, done, commitRef);
      }
      resolvedCommits := resolvedCommits + added;
      calls := calls + now;
      remaining := remaining - {commitRef};
      processed := processed + [commitRef];
    }
    assert commitRefs - remaining == commitRefs;
    DistinctWithin(processed, commitRefs);
  }

  /** One pass of the loop of resolve_commit_hashes: a blank token issues nothing; any
      other issues its verify query and yields what that query resolves to. */
  method ResolveOne(gw: GitGateway, root: string, commitRef: string)
      returns (added: set<string>, ghost now: seq<GitCall>)
    modifies gw
    ensures now == if Token(commitRef) == [] then [] else [GitCall(root, VerifyCommitArgs(Token(commitRef)))]
    ensures gw.issued == old(gw.issued) + now
    ensures added
            == if Token(commitRef) == [] then {}
               else {Resolved(gw.git(GitCall(root, VerifyCommitArgs(Token(commitRef)))), Token(commitRef))}
  {
    var commit := Lower(Strip(commitRef));
    if commit == [] {
      return {}, [];
    }
    var resolved := gw.Run(root, VerifyCommitArgs(commit));
    now := [GitCall(root, VerifyCommitArgs(commit))];
    if resolved.returncode == 0 {
      added := {Lower(Strip(resolved.stdout))};
    } else {
      // keep the token itself, so prefix matching still applies to it
      added := {commit};
    }
  }

  lemma SeqSetConcat<T>(s: seq<T>, t: seq<T>)
    ensures (set c | c in s + t) == (set c | c in s) + (set c | c in t)
  {
  }

  /** Taking one reference out of `remaining` adds it to the references done. */
  lemma ResolveStep(commitRefs: set<string>, remaining: set<string>, ref: string)
    requires remaining <= commitRefs && ref in remaining
    ensures commitRefs - (remaining - {ref}) == (commitRefs - remaining) + {ref}
    ensures ref !in commitRefs - remaining
  {
  }

  /** A sequence without repetitions drawn from a set is no longer than the set. */
  lemma {:induction false} DistinctWithin<T>(s: seq<T>, within: set<T>)
    requires forall k :: 0 <= k < |s| ==> s[k] in within
    requires forall k, m :: 0 <= k < m < |s| ==> s[k] != s[m]
    ensures |s| <= |within|
  {
    if s != [] {
      var last := s[|s| - 1];
      var front := s[..|s| - 1];
      forall k | 0 <= k < |front| ensures front[k] in within - {last} {
        assert front[k] == s[k];
      }
      forall k, m | 0 <= k < m < |front| ensures front[k] != front[m] {
        assert front[k] == s[k] && front[m] == s[m];
      }
      DistinctWithin(front, within - {last});
    }
  }

  /** One more reference adds its query, or nothing when it is blank. */
  lemma VerifyCallsAdd(root: string, done: set<string>, ref: string)
    ensures VerifyCalls(root, done + {ref})
            == VerifyCalls(root, done)
               + (if Token(ref) == [] then {} else {GitCall(root, VerifyCommitArgs(Token(ref)))})
  {
  }

  /** One more reference adds its resolution, or nothing when it is blank. */
  lemma ResolutionAdd(git: GitCall -> Completed, root: string, done: set<string>, ref: string)
    ensures Resolution(git, root, done + {ref})
            == Resolution(git, root, done)
               + (if Token(ref) == [] then {}
                  else {Resolved(git(GitCall(root, VerifyCommitArgs(Token(ref)))), Token(ref))})
  {
  }

  /** A ref that does not resolve contributes its own lower-cased token; a blank ref
      contributes nothing. */
  lemma ResolutionFallback(git: GitCall -> Completed, root: string, refs: set<string>, ref: string)
    requires ref in refs
    ensures Token(ref) != [] && git(GitCall(root, VerifyCommitArgs(Token(ref)))).returncode != 0
            ==> Token(ref) in Resolution(git, root, refs)
    ensures Token(ref) == [] ==> Resolution(git, root, refs - {ref}) == Resolution(git, root, refs)
  {
  }

  lemma ResolutionMonotone(git: GitCall -> Completed, root: string, fewer: set<string>, more: set<string>)
    requires fewer <= more
    ensures Resolution(git, root, fewer) <= Resolution(git, root, more)
  {
  }

  // ===================================================================================
  // collect_git_history_info_with_ignored_modification_commits
  // ===================================================================================

  datatype GitHistoryInfo = GitHistoryInfo(isGitRepo: bool, fileCommitTimestamps: map<string, int>, addedNeverModifiedFiles: set<string>)

  /** What the history collection computes from git's answers. */
  function HistoryOf(git: GitCall -> Completed, root: string, prefix: string, ignoredRefs: set<string>): Result<GitHistoryInfo> {
    if !ReportsWorkTree(git(GitCall(root, IsInsideWorkTreeArgs))) then Ok(GitHistoryInfo(false, map[], {}))
    else
      var ignored := Resolution(git, root, ignoredRefs);
      var logResult := git(GitCall(root, TimestampLogArgs));
      if logResult.returncode != 0 then Err(CalledProcessError(logResult.returncode))
      else
        var stamps := StampLines(NameOnlyScan(prefix), SplitLines(logResult.stdout));
        if !WellFormedStamps(stamps) then Err(InvalidTimestamp)
        else
          var statusResult := git(GitCall(root, StatusLogArgs));
          if statusResult.returncode != 0 then Err(CalledProcessError(statusResult.returncode))
          else
            var status := StatusLines(SplitLines(statusResult.stdout));
            Ok(GitHistoryInfo(true, LastWins(StampWrites(NameOnlyScan(prefix), stamps)),
                              AddedFiles(status, prefix) - ModifiedFiles(status, prefix, ignored)))
  }

  method CollectGitHistoryInfoWithIgnoredModificationCommits(
      gw: GitGateway, root: string, prefix: string, ignoredModificationCommits: set<string>)
      returns (r: Result<GitHistoryInfo>)
    modifies gw
    ensures r == HistoryOf(gw.git, root, prefix, ignoredModificationCommits)
    ensures old(gw.issued) + [GitCall(root, IsInsideWorkTreeArgs)] <= gw.issued
    ensures !ReportsWorkTree(gw.git(GitCall(root, IsInsideWorkTreeArgs)))
            ==> gw.issued == old(gw.issued) + [GitCall(root, IsInsideWorkTreeArgs)]
  {
    var isRepo := IsGitRepo(gw, root);
    if !isRepo {
      return Ok(GitHistoryInfo(false, map[], {}));
    }
    var resolvedIgnored, calls := ResolveCommitHashes(gw, root, ignoredModificationCommits);
    var logResult := gw.Run(root, TimestampLogArgs);
    if logResult.returncode != 0 {
      return Err(CalledProcessError(logResult.returncode));
    }
    var timestamps := ScanFileTimestamps(SplitLines(logResult.stdout), prefix);
    if timestamps.Err? {
      return Err(timestamps.error);
    }
    var statusLogResult := gw.Run(root, StatusLogArgs);
    if statusLogResult.returncode != 0 {
      return Err(CalledProcessError(statusLogResult.returncode));
    }
    var allAdded, allModified := ScanNameStatus(SplitLines(statusLogResult.stdout), prefix, resolvedIgnored);
    return Ok(GitHistoryInfo(true, timestamps.value, allAdded - allModified));
  }

  /** collect_git_history_info: the same, with nothing ignored. */
  method CollectGitHistoryInfo(gw: GitGateway, root: string, prefix: string) returns (r: Result<GitHistoryInfo>)
    modifies gw
    ensures r == HistoryOf(gw.git, root, prefix, {})
  {
    r := CollectGitHistoryInfoWithIgnoredModificationCommits(gw, root, prefix, {});
  }

  /** A directory outside any work tree has no history and no error. */
  lemma HistoryOfNonRepo(git: GitCall -> Completed, root: string, prefix: string, ignoredRefs: set<string>)
    requires !ReportsWorkTree(git(GitCall(root, IsInsideWorkTreeArgs)))
    ensures HistoryOf(git, root, prefix, ignoredRefs) == Ok(GitHistoryInfo(false, map[], {}))
  {
  }

  /** Added-never-modified files were added by some `A` line, and no `M` line of a commit
      that is not ignored names them. */
  lemma HistoryAddedNeverModified(git: GitCall -> Completed, root: string, prefix: string, ignoredRefs: set<string>, p: string)
    requires HistoryOf(git, root, prefix, ignoredRefs).Ok?
    requires p in HistoryOf(git, root, prefix, ignoredRefs).value.addedNeverModifiedFiles
    ensures var status := StatusLines(SplitLines(git(GitCall(root, StatusLogArgs)).stdout));
            var ignored := Resolution(git, root, ignoredRefs);
            (exists i :: 0 <= i < |status| && EntryPath(status[i], "A", prefix) == Some(p))
            && forall i :: 0 <= i < |status| && EntryPath(status[i], "M", prefix) == Some(p)
                           ==> IsIgnoredCommit(CurrentCommit(status[..i]), ignored)
  {
    var status := StatusLines(SplitLines(git(GitCall(root, StatusLogArgs)).stdout));
    var ignored := Resolution(git, root, ignoredRefs);
    AddedFilesMembers(status, prefix, p);
    ModifiedFilesMembers(status, prefix, ignored, p);
  }

  /** Ignoring more commits never shrinks the added-never-modified set, and leaves
      everything else unchanged. */
  lemma HistoryMonotone(git: GitCall -> Completed, root: string, prefix: string, fewer: set<string>, more: set<string>)
    requires fewer <= more
    ensures HistoryOf(git, root, prefix, fewer).Ok? == HistoryOf(git, root, prefix, more).Ok?
    ensures HistoryOf(git, root, prefix, fewer).Ok? ==>
              var a := HistoryOf(git, root, prefix, fewer).value;
              var b := HistoryOf(git, root, prefix, more).value;
              a.isGitRepo == b.isGitRepo && a.fileCommitTimestamps == b.fileCommitTimestamps
              && a.addedNeverModifiedFiles <= b.addedNeverModifiedFiles
  {
    if ReportsWorkTree(git(GitCall(root, IsInsideWorkTreeArgs))) {
      var status := StatusLines(SplitLines(git(GitCall(root, StatusLogArgs)).stdout));
      ResolutionMonotone(git, root, fewer, more);
      ModifiedFilesAntitone(status, prefix, Resolution(git, root, fewer), Resolution(git, root, more));
    }
  }
}
