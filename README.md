# Repository maintenance scripts: a Dafny model

This project models the logic of a small set of Python maintenance scripts:

- **git_utils.py**. Helpers that ask git about a repository:
  - whether a directory is a work tree;
  - the list of tracked files;
  - each file's last commit timestamp and last commit description;
  - whether one commit is an ancestor of another;
  - the history of a path scope, where modifications made by a list of ignored commits do not count. The result records whether the directory is a work tree, each path's last commit timestamp, and the files that were added and never modified by a commit that is not ignored.
- **change-spaces-crlf.py**. Rewrites files, replacing tabs with spaces and normalising line endings to `lf`, `crlf` or `cr`. It skips files that look binary.
- **progress_tracker.py**. A percent reporter. It prints a line each time the whole-number percent of processed items changes. In transitions mode it prints every percent it passes.
- **get-changes.py**. Compares two directory indexes. It reports which files were added, modified and deleted, sorted by extension, then size, then path.

## How git and the file system are modelled

git is an oracle `GitCall -> Completed`, held by a `GitGateway` object. Every call issued to it is appended to the gateway's `issued` trace. That is how the model says things like "a cached answer issues no git call".

Every line-by-line parser of git output is a method with the source's own loop and state variables. Each is proved equal to a fold over the classified lines, a map built by last-write-wins or first-write-wins. Lemmas then say what each key of that map is.

The repository's path prefix is a parameter. File contents are byte sequences passed in, and file hashes are a function passed in.

Printed output is modelled as a sequence of `Output` values that each call appends to.

Three behaviours of the code worth noting:

- The description scan has no guard before its first commit marker. Its three fields start empty, so the first three non-blank lines fill the hash, date and subject even if no marker precedes them.
- `get_last_commit_timestamps` neither strips its lines nor normalises them against the prefix.
- The name-status scan tests for the marker without a trailing space. It takes the commit hash as the second whitespace-separated field, and the hash is absent when that field is missing.

## Model

| member | source | states |
|---|---|---|
| GitRepo.GitGateway.constructor | git_utils.py:29-35 | a fresh gateway answers with the given oracle and has issued no call |
| GitRepo.GitGateway.Run | git_utils.py:29-35 | a git call returns the oracle's answer for exactly that call and appends the call to the issued trace |
| GitRepo.StdoutOrError | git_utils.py:38-42 | `run_git_stdout` succeeds iff the exit status is 0, and its value is then the call's output |
| GitRepo.StdoutOrErrorMessage | git_utils.py:40-41 | a non-zero exit status raises RuntimeError whose message is non-empty and stripped, and is the stripped stderr whenever that is non-empty |
| GitRepo.RunGitStdout | git_utils.py:38-42 | the method issues exactly one call and returns StdoutOrError of its answer |
| GitRepo.ReportsWorkTreeWord | git_utils.py:45-47 | an answer with exit status 0 printing one word, with or without a trailing line break, reports a work tree iff the word lower-cases to `true`; a non-zero exit status never reports one |
| GitRepo.IsGitRepo | git_utils.py:45-47 | the method issues the one rev-parse call and answers ReportsWorkTree of its result |
| GitPath.NormalizeEmptyPrefix | git_utils.py:73-74 | with an empty prefix a path is kept as it is |
| GitPath.NormalizePrefixItself | git_utils.py:77-78 | the prefix itself normalises to the empty path |
| GitPath.NormalizeUnderPrefix | git_utils.py:79-80 | a path under the prefix normalises to the part after `prefix/` |
| GitPath.NormalizeCases | git_utils.py:71-81 | with a non-empty prefix, a path is dropped iff it is neither the prefix nor under it; it becomes empty iff it is the prefix or the prefix with a slash; otherwise `prefix/` followed by the result gives the path back |
| GitPath.ScopedPathInverse | git_utils.py:71-81 | a path the scans keep is, with a non-empty prefix, exactly `prefix/` followed by its scoped name, and with an empty prefix its own scoped name |
| GitPath.SubdirectoryExample | git_utils.py:71-81 | under prefix `lib`, `lib/core.py` is kept as `core.py` and `docs/readme.md` is dropped |
| GitRepo.AncestorCache.constructor | git_utils.py:88 | a fresh ancestor cache is empty |
| GitRepo.IsCommitAncestor | git_utils.py:84-101 | a cached key is answered from the cache with no git call and no cache change; otherwise the answer is whether `merge-base --is-ancestor` exits 0, one call is issued and the answer is stored under the key |
| GitRepo.AncestorTwice | git_utils.py:90-101 | asking the same question twice gives the same answer and issues at most one git call |
| GitLog.ScanDescriptions | git_utils.py:123-159 | the description loop's map equals the last-write-wins fold of the classified log lines |
| GitLog.DescriptionLine | git_utils.py:129-159 | one line of the description loop moves the cursor as DescriptionStep says and writes the map entry DescriptionWrite says, or nothing |
| GitLog.CursorFillsInOrder | git_utils.py:139-149 | the current commit's subject is set only when its date is, and its date only when its hash is |
| GitLog.DescriptionHeader | git_utils.py:133-149 | a marker followed by three text lines leaves the cursor holding those three as hash, date and subject, whatever came before |
| GitLog.DescriptionLastWrite | git_utils.py:128-159 | a path in the description map was named by some line after a complete commit header; its value is that header's hash, date and subject; no later path line writes it |
| GitRepo.DescriptionsOfPresent | git_utils.py:104-161 | every path recorded by the collection has a description, never none |
| GitRepo.CollectRecentFileDescriptions | git_utils.py:104-161 | one `git log --name-only` call is issued, and the result is empty when it fails and the description scan of its output otherwise |
| GitRepo.RepoMetadata.constructor | git_utils.py:22-26 | new metadata holds the given root, repository flag and description cache |
| GitRepo.BuildRepoMetadata | git_utils.py:164-170 | the flag is the work-tree answer; a work tree's cache is the collected descriptions and issues that log call, and any other directory's cache is empty |
| GitRepo.SingleFileRoundTrip | git_utils.py:198-205 | an answer with exit status 0 printing three non-empty stripped lines reads back as exactly that hash, date and subject |
| GitRepo.SingleFileShort | git_utils.py:194-201 | a failing call, or one printing fewer than three non-blank lines (such as a commit with an empty subject), gives no description |
| GitRepo.SingleFileIgnoresBlankLine | git_utils.py:198-203 | removing a blank line anywhere from a single-file answer leaves its description unchanged |
| GitRepo.GetFileDescription | git_utils.py:173-205 | a cached path returns the cached entry with no git call and no cache change; otherwise a non-repository gives none with no call, a repository issues one single-file log call and gives its description; the answer is then cached |
| GitRepo.DescribeTwice | git_utils.py:173-205 | describing the same file twice gives the same answer and issues at most one git call |
| GitRepo.LoadCommitList | git_utils.py:212-228 | the load succeeds iff no line is malformed, and then holds exactly the lower-cased commit of every line that is not blank or a comment; otherwise it fails naming the 1-based number of the first malformed line |
| GitRepo.CommitLineCases | git_utils.py:216-225 | blank lines and lines starting with `#` or `//` are skipped; a kept commit has no whitespace and is lower-case |
| GitRepo.ResolveCommitHashes | git_utils.py:231-251 | the method's set is Resolution of the oracle; the calls issued are exactly the `rev-parse --verify` queries of the non-blank tokens, at most one per reference |
| GitRepo.ResolveOne | git_utils.py:233-249 | one reference with a blank token issues nothing and adds nothing; any other issues its verify query and adds git's answer, or the token itself when git fails |
| GitRepo.ResolutionFallback | git_utils.py:233-250 | a reference whose token does not verify is kept as its lower-cased stripped token; a reference that is blank once stripped contributes nothing |
| GitRepo.ResolutionMonotone | git_utils.py:231-251 | resolving more references never loses a resolution |
| GitLog.ScanFileTimestamps | git_utils.py:281-297 | the timestamp loop fails with InvalidTimestamp iff some marker line's timestamp is not an integer; otherwise its map is the last-write-wins fold of the classified lines |
| GitLog.FileTimestampLine | git_utils.py:284-297 | one line of the timestamp loop fails exactly on a marker line without an integer timestamp; otherwise it moves the current timestamp and overwrites a path entry as StampWrite says |
| GitLog.TimestampPassSkips | git_utils.py:285-295 | a line that is not a path, or a path line before the first marker, writes nothing |
| GitLog.TimestampPassLastWrite | git_utils.py:281-297 | a path in the map was named in scope by some line after a marker; its value is the timestamp of the last marker before that line; no later line names it |
| GitLog.TimestampPassDomain | git_utils.py:281-297 | in both timestamp passes (also lines 365-376) a path is recorded iff some line names it after some marker |
| GitLog.ScanNameStatus | git_utils.py:312-344 | the name-status loop computes exactly the added and modified sets that AddedFiles and ModifiedFiles define over the classified lines |
| GitLog.NameStatusLine | git_utils.py:316-344 | one line of the name-status loop sets the current hash on a commit header, adds an A path to the added set, and adds an M path to the modified set unless the current commit is ignored |
| GitLog.ReadStatusEntry | git_utils.py:325-328 | a stripped `status<TAB>path` line with a tab-free status reads as that entry |
| GitLog.IgnoredIsPrefixMatch | git_utils.py:336-341 | a commit is ignored iff some ignored hash is a prefix of its lower-cased hash |
| GitLog.IgnoredEdgeCases | git_utils.py:336-341 | with no ignored hashes nothing is ignored; a line with no current commit is ignored iff the empty hash is among the ignored |
| GitLog.AddedFilesMembers | git_utils.py:333-334 | a path is added iff some in-scope entry with status `A` names it |
| GitLog.ModifiedFilesMembers | git_utils.py:335-344 | a path is modified iff some in-scope entry with status `M` names it under a current commit that is not ignored |
| GitLog.ModifiedFilesAntitone | git_utils.py:336-344 | ignoring more commits never adds a modified file |
| GitRepo.CollectGitHistoryInfoWithIgnoredModificationCommits | git_utils.py:254-350 | the result is HistoryOf for the oracle; the first call issued is the work-tree test, and a non-repository issues nothing further |
| GitRepo.CollectGitHistoryInfo | git_utils.py:208-209 | the plain history equals HistoryOf with no ignored references |
| GitRepo.HistoryOfNonRepo | git_utils.py:258-259 | a directory that is not a work tree has an empty history marked as not a repository |
| GitRepo.HistoryAddedNeverModified | git_utils.py:312-350 | a file reported as added and never modified has an `A` entry, and each of its `M` entries is under an ignored commit |
| GitRepo.HistoryMonotone | git_utils.py:254-350 | ignoring more commits fails exactly when ignoring fewer does, keeps the repository flag and the timestamps, and never loses an added-and-never-modified file |
| GitRepo.TrackedEntriesRoundTrip | git_utils.py:355 | non-empty NUL-free names, each followed by NUL, split back into exactly those names |
| GitRepo.ListTrackedFiles | git_utils.py:353-356 | one `ls-files -z` call; it fails iff run_git_stdout does, with that error; on success each non-empty NUL-separated entry joined under the repository root, in order |
| GitLog.ScanLastCommitTimestamps | git_utils.py:362-376 | that loop fails with InvalidTimestamp iff some marker line's timestamp is not an integer; otherwise its map is the first-write-wins fold |
| GitLog.LastCommitLine | git_utils.py:366-376 | one line of the last-commit loop fails exactly on a marker line without an integer timestamp; otherwise a path already in the map keeps its first timestamp |
| GitLog.LastCommitFirstWrite | git_utils.py:365-376 | a path in the map is named by some line after a marker; its value is the timestamp of the last marker before the first such line, which is the newest commit |
| GitRepo.GetLastCommitTimestamps | git_utils.py:359-378 | one `git log` call; a failing call gives run_git_stdout's error; otherwise the first-write-wins scan of its lines, or InvalidTimestamp |
| MapFolds.LastWinsDomain | git_utils.py:297 | a key is in a map built by successive assignments iff some write names it |
| MapFolds.LastWinsEntry | git_utils.py:297 | with every write overriding, a key's value comes from its last write |
| MapFolds.FirstWinsEntry | git_utils.py:375-376 | with an existing key kept, a key's value comes from its first write |
| Progress.PercentExact | progress_tracker.py:37 | the percent is the whole part of `100 * processed / total` |
| Progress.PercentRange | progress_tracker.py:37 | the percent of 0..total processed items lies in 0..100, with 0 at none and 100 at all |
| Progress.PercentMonotone | progress_tracker.py:37-49 | more items processed never lowers the percent |
| Progress.TransitionsEnumerate | progress_tracker.py:50-54 | transitions mode prints each percent above the last one, up to the target, exactly once and in increasing order, and nothing when the target is not above it |
| Progress.ProgressTracker.constructor | progress_tracker.py:7-23 | enabled iff total reaches the threshold; counters start at 0 and -1; the start message is printed only when enabled and non-empty |
| Progress.ProgressTracker.Step | progress_tracker.py:32-42 | a disabled tracker changes nothing; an enabled one counts the item and prints one report iff the percent changed; a zero total raises ZeroDivision after counting |
| Progress.ProgressTracker.Update | progress_tracker.py:44-60 | an enabled tracker sets the count; transitions mode raises the last percent to the target and prints every percent between; otherwise it prints one report iff the target changed |
| ChangeSpacesCrlf.StartTracker | change-spaces-crlf.py:7-16 | the script's own tracker is enabled iff total is positive and then prints `Total files to process: <total>`; it steps as Progress.ProgressTracker.Step does |
| ChangeSpacesCrlf.LooksBinary | change-spaces-crlf.py:82-99 | the counting loop answers exactly LooksBinarySpec |
| ChangeSpacesCrlf.LooksBinaryCases | change-spaces-crlf.py:82-99 | empty data is not binary; data holding NUL is; a NUL-free sample of only text bytes is not; non-empty data whose sample is all non-text bytes is |
| ChangeSpacesCrlf.LooksBinaryIgnoresTail | change-spaces-crlf.py:88 | bytes after the first 4096 do not change the answer unless they hold NUL |
| ChangeSpacesCrlf.NormalizeLineEndings | change-spaces-crlf.py:102-112 | the call fails iff the ending is not `lf`, `crlf` or `cr`, and the error then names that ending |
| ChangeSpacesCrlf.LfHasNoCr | change-spaces-crlf.py:103-106 | `lf` output holds no carriage return |
| ChangeSpacesCrlf.CrlfIsPaired | change-spaces-crlf.py:107-108 | in `crlf` output every carriage return is followed by a line feed and every line feed follows a carriage return |
| ChangeSpacesCrlf.CrHasNoLf | change-spaces-crlf.py:109-110 | `cr` output holds no line feed |
| ChangeSpacesCrlf.NormalizeIdempotent | change-spaces-crlf.py:102-112 | normalising already-normalised data to the same ending changes nothing |
| ChangeSpacesCrlf.NormalizeCount | change-spaces-crlf.py:102-112 | each byte other than CR and LF occurs as often in the output as in the input |
| ChangeSpacesCrlf.NormalizeKeepsAbsent | change-spaces-crlf.py:102-112 | a byte other than CR and LF absent from the input is absent from the output |
| ChangeSpacesCrlf.TransformContent | change-spaces-crlf.py:115-121 | the transform fails iff the requested ending is unsupported |
| ChangeSpacesCrlf.TransformTabs | change-spaces-crlf.py:116-119 | a positive `spaces` leaves no tab and adds `spaces` spaces per tab; otherwise the tab count is kept |
| ChangeSpacesCrlf.TransformIdempotent | change-spaces-crlf.py:115-121 | transforming transformed data again with the same settings changes nothing |
| ChangeSpacesCrlf.ProcessFile | change-spaces-crlf.py:124-147 | the method's outcome is FileDecision of the file's bytes and settings |
| ChangeSpacesCrlf.FileDecisionSound | change-spaces-crlf.py:133-147 | a file is skipped as binary iff it looks binary and binaries are not included; it is changed iff it is not skipped and the transform differs from it; it is written iff it is changed and not a dry run, and what is written is the transformed content |
| ChangeSpacesCrlf.SecondRunUnchanged | change-spaces-crlf.py:124-147 | processing the written content again with the same settings reports no change and writes nothing |
| GetChanges.ShouldSkipIff | get-changes.py:16-18 | a path is skipped iff one of its segments is an excluded name |
| GetChanges.ExtKey | get-changes.py:47-50 | the key is `(no_ext)` or a non-empty text with no dot and no slash |
| GetChanges.ExtKeyOfExtension | get-changes.py:47-50 | `dir/stem.ext`, with a non-empty stem and an extension free of dots and slashes, has key `lower(ext)` |
| GetChanges.ExtKeyWithoutExtension | get-changes.py:47-50 | a file name with no dot after its first character has key `(no_ext)` |
| GetChanges.ExtKeyTrailingDot | get-changes.py:47-50 | a file name whose last dot is its final character, such as `foo.` or `a.b.`, has key `(no_ext)` |
| GetChanges.ScanNewIndex | get-changes.py:91-109 | the loop over the new index computes exactly the AddedIn and ModifiedIn folds |
| GetChanges.CompareEntry | get-changes.py:97-109 | a considered path is added iff it is absent from the old index, and modified iff it is present and IsModified holds of its two entries |
| GetChanges.ScanOldIndex | get-changes.py:111-116 | the loop over the old index computes exactly the DeletedIn fold |
| GetChanges.Classify | get-changes.py:91-116 | added and modified come from the new-index scan; deleted comes from the old-index scan when requested and is otherwise empty |
| GetChanges.ClassificationMembers | get-changes.py:91-116 | added means new-only, modified means in both and modified, deleted means old-only; `.meta` files are excluded when asked; no path is both added and modified |
| GetChanges.UntouchedNotModified | get-changes.py:103-107 | a file with equal size, time and content hash is not modified |
| GetChanges.AsWrittenFailsOnUntouchedFile | get-changes.py:103-105 | on a concrete file of equal size, time and content the rule as written fails with AttributeError, where the corrected rule reports no change |
| GetChanges.AsWrittenAgreesWhenNoHash | get-changes.py:103-109 | whenever the rule as written does not fail, it agrees with the corrected rule |
| GetChanges.SortItems | get-changes.py:126-131 | sorting yields a permutation of the items |
| GetChanges.SortItemsOrder | get-changes.py:126-131 | the sorted items are ordered by extension key, then by size (descending unless ascending is asked), then by lower-cased path |
| GetChanges.KeyLeTotal | get-changes.py:127-130 | any two sort keys are comparable |
| GetChanges.KeyLeTransitive | get-changes.py:127-130 | the key order is transitive |

## Left out

- Subprocesses. Running git is the oracle. `get_path_prefix` and `get_repo_root` are not modelled: the prefix and the root are parameters. So the issued traces of CollectRecentFileDescriptions, BuildRepoMetadata and the history methods omit the `rev-parse --show-toplevel` call that `get_path_prefix` makes.
- GitPath.NormalizeGitPath: `Path.as_posix()` is taken as the identity, so paths are assumed to use `/` already.
- GitRepo.ListTrackedFiles: `repo_root / item` is modelled as string concatenation with `/`, without `Path` normalisation.
- GitRepo.GetLastCommitTimestamps: the `Path(line)` key is the raw line, without the collapsing of `//` or `./` that `Path` performs.
- File I/O is not modelled:
  - reading and writing bytes, `os.utime`, `os.walk`, symlink tests, `rglob` and `stat`. File contents arrive as parameters, and the write of `process_file` is returned as `written`;
  - the SHA-1 chunked hash is a function parameter;
  - the open of `load_commit_list` is not modelled: the model takes the file's lines.
- Floating point and clocks:
  - the ETA printed with each report and the elapsed time are left out;
  - Progress.Percent: computed exactly as the truncated integer quotient of `100 * processed` by `total`, while the source's float product can be lower by one (29 of 100 gives 28);
  - Progress.ProgressTracker.Step: its reports inherit that exact percent;
  - Progress.ProgressTracker.Update: in both modes its reports inherit that exact percent.
- ChangeSpacesCrlf.LooksBinarySpec: the float test `non_text / len(sample) > 0.30` is stated as `10 * non_text > 3 * len(sample)`. That form is exact. The difference between the real number 0.30 and the float 0.3 does not change the outcome for samples of at most 4096 bytes.
- Text.Lower: ASCII letters only; no Unicode case mapping.
- Text.ParseInt: accepts an optional sign and ASCII digits around whitespace; the underscores and non-ASCII digits that Python's `int` accepts are not modelled.
- GetChanges.ExtKey: assumes a relative POSIX path without trailing slashes or `.` segments.
- GetChanges.SortItems: the order is stated only up to the sort key. Python's stable ordering of two paths with equal keys (paths that differ only in letter case) is not stated.
- Printing and command lines are not modelled:
  - the `Processed n%` line printed in the get-changes loop;
  - `generate_grouped_log` and the final listing;
  - `argparse` and each script's `main`, including the change-spaces counters and summary;
  - `collect_files` and `gather_files`, whose results are the indexes and inputs the model starts from.
- git-restore-mtime.py is not part of this model.
- Concurrency: none in the source.

## Findings

| source | as written | input that shows it | evidently intended | confidence | as-written member | corrected member |
|---|---|---|---|---|---|---|
| get-changes.py:105 | `file_hash(p)` is passed the relative key string `p`, and `file_hash` calls `.open` on it, which a `str` does not have, so the run aborts with AttributeError | any path present in both trees with equal size and mtime, such as `a.txt` of size 3, mtime 7 | `file_hash(path)`, hashing the new file | not executed | GetChanges.IsModifiedAsWritten | GetChanges.IsModified |
