/** The directory comparison of get-changes.py: which relative paths of the new tree are
    added or modified and which of the old tree are deleted, and the order in which each
    list is reported. A directory index is the dictionary `collect_files` returns, given
    here as its insertion order together with its entries; file contents are reached
    only through a hash oracle. */
module GetChanges {
  import opened Wrappers
  import opened Text

  /** `DEFAULT_EXCLUDES` */
  const DefaultExcludes: set<string> :=
    {".git", ".svn", ".hg", "Library", "Temp", "Obj", "Logs", "UserSettings", "Build",
     "Builds", ".idea", ".vs"}

  /** `should_skip(rel_parts, exclude_names)`, the `any(...)` taken segment by segment. */
  function ShouldSkip(relParts: seq<string>, excludeNames: set<string>): bool {
    relParts != [] && (relParts[0] in excludeNames || ShouldSkip(relParts[1..], excludeNames))
  }

  /** A path is skipped exactly when one of its segments is an excluded name. */
  lemma {:induction false} ShouldSkipIff(relParts: seq<string>, excludeNames: set<string>)
    ensures ShouldSkip(relParts, excludeNames)
            <==> exists i :: 0 <= i < |relParts| && relParts[i] in excludeNames
  {
    if relParts != [] {
      ShouldSkipIff(relParts[1..], excludeNames);
      if exists i :: 0 <= i < |relParts[1..]| && relParts[1..][i] in excludeNames {
        var i :| 0 <= i < |relParts[1..]| && relParts[1..][i] in excludeNames;
        assert relParts[i + 1] in excludeNames;
      }
      if exists i :: 0 <= i < |relParts| && relParts[i] in excludeNames {
        var i :| 0 <= i < |relParts| && relParts[i] in excludeNames;
        if i > 0 {
          assert relParts[1..][i - 1] in excludeNames;
        }
      }
    }
  }

  // ---- ext_key ----

  /** `Path(rel_path).name`: the text after the last "/". */
  function Name(relPath: string): (r: string)
    ensures '/' !in r
  {
    relPath[LastIndexOf(relPath, '/') + 1..]
  }

  /** `Path(name).suffix`: from the last "." of the name when that dot is neither its first
      nor its last character, otherwise empty. */
  function Suffix(name: string): string {
    var i := LastIndexOf(name, '.');
    if 0 < i < |name| - 1 then name[i..] else []
  }

  const NoExt := "(no_ext)"

  /** `ext_key(rel_path)`: the lower-cased extension without its dot, or "(no_ext)". */
  function ExtKey(relPath: string): (r: string)
    ensures r == NoExt || (r != [] && '.' !in r && '/' !in r)
  {
    var suf := Lower(Suffix(Name(relPath)));
    if StartsWith(suf, ".") && |suf| > 1 then suf[1..] else NoExt
  }

  /** The name of a path is what follows its directory part. */
  lemma NameAfterDir(dir: string, name: string)
    requires dir == [] || dir[|dir| - 1] == '/'
    requires '/' !in name
    ensures Name(dir + name) == name
  {
    var p := dir + name;
    var k := LastIndexOf(p, '/');
    assert forall i :: |dir| <= i < |p| ==> p[i] == name[i - |dir|];
    if dir != [] {
      assert p[|dir| - 1] == '/';
    }
    assert k == |dir| - 1;
    assert p[k + 1..] == name;
  }

  lemma SuffixOfStem(stem: string, ext: string)
    requires stem != [] && ext != [] && '.' !in ext
    ensures Suffix(stem + "." + ext) == "." + ext
  {
    var name := stem + "." + ext;
    assert name[|stem|] == '.';
    assert forall j :: |stem| < j < |name| ==> name[j] == ext[j - |stem| - 1];
    assert LastIndexOf(name, '.') == |stem|;
    assert name[|stem|..] == "." + ext;
  }

  /** A file whose name is `stem.ext`, with a non-empty stem and a dot-free extension, is
      keyed by the lower-cased extension, whatever directory it sits in. */
  lemma ExtKeyOfExtension(dir: string, stem: string, ext: string)
    requires dir == [] || dir[|dir| - 1] == '/'
    requires stem != [] && '/' !in stem
    requires ext != [] && '/' !in ext && '.' !in ext
    ensures ExtKey(dir + stem + "." + ext) == Lower(ext)
  {
    var name := stem + "." + ext;
    assert dir + stem + "." + ext == dir + name;
    NameAfterDir(dir, name);
    SuffixOfStem(stem, ext);
    ExtKeyOfSuffix(dir + name, ext);
  }

  lemma ExtKeyOfSuffix(p: string, ext: string)
    requires Suffix(Name(p)) == "." + ext && ext != []
    ensures ExtKey(p) == Lower(ext)
  {
    LowerAfterDot(ext);
    var suf := "." + Lower(ext);
    assert StartsWith(suf, ".");
    assert suf[1..] == Lower(ext);
  }

  /** Lower-casing leaves the dot in front of an extension. */
  lemma LowerAfterDot(ext: string)
    ensures Lower("." + ext) == "." + Lower(ext)
  {
    var a := Lower("." + ext);
    var b := "." + Lower(ext);
    assert forall i :: 0 < i < |a| ==> a[i] == b[i];
  }

  /** A name without a dot past its first character has no extension: dot files such as
      `.gitignore` and names without any dot both give "(no_ext)". */
  lemma ExtKeyWithoutExtension(dir: string, name: string)
    requires dir == [] || dir[|dir| - 1] == '/'
    requires '/' !in name
    requires forall j :: 0 < j < |name| ==> name[j] != '.'
    ensures ExtKey(dir + name) == NoExt
  {
    NameAfterDir(dir, name);
  }

  /** A name whose last dot is its final character, such as `foo.` or `a.b.`, has no
      extension either. */
  lemma ExtKeyTrailingDot(dir: string, name: string)
    requires dir == [] || dir[|dir| - 1] == '/'
    requires '/' !in name
    ensures ExtKey(dir + name + ".") == NoExt
  {
    var n := name + ".";
    assert '/' !in n;
    assert dir + name + "." == dir + n;
    NameAfterDir(dir, n);
    assert LastIndexOf(n, '.') == |n| - 1;
  }

  // ---- the classification in main ----

  /** One entry of `collect_files`: size, modification time (compared only for equality)
      and the file's location. */
  datatype FileInfo = FileInfo(size: int, mtime: int, file: string)

  /** A dictionary from relative posix path to its entry, with its insertion order. */
  datatype Index = Index(order: seq<string>, info: map<string, FileInfo>)

  predicate ValidIndex(idx: Index) {
    (forall i, j :: 0 <= i < j < |idx.order| ==> idx.order[i] != idx.order[j])
    && (forall i :: 0 <= i < |idx.order| ==> idx.order[i] in idx.info)
    && (forall p :: p in idx.info ==> p in idx.order)
  }

  /** With `--ignore-meta`, paths ending in ".meta" are passed over. */
  predicate Considered(p: string, ignoreMeta: bool) {
    !(ignoreMeta && EndsWith(p, ".meta"))
  }

  /** The rule the comparison evidently intends for a path in both trees: a changed size
      or mtime means modified; with both equal, the two files' content hashes decide. */
  predicate IsModified(oldInfo: FileInfo, newInfo: FileInfo, hash: string -> string) {
    if oldInfo.size == newInfo.size && oldInfo.mtime == newInfo.mtime
    then hash(oldInfo.file) != hash(newInfo.file)
    else true
  }

  /** The rule as written: with size and mtime equal, the new side's hash is taken of `p`,
      the relative path string, and `file_hash` calls `p.open(...)`, which a `str` lacks. */
  function IsModifiedAsWritten(oldInfo: FileInfo, newInfo: FileInfo): Result<bool> {
    if oldInfo.size == newInfo.size && oldInfo.mtime == newInfo.mtime
    then Err(AttributeError("open"))
    else Ok(true)
  }

  /** A file left untouched between the two trees stops the comparison as written, where
      the intended rule reports it unmodified. */
  lemma AsWrittenFailsOnUntouchedFile(hash: string -> string)
    requires hash("old/a.txt") == hash("new/a.txt")
    ensures IsModifiedAsWritten(FileInfo(3, 7, "old/a.txt"), FileInfo(3, 7, "new/a.txt"))
            == Err(AttributeError("open"))
    ensures !IsModified(FileInfo(3, 7, "old/a.txt"), FileInfo(3, 7, "new/a.txt"), hash)
  {
  }

  /** Where the code as written reaches a verdict, the intended rule agrees with it. */
  lemma AsWrittenAgreesWhenNoHash(oldInfo: FileInfo, newInfo: FileInfo, hash: string -> string)
    ensures IsModifiedAsWritten(oldInfo, newInfo).Ok?
            ==> IsModifiedAsWritten(oldInfo, newInfo).value == IsModified(oldInfo, newInfo, hash)
  {
  }

  /** The paths of `order` that the first loop appends to `added`. */
  function AddedIn(order: seq<string>, oldInfo: map<string, FileInfo>, ignoreMeta: bool): seq<string> {
    if order == [] then []
    else
      var p := order[|order| - 1];
      AddedIn(order[..|order| - 1], oldInfo, ignoreMeta)
      + (if Considered(p, ignoreMeta) && p !in oldInfo then [p] else [])
  }

  /** The paths of `order` that the first loop appends to `modified`. */
  function ModifiedIn(order: seq<string>, newInfo: map<string, FileInfo>,
                      oldInfo: map<string, FileInfo>, ignoreMeta: bool,
                      hash: string -> string): seq<string>
  {
    if order == [] then []
    else
      var p := order[|order| - 1];
      ModifiedIn(order[..|order| - 1], newInfo, oldInfo, ignoreMeta, hash)
      + (if Considered(p, ignoreMeta) && p in oldInfo && p in newInfo
            && IsModified(oldInfo[p], newInfo[p], hash)
         then [p] else [])
  }

  /** The paths of `order` that the second loop appends to `deleted`. */
  function DeletedIn(order: seq<string>, newInfo: map<string, FileInfo>, ignoreMeta: bool): seq<string> {
    if order == [] then []
    else
      var p := order[|order| - 1];
      DeletedIn(order[..|order| - 1], newInfo, ignoreMeta)
      + (if Considered(p, ignoreMeta) && p !in newInfo then [p] else [])
  }

  lemma AddedSnoc(order: seq<string>, p: string, oldInfo: map<string, FileInfo>, ignoreMeta: bool)
    ensures AddedIn(order + [p], oldInfo, ignoreMeta)
            == AddedIn(order, oldInfo, ignoreMeta)
               + (if Considered(p, ignoreMeta) && p !in oldInfo then [p] else [])
  {
    assert (order + [p])[..|order|] == order;
  }

  /** One more entry of the new index: the prefix fold grows by that entry's verdict. */
  lemma NewIndexStep(order: seq<string>, i: nat, newInfo: map<string, FileInfo>,
                     oldInfo: map<string, FileInfo>, ignoreMeta: bool, hash: string -> string)
    requires i < |order|
    ensures AddedIn(order[..i + 1], oldInfo, ignoreMeta)
            == AddedIn(order[..i], oldInfo, ignoreMeta)
               + (if Considered(order[i], ignoreMeta) && order[i] !in oldInfo then [order[i]] else [])
    ensures ModifiedIn(order[..i + 1], newInfo, oldInfo, ignoreMeta, hash)
            == ModifiedIn(order[..i], newInfo, oldInfo, ignoreMeta, hash)
               + (if Considered(order[i], ignoreMeta) && order[i] in oldInfo && order[i] in newInfo
                     && IsModified(oldInfo[order[i]], newInfo[order[i]], hash)
                  then [order[i]] else [])
  {
    assert order[..i + 1] == order[..i] + [order[i]];
    AddedSnoc(order[..i], order[i], oldInfo, ignoreMeta);
    ModifiedSnoc(order[..i], order[i], newInfo, oldInfo, ignoreMeta, hash);
  }

  lemma OldIndexStep(order: seq<string>, i: nat, newInfo: map<string, FileInfo>, ignoreMeta: bool)
    requires i < |order|
    ensures DeletedIn(order[..i + 1], newInfo, ignoreMeta)
            == DeletedIn(order[..i], newInfo, ignoreMeta)
               + (if Considered(order[i], ignoreMeta) && order[i] !in newInfo then [order[i]] else [])
  {
    assert order[..i + 1][..i] == order[..i];
  }

  lemma ModifiedSnoc(order: seq<string>, p: string, newInfo: map<string, FileInfo>,
                     oldInfo: map<string, FileInfo>, ignoreMeta: bool, hash: string -> string)
    ensures ModifiedIn(order + [p], newInfo, oldInfo, ignoreMeta, hash)
            == ModifiedIn(order, newInfo, oldInfo, ignoreMeta, hash)
               + (if Considered(p, ignoreMeta) && p in oldInfo && p in newInfo
                     && IsModified(oldInfo[p], newInfo[p], hash)
                  then [p] else [])
  {
    assert (order + [p])[..|order|] == order;
  }

  /** The body of the first loop for one entry `p` of the new index: whether it is
      appended to `added`, to `modified`, or to neither. */
  method CompareEntry(p: string, newInfo: FileInfo, oldInfo: map<string, FileInfo>,
                      ignoreMeta: bool, hash: string -> string)
    returns (isAdded: bool, isModified: bool)
    ensures isAdded == (Considered(p, ignoreMeta) && p !in oldInfo)
    ensures isModified == (Considered(p, ignoreMeta) && p in oldInfo && IsModified(oldInfo[p], newInfo, hash))
  {
    isAdded, isModified := false, false;
    if ignoreMeta && EndsWith(p, ".meta") {
      return;
    }
    if p !in oldInfo {
      isAdded := true;
    } else {
      var previous := oldInfo[p];
      if previous.size == newInfo.size && previous.mtime == newInfo.mtime {
        isModified := hash(previous.file) != hash(newInfo.file);
      } else {
        isModified := true;
      }
    }
  }

  /** The first loop of `main`, over the new index. */
  method ScanNewIndex(oldIdx: Index, newIdx: Index, ignoreMeta: bool, hash: string -> string)
    returns (added: seq<string>, modified: seq<string>)
    requires forall i :: 0 <= i < |newIdx.order| ==> newIdx.order[i] in newIdx.info
    ensures added == AddedIn(newIdx.order, oldIdx.info, ignoreMeta)
    ensures modified == ModifiedIn(newIdx.order, newIdx.info, oldIdx.info, ignoreMeta, hash)
  {
    added, modified := [], [];
    var order := newIdx.order;
    for i := 0 to |order|
      invariant added == AddedIn(order[..i], oldIdx.info, ignoreMeta)
      invariant modified == ModifiedIn(order[..i], newIdx.info, oldIdx.info, ignoreMeta, hash)
    {
      var p := order[i];
      NewIndexStep(order, i, newIdx.info, oldIdx.info, ignoreMeta, hash);
      var isAdded, isModified := CompareEntry(p, newIdx.info[p], oldIdx.info, ignoreMeta, hash);
      if isAdded {
        added := added + [p];
      }
      if isModified {
        modified := modified + [p];
      }
    }
    assert order[..|order|] == order;
  }

  /** The second loop of `main`, over the old index. */
  method ScanOldIndex(oldIdx: Index, newIdx: Index, ignoreMeta: bool)
    returns (deleted: seq<string>)
    ensures deleted == DeletedIn(oldIdx.order, newIdx.info, ignoreMeta)
  {
    deleted := [];
    var order := oldIdx.order;
    for i := 0 to |order|
      invariant deleted == DeletedIn(order[..i], newIdx.info, ignoreMeta)
    {
      var p := order[i];
      OldIndexStep(order, i, newIdx.info, ignoreMeta);
      if ignoreMeta && EndsWith(p, ".meta") {
        continue;
      }
      if p !in newIdx.info {
        deleted := deleted + [p];
      }
    }
    assert order[..|order|] == order;
  }

  /** The added/modified/deleted partition of `main`; `deleted` stays empty without
      `--include-deleted`. */
  method Classify(oldIdx: Index, newIdx: Index, ignoreMeta: bool, includeDeleted: bool,
                  hash: string -> string)
    returns (added: seq<string>, modified: seq<string>, deleted: seq<string>)
    requires ValidIndex(oldIdx) && ValidIndex(newIdx)
    ensures added == AddedIn(newIdx.order, oldIdx.info, ignoreMeta)
    ensures modified == ModifiedIn(newIdx.order, newIdx.info, oldIdx.info, ignoreMeta, hash)
    ensures deleted == if includeDeleted then DeletedIn(oldIdx.order, newIdx.info, ignoreMeta) else []
  {
    added, modified := ScanNewIndex(oldIdx, newIdx, ignoreMeta, hash);
    deleted := [];
    if includeDeleted {
      deleted := ScanOldIndex(oldIdx, newIdx, ignoreMeta);
    }
  }

  lemma {:induction false} AddedMembers(order: seq<string>, oldInfo: map<string, FileInfo>,
                                        ignoreMeta: bool, p: string)
    ensures p in AddedIn(order, oldInfo, ignoreMeta)
            <==> p in order && Considered(p, ignoreMeta) && p !in oldInfo
  {
    if order != [] {
      var init := order[..|order| - 1];
      AddedMembers(init, oldInfo, ignoreMeta, p);
      assert order == init + [order[|order| - 1]];
    }
  }

  lemma {:induction false} ModifiedMembers(order: seq<string>, newInfo: map<string, FileInfo>,
                                           oldInfo: map<string, FileInfo>, ignoreMeta: bool,
                                           hash: string -> string, p: string)
    requires forall i :: 0 <= i < |order| ==> order[i] in newInfo
    ensures p in ModifiedIn(order, newInfo, oldInfo, ignoreMeta, hash)
            <==> p in order && Considered(p, ignoreMeta) && p in oldInfo
                 && IsModified(oldInfo[p], newInfo[p], hash)
  {
    if order != [] {
      var init := order[..|order| - 1];
      ModifiedMembers(init, newInfo, oldInfo, ignoreMeta, hash, p);
      assert order == init + [order[|order| - 1]];
    }
  }

  lemma {:induction false} DeletedMembers(order: seq<string>, newInfo: map<string, FileInfo>,
                                          ignoreMeta: bool, p: string)
    ensures p in DeletedIn(order, newInfo, ignoreMeta)
            <==> p in order && Considered(p, ignoreMeta) && p !in newInfo
  {
    if order != [] {
      var init := order[..|order| - 1];
      DeletedMembers(init, newInfo, ignoreMeta, p);
      assert order == init + [order[|order| - 1]];
    }
  }

  /** What the three lists hold: `added` is exactly the considered new paths the old tree
      lacks, `modified` exactly the considered common paths the rule reports, `deleted`
      exactly the considered old paths the new tree lacks; no list holds a ".meta" path
      under `--ignore-meta`, and an added path is never also modified. */
  lemma ClassificationMembers(oldIdx: Index, newIdx: Index, ignoreMeta: bool,
                              hash: string -> string, p: string)
    requires ValidIndex(oldIdx) && ValidIndex(newIdx)
    ensures var added := AddedIn(newIdx.order, oldIdx.info, ignoreMeta);
            var modified := ModifiedIn(newIdx.order, newIdx.info, oldIdx.info, ignoreMeta, hash);
            var deleted := DeletedIn(oldIdx.order, newIdx.info, ignoreMeta);
            (p in added <==> p in newIdx.info && p !in oldIdx.info && Considered(p, ignoreMeta))
            && (p in modified <==> p in newIdx.info && p in oldIdx.info && Considered(p, ignoreMeta)
                                   && IsModified(oldIdx.info[p], newIdx.info[p], hash))
            && (p in deleted <==> p in oldIdx.info && p !in newIdx.info && Considered(p, ignoreMeta))
            && (ignoreMeta && EndsWith(p, ".meta") ==> p !in added && p !in modified && p !in deleted)
            && !(p in added && p in modified)
  {
    AddedMembers(newIdx.order, oldIdx.info, ignoreMeta, p);
    ModifiedMembers(newIdx.order, newIdx.info, oldIdx.info, ignoreMeta, hash, p);
    DeletedMembers(oldIdx.order, newIdx.info, ignoreMeta, p);
  }

  /** A file whose size, mtime and content hash are unchanged is never reported modified. */
  lemma UntouchedNotModified(oldIdx: Index, newIdx: Index, ignoreMeta: bool,
                             hash: string -> string, p: string)
    requires ValidIndex(oldIdx) && ValidIndex(newIdx)
    requires p in oldIdx.info && p in newIdx.info
    requires oldIdx.info[p].size == newIdx.info[p].size
    requires oldIdx.info[p].mtime == newIdx.info[p].mtime
    requires hash(oldIdx.info[p].file) == hash(newIdx.info[p].file)
    ensures p !in ModifiedIn(newIdx.order, newIdx.info, oldIdx.info, ignoreMeta, hash)
  {
    ModifiedMembers(newIdx.order, newIdx.info, oldIdx.info, ignoreMeta, hash, p);
  }

  // ---- sort_items ----

  /** `new_idx.get(p, (0, ""))[0]` and its `old_idx` twin. */
  function SizeOf(info: map<string, FileInfo>, p: string): int {
    if p in info then info[p].size else 0
  }

  /** The tuple `(ext_key(p), s_key, p.lower())` */
  datatype SortKey = SortKey(ext: string, size: int, lowered: string)

  function KeyOf(p: string, info: map<string, FileInfo>, sizeDesc: bool): SortKey {
    var s := SizeOf(info, p);
    SortKey(ExtKey(p), if sizeDesc then -s else s, Lower(p))
  }

  /** Python's tuple comparison `a <= b`. */
  predicate KeyLe(a: SortKey, b: SortKey) {
    if a.ext != b.ext then StrLe(a.ext, b.ext)
    else if a.size != b.size then a.size < b.size
    else StrLe(a.lowered, b.lowered)
  }

  lemma KeyLeTotal(a: SortKey, b: SortKey)
    ensures KeyLe(a, b) || KeyLe(b, a)
  {
    StrLeTotal(a.ext, b.ext);
    StrLeTotal(a.lowered, b.lowered);
  }

  lemma KeyLeTransitive(a: SortKey, b: SortKey, c: SortKey)
    requires KeyLe(a, b) && KeyLe(b, c)
    ensures KeyLe(a, c)
  {
    if a.ext != b.ext && b.ext != c.ext {
      StrLeTransitive(a.ext, b.ext, c.ext);
      if a.ext == c.ext {
        StrLeAntisymmetric(a.ext, b.ext);
      }
    } else if a.ext == b.ext && b.ext == c.ext && a.size == b.size && b.size == c.size {
      StrLeTransitive(a.lowered, b.lowered, c.lowered);
    }
  }

  /** Each item's key is at most the next one's. */
  predicate SortedBy(items: seq<string>, key: string -> SortKey) {
    forall i :: 0 <= i < |items| - 1 ==> KeyLe(key(items[i]), key(items[i + 1]))
  }

  /** Put `p` into sorted `items` after every item whose key is at most its own. */
  function Insert(p: string, items: seq<string>, key: string -> SortKey): (r: seq<string>)
    ensures |r| == |items| + 1
    ensures multiset(r) == multiset(items) + multiset{p}
    ensures r[0] == p || (items != [] && r[0] == items[0])
    ensures SortedBy(items, key) ==> SortedBy(r, key)
  {
    if items == [] then [p]
    else if !KeyLe(key(items[0]), key(p)) then
      KeyLeTotal(key(items[0]), key(p));
      [p] + items
    else
      var rest := Insert(p, items[1..], key);
      assert items == [items[0]] + items[1..];
      [items[0]] + rest
  }

  /** Python's stable `sorted(items, key=key)`, as an insertion sort. */
  function SortBy(items: seq<string>, key: string -> SortKey): (r: seq<string>)
    ensures multiset(r) == multiset(items)
    ensures SortedBy(r, key)
  {
    if items == [] then []
    else
      var init := items[..|items| - 1];
      assert items == init + [items[|items| - 1]];
      Insert(items[|items| - 1], SortBy(init, key), key)
  }

  /** `sort_items(items, size_fn)`, with `size_fn` looking sizes up in `info`. */
  function SortItems(items: seq<string>, info: map<string, FileInfo>, sizeDesc: bool): (r: seq<string>)
    ensures multiset(r) == multiset(items)
  {
    SortBy(items, p => KeyOf(p, info, sizeDesc))
  }

  /** Sorted output orders every pair of items by extension key, then by size (largest
      first unless ascending), then by lower-cased path. */
  lemma {:induction false} SortItemsOrder(items: seq<string>, info: map<string, FileInfo>, sizeDesc: bool,
                                          i: int, j: int)
    requires 0 <= i < j < |SortItems(items, info, sizeDesc)|
    ensures var r := SortItems(items, info, sizeDesc);
            var a := r[i];
            var b := r[j];
            StrLe(ExtKey(a), ExtKey(b))
            && (ExtKey(a) == ExtKey(b) && sizeDesc ==> SizeOf(info, a) >= SizeOf(info, b))
            && (ExtKey(a) == ExtKey(b) && !sizeDesc ==> SizeOf(info, a) <= SizeOf(info, b))
            && (ExtKey(a) == ExtKey(b) && SizeOf(info, a) == SizeOf(info, b)
                ==> StrLe(Lower(a), Lower(b)))
  {
    var key := p => KeyOf(p, info, sizeDesc);
    var r := SortBy(items, key);
    SortedPairwise(r, key, i, j);
    var ka := KeyOf(r[i], info, sizeDesc);
    var kb := KeyOf(r[j], info, sizeDesc);
    if ka.ext == kb.ext {
      StrLeTotal(ka.ext, kb.ext);
    }
  }

  lemma {:induction false} SortedPairwise(items: seq<string>, key: string -> SortKey, i: int, j: int)
    requires SortedBy(items, key)
    requires 0 <= i < j < |items|
    ensures KeyLe(key(items[i]), key(items[j]))
    decreases j - i
  {
    if j > i + 1 {
      SortedPairwise(items, key, i + 1, j);
      KeyLeTransitive(key(items[i]), key(items[i + 1]), key(items[j]));
    }
  }
}
