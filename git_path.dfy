/** Scoping of log paths, which git reports relative to the top-level root, to the
    sub-directory the caller operates on (git_utils.py, normalize_git_path). */
module GitPath {
  import opened Wrappers
  import opened Text

  /** `normalize_git_path(log_path, path_prefix_str)`: `Some(p)` for a path inside the
      caller's directory (`Some("")` for that directory itself), `None` outside it. */
  function NormalizeGitPath(logPath: string, prefix: string): Option<string> {
    if prefix == [] then Some(logPath)
    else if logPath == prefix then Some([])
    else if StartsWith(logPath, prefix + "/") then Some(logPath[|prefix| + 1..])
    else None
  }

  /** The scanners keep a log path only when it normalises to a non-empty path
      (`if not normalized_path: continue`): both `""` and `None` are dropped. */
  function ScopedPath(logPath: string, prefix: string): (r: Option<string>)
    ensures r.Some? ==> r.value != []
  {
    var n := NormalizeGitPath(logPath, prefix);
    if n.Some? && n.value != [] then n else None
  }

  lemma NormalizeEmptyPrefix(logPath: string)
    ensures NormalizeGitPath(logPath, []) == Some(logPath)
  {
  }

  lemma NormalizePrefixItself(prefix: string)
    requires prefix != []
    ensures NormalizeGitPath(prefix, prefix) == Some([])
  {
  }

  /** Prefixing a relative path with the caller's directory and normalising gives it back. */
  lemma NormalizeUnderPrefix(prefix: string, rest: string)
    requires prefix != []
    ensures NormalizeGitPath(prefix + "/" + rest, prefix) == Some(rest)
  {
    var p := prefix + "/" + rest;
    assert p[..|prefix| + 1] == prefix + "/";
    assert p[|prefix| + 1..] == rest;
  }

  /** A non-empty prefix keeps exactly the prefix itself and the paths below it. */
  lemma NormalizeCases(logPath: string, prefix: string)
    requires prefix != []
    ensures NormalizeGitPath(logPath, prefix).None?
            <==> logPath != prefix && !StartsWith(logPath, prefix + "/")
    ensures NormalizeGitPath(logPath, prefix) == Some([])
            <==> logPath == prefix || logPath == prefix + "/"
    ensures NormalizeGitPath(logPath, prefix).Some? && logPath != prefix
            ==> prefix + "/" + NormalizeGitPath(logPath, prefix).value == logPath
  {
    if logPath != prefix && StartsWith(logPath, prefix + "/") {
      assert logPath == logPath[..|prefix| + 1] + logPath[|prefix| + 1..];
    }
  }

  /** What a scanner records for a kept path: the path itself when no prefix is active,
      otherwise the remainder below the prefix; never the empty path. */
  lemma ScopedPathInverse(logPath: string, prefix: string)
    requires ScopedPath(logPath, prefix).Some?
    ensures prefix == [] ==> ScopedPath(logPath, prefix).value == logPath
    ensures prefix != [] ==> logPath == prefix + "/" + ScopedPath(logPath, prefix).value
  {
    if prefix != [] {
      NormalizeCases(logPath, prefix);
    }
  }

  /** The caller working in `lib` sees `lib/core.py` as `core.py` and never sees
      `docs/readme.md`. */
  lemma SubdirectoryExample()
    ensures ScopedPath("lib/core.py", "lib") == Some("core.py")
    ensures ScopedPath("docs/readme.md", "lib") == None
  {
    NormalizeUnderPrefix("lib", "core.py");
    assert "docs/readme.md"[..4][0] != "lib/"[0];
  }
}
