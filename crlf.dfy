/** The byte rewriting of change-spaces-crlf.py: tab expansion, line-ending normalisation
    to LF, CRLF or CR, the binary-content heuristic and the per-file decision whether to
    skip, leave or rewrite a file. */
module ChangeSpacesCrlf {
  import opened Wrappers
  import opened Text
  import opened Progress

  newtype Byte = b: int | 0 <= b < 256

  const NUL: Byte := 0
  const TAB: Byte := 9
  const LF: Byte := 10
  const CR: Byte := 13
  const SPACE: Byte := 32

  /** How many times `b` occurs in `s`. */
  function Count(s: seq<Byte>, b: Byte): nat {
    if s == [] then 0 else (if s[0] == b then 1 else 0) + Count(s[1..], b)
  }

  lemma {:induction false} CountConcat(x: seq<Byte>, y: seq<Byte>, b: Byte)
    ensures Count(x + y, b) == Count(x, b) + Count(y, b)
  {
    if x != [] {
      assert (x + y)[0] == x[0];
      assert (x + y)[1..] == x[1..] + y;
      CountConcat(x[1..], y, b);
    } else {
      assert x + y == y;
    }
  }

  lemma {:induction false} CountAbsent(s: seq<Byte>, b: Byte)
    ensures Count(s, b) == 0 <==> b !in s
  {
    if s != [] {
      CountAbsent(s[1..], b);
      assert s == [s[0]] + s[1..];
    }
  }

  /** `s.replace(bytes([b]), rep)`: every occurrence of the single byte `b` becomes `rep`. */
  function ReplaceByte(s: seq<Byte>, b: Byte, rep: seq<Byte>): seq<Byte> {
    if s == [] then []
    else (if s[0] == b then rep else [s[0]]) + ReplaceByte(s[1..], b, rep)
  }

  /** `s.replace(b"\r\n", b"\n")`. The scan runs left to right and the two-byte pattern
      cannot overlap itself, so each CR directly followed by an LF is dropped. */
  function CollapseCrLf(s: seq<Byte>): seq<Byte> {
    if s == [] then []
    else if |s| >= 2 && s[0] == CR && s[1] == LF then [LF] + CollapseCrLf(s[2..])
    else [s[0]] + CollapseCrLf(s[1..])
  }

  /** `data.replace(b"\r\n", b"\n").replace(b"\r", b"\n")`: every line ending as LF. */
  function ToLf(data: seq<Byte>): seq<Byte> {
    ReplaceByte(CollapseCrLf(data), CR, [LF])
  }

  /** `normalize_line_endings(data, line_ending)` */
  function NormalizeLineEndings(data: seq<Byte>, lineEnding: string): (r: Result<seq<Byte>>)
    ensures r.Err? <==> lineEnding != "lf" && lineEnding != "crlf" && lineEnding != "cr"
    ensures r.Err? ==> r.error == UnsupportedLineEnding(lineEnding)
  {
    var normalized := ToLf(data);
    if lineEnding == "lf" then Ok(normalized)
    else if lineEnding == "crlf" then Ok(ReplaceByte(normalized, LF, [CR, LF]))
    else if lineEnding == "cr" then Ok(ReplaceByte(normalized, LF, [CR]))
    else Err(UnsupportedLineEnding(lineEnding))
  }

  /** `b" " * spaces` */
  function Spaces(n: nat): (r: seq<Byte>)
    ensures |r| == n && Count(r, SPACE) == n && Count(r, TAB) == 0
  {
    if n == 0 then [] else [SPACE] + Spaces(n - 1)
  }

  /** `transform_content(data, spaces, line_ending)`: tabs become `spaces` spaces when
      `spaces > 0`, then line endings are normalised. */
  function TransformContent(data: seq<Byte>, spaces: int, lineEnding: string): (r: Result<seq<Byte>>)
    ensures r.Err? <==> lineEnding != "lf" && lineEnding != "crlf" && lineEnding != "cr"
  {
    var transformed := if spaces > 0 then ReplaceByte(data, TAB, Spaces(spaces)) else data;
    NormalizeLineEndings(transformed, lineEnding)
  }

  // ---- facts about the two replacements ----

  /** Replacing a byte that does not occur changes nothing. */
  lemma {:induction false} ReplaceAbsent(s: seq<Byte>, b: Byte, rep: seq<Byte>)
    requires b !in s
    ensures ReplaceByte(s, b, rep) == s
  {
    if s != [] {
      ReplaceAbsent(s[1..], b, rep);
    }
  }

  /** A byte missing from the replacement occurs afterwards only where it occurred before
      and was not the replaced byte. */
  lemma {:induction false} ReplaceKeepsAbsent(s: seq<Byte>, b: Byte, rep: seq<Byte>, c: Byte)
    requires c !in rep && (c == b || c !in s)
    ensures c !in ReplaceByte(s, b, rep)
  {
    if s != [] {
      ReplaceKeepsAbsent(s[1..], b, rep, c);
    }
  }

  /** Each occurrence of `b` contributes the occurrences of `c` in `rep`. */
  lemma {:induction false} ReplaceCount(s: seq<Byte>, b: Byte, rep: seq<Byte>, c: Byte)
    requires c != b
    ensures Count(ReplaceByte(s, b, rep), c) == Count(s, c) + Count(s, b) * Count(rep, c)
  {
    if s != [] {
      var head := if s[0] == b then rep else [s[0]];
      var rest := ReplaceByte(s[1..], b, rep);
      ReplaceCount(s[1..], b, rep, c);
      CountConcat(head, rest, c);
      var k := Count(s[1..], b);
      if s[0] == b {
        assert (k + 1) * Count(rep, c) == k * Count(rep, c) + Count(rep, c);
      }
    }
  }

  /** Collapsing CRLF pairs keeps every byte other than CR and LF. */
  lemma {:induction false} CollapseCount(s: seq<Byte>, c: Byte)
    requires c != CR && c != LF
    ensures Count(CollapseCrLf(s), c) == Count(s, c)
  {
    if s != [] {
      if |s| >= 2 && s[0] == CR && s[1] == LF {
        CollapseCount(s[2..], c);
        assert s[1..][1..] == s[2..];
      } else {
        CollapseCount(s[1..], c);
      }
    }
  }

  lemma {:induction false} CollapseKeepsAbsent(s: seq<Byte>, c: Byte)
    requires c !in s
    ensures c !in CollapseCrLf(s)
  {
    if s != [] {
      if |s| >= 2 && s[0] == CR && s[1] == LF {
        CollapseKeepsAbsent(s[2..], c);
      } else {
        CollapseKeepsAbsent(s[1..], c);
      }
    }
  }

  /** Without a CR there is no pair to collapse. */
  lemma {:induction false} CollapseNoCr(s: seq<Byte>)
    requires CR !in s
    ensures CollapseCrLf(s) == s
  {
    if s != [] {
      CollapseNoCr(s[1..]);
    }
  }

  /** Without an LF there is no pair to collapse. */
  lemma {:induction false} CollapseNoLf(s: seq<Byte>)
    requires LF !in s
    ensures CollapseCrLf(s) == s
  {
    if s != [] {
      CollapseNoLf(s[1..]);
    }
  }

  /** Collapsing undoes the LF-to-CRLF expansion of CR-free text. */
  lemma {:induction false} CollapseExpand(s: seq<Byte>)
    requires CR !in s
    ensures CollapseCrLf(ReplaceByte(s, LF, [CR, LF])) == s
  {
    if s != [] {
      var rest := ReplaceByte(s[1..], LF, [CR, LF]);
      CollapseExpand(s[1..]);
      if s[0] == LF {
        var e := [CR, LF] + rest;
        assert e[2..] == rest;
      } else {
        assert ([s[0]] + rest)[1..] == rest;
      }
    }
  }

  /** Turning `a` into `b` and back gives the original when `b` did not occur. */
  lemma {:induction false} ReplaceBack(s: seq<Byte>, a: Byte, b: Byte)
    requires b !in s
    ensures ReplaceByte(ReplaceByte(s, a, [b]), b, [a]) == s
  {
    if s != [] {
      ReplaceBack(s[1..], a, b);
      var head := if s[0] == a then [b] else [s[0]];
      var rest := ReplaceByte(s[1..], a, [b]);
      assert (head + rest)[0] == head[0] && (head + rest)[1..] == rest;
    }
  }

  /** Every CR is immediately followed by an LF and every LF immediately preceded by a CR. */
  predicate CrLfPaired(s: seq<Byte>) {
    (forall i :: 0 <= i < |s| && s[i] == CR ==> i + 1 < |s| && s[i + 1] == LF)
    && (forall i :: 0 <= i < |s| && s[i] == LF ==> 0 < i && s[i - 1] == CR)
  }

  lemma {:induction false} ExpandPaired(s: seq<Byte>)
    requires CR !in s
    ensures CrLfPaired(ReplaceByte(s, LF, [CR, LF]))
  {
    if s != [] {
      var rest := ReplaceByte(s[1..], LF, [CR, LF]);
      ExpandPaired(s[1..]);
      assert rest == [] || rest[0] != LF;
      if s[0] == LF {
        var e := [CR, LF] + rest;
        assert forall i :: 2 <= i < |e| ==> e[i] == rest[i - 2];
      } else {
        var e := [s[0]] + rest;
        assert forall i :: 1 <= i < |e| ==> e[i] == rest[i - 1];
      }
    }
  }

  /** The LF form holds no CR. */
  lemma ToLfNoCr(data: seq<Byte>)
    ensures CR !in ToLf(data)
  {
    ReplaceKeepsAbsent(CollapseCrLf(data), CR, [LF], CR);
  }

  /** Text already in LF form is its own LF form. */
  lemma ToLfOfLf(s: seq<Byte>)
    requires CR !in s
    ensures ToLf(s) == s
  {
    CollapseNoCr(s);
    ReplaceAbsent(s, CR, [LF]);
  }

  lemma ToLfCount(data: seq<Byte>, c: Byte)
    requires c != CR && c != LF
    ensures Count(ToLf(data), c) == Count(data, c)
  {
    CollapseCount(data, c);
    ReplaceCount(CollapseCrLf(data), CR, [LF], c);
  }

  // ---- the promised properties of normalize_line_endings ----

  /** Target "lf": no CR is left. */
  lemma LfHasNoCr(data: seq<Byte>)
    ensures NormalizeLineEndings(data, "lf").Ok?
    ensures CR !in NormalizeLineEndings(data, "lf").value
  {
    ToLfNoCr(data);
  }

  /** Target "crlf": CR and LF occur only as CRLF pairs. */
  lemma CrlfIsPaired(data: seq<Byte>)
    ensures NormalizeLineEndings(data, "crlf").Ok?
    ensures CrLfPaired(NormalizeLineEndings(data, "crlf").value)
  {
    ToLfNoCr(data);
    ExpandPaired(ToLf(data));
  }

  /** Target "cr": no LF is left. */
  lemma CrHasNoLf(data: seq<Byte>)
    ensures NormalizeLineEndings(data, "cr").Ok?
    ensures LF !in NormalizeLineEndings(data, "cr").value
  {
    ReplaceKeepsAbsent(ToLf(data), LF, [CR], LF);
  }

  /** Normalising twice to the same target is normalising once. */
  lemma NormalizeIdempotent(data: seq<Byte>, lineEnding: string)
    requires NormalizeLineEndings(data, lineEnding).Ok?
    ensures var once := NormalizeLineEndings(data, lineEnding).value;
            NormalizeLineEndings(once, lineEnding) == Ok(once)
  {
    var n := ToLf(data);
    ToLfNoCr(data);
    if lineEnding == "lf" {
      ToLfOfLf(n);
    } else if lineEnding == "crlf" {
      var once := ReplaceByte(n, LF, [CR, LF]);
      CollapseExpand(n);
      ReplaceAbsent(n, CR, [LF]);
      assert ToLf(once) == n;
    } else {
      var once := ReplaceByte(n, LF, [CR]);
      ReplaceKeepsAbsent(n, LF, [CR], LF);
      CollapseNoLf(once);
      ReplaceBack(n, LF, CR);
      assert ToLf(once) == n;
    }
  }

  /** Normalisation rewrites line endings only: every other byte keeps its count. */
  lemma NormalizeCount(data: seq<Byte>, lineEnding: string, c: Byte)
    requires c != CR && c != LF
    requires NormalizeLineEndings(data, lineEnding).Ok?
    ensures Count(NormalizeLineEndings(data, lineEnding).value, c) == Count(data, c)
  {
    var n := ToLf(data);
    ToLfCount(data, c);
    if lineEnding == "crlf" {
      ReplaceCount(n, LF, [CR, LF], c);
      CountAbsent([CR, LF], c);
    } else if lineEnding == "cr" {
      ReplaceCount(n, LF, [CR], c);
      CountAbsent([CR], c);
    }
  }

  lemma NormalizeKeepsAbsent(data: seq<Byte>, lineEnding: string, c: Byte)
    requires c != CR && c != LF && c !in data
    requires NormalizeLineEndings(data, lineEnding).Ok?
    ensures c !in NormalizeLineEndings(data, lineEnding).value
  {
    NormalizeCount(data, lineEnding, c);
    CountAbsent(data, c);
    CountAbsent(NormalizeLineEndings(data, lineEnding).value, c);
  }

  // ---- the promised properties of transform_content ----

  /** With `spaces > 0` no tab is left and each tab has become `spaces` spaces; otherwise
      every tab is kept. */
  lemma TransformTabs(data: seq<Byte>, spaces: int, lineEnding: string)
    requires TransformContent(data, spaces, lineEnding).Ok?
    ensures var out := TransformContent(data, spaces, lineEnding).value;
            if spaces > 0 then
              TAB !in out && Count(out, SPACE) == Count(data, SPACE) + spaces * Count(data, TAB)
            else
              Count(out, TAB) == Count(data, TAB)
  {
    if spaces > 0 {
      ExpandTabs(data, spaces);
      var expanded := ReplaceByte(data, TAB, Spaces(spaces));
      NormalizeKeepsAbsent(expanded, lineEnding, TAB);
      NormalizeCount(expanded, lineEnding, SPACE);
    } else {
      NormalizeCount(data, lineEnding, TAB);
    }
  }

  /** `data.replace(b"\t", b" " * spaces)` leaves no tab and adds `spaces` spaces per tab. */
  lemma ExpandTabs(data: seq<Byte>, spaces: nat)
    ensures var expanded := ReplaceByte(data, TAB, Spaces(spaces));
            TAB !in expanded
            && Count(expanded, SPACE) == Count(data, SPACE) + spaces * Count(data, TAB)
  {
    var sp := Spaces(spaces);
    CountAbsent(sp, TAB);
    ReplaceKeepsAbsent(data, TAB, sp, TAB);
    ReplaceCount(data, TAB, sp, SPACE);
    var tabs := Count(data, TAB);
    assert Count(sp, SPACE) == spaces;
    assert tabs * Count(sp, SPACE) == tabs * spaces == spaces * tabs;
  }

  /** Transforming the transformed content again changes nothing. */
  lemma TransformIdempotent(data: seq<Byte>, spaces: int, lineEnding: string)
    requires TransformContent(data, spaces, lineEnding).Ok?
    ensures var out := TransformContent(data, spaces, lineEnding).value;
            TransformContent(out, spaces, lineEnding) == Ok(out)
  {
    var expanded := if spaces > 0 then ReplaceByte(data, TAB, Spaces(spaces)) else data;
    var out := NormalizeLineEndings(expanded, lineEnding).value;
    NormalizeIdempotent(expanded, lineEnding);
    if spaces > 0 {
      TransformTabs(data, spaces, lineEnding);
      ReplaceAbsent(out, TAB, Spaces(spaces));
    }
  }

  // ---- looks_binary ----

  const SampleSize := 4096

  /** A byte `looks_binary` counts as non-text: a control byte other than tab, LF and CR,
      or DEL (127). */
  predicate IsNonText(b: Byte) {
    !(b == TAB || b == LF || b == CR || (32 <= b <= 126) || b >= 128)
  }

  function NonTextCount(s: seq<Byte>): (n: nat)
    ensures n <= |s|
  {
    if s == [] then 0
    else NonTextCount(s[..|s| - 1]) + (if IsNonText(s[|s| - 1]) then 1 else 0)
  }

  /** `data[:4096]` */
  function Sample(data: seq<Byte>): seq<Byte> {
    if |data| <= SampleSize then data else data[..SampleSize]
  }

  /** The heuristic as a formula. `non_text / len(sample) > 0.30` compares floats; for a
      sample of at most 4096 bytes it agrees with `10 * non_text > 3 * len(sample)`. */
  predicate LooksBinarySpec(data: seq<Byte>) {
    data != []
    && (NUL in data || 10 * NonTextCount(Sample(data)) > 3 * |Sample(data)|)
  }

  /** `looks_binary(data)` */
  method LooksBinary(data: seq<Byte>) returns (binary: bool)
    ensures binary == LooksBinarySpec(data)
  {
    if data == [] {
      return false;
    }
    if NUL in data {
      return true;
    }
    var sample := if |data| <= SampleSize then data else data[..SampleSize];
    var nonText := 0;
    for i := 0 to |sample|
      invariant nonText == NonTextCount(sample[..i])
    {
      assert sample[..i + 1][..i] == sample[..i];
      var b := sample[i];
      if !(b == TAB || b == LF || b == CR) && !(32 <= b <= 126) && !(b >= 128) {
        nonText := nonText + 1;
      }
    }
    assert sample[..|sample|] == sample;
    binary := 10 * nonText > 3 * |sample|;
  }

  lemma {:induction false} NonTextCountNone(s: seq<Byte>)
    requires forall i :: 0 <= i < |s| ==> !IsNonText(s[i])
    ensures NonTextCount(s) == 0
  {
    if s != [] {
      NonTextCountNone(s[..|s| - 1]);
    }
  }

  lemma {:induction false} NonTextCountAll(s: seq<Byte>)
    requires forall i :: 0 <= i < |s| ==> IsNonText(s[i])
    ensures NonTextCount(s) == |s|
  {
    if s != [] {
      NonTextCountAll(s[..|s| - 1]);
    }
  }

  /** Empty data is text, data holding a NUL byte is binary, a NUL-free sample of text bytes
      is text and a non-empty sample of non-text bytes is binary. */
  lemma LooksBinaryCases(data: seq<Byte>)
    ensures data == [] ==> !LooksBinarySpec(data)
    ensures NUL in data ==> LooksBinarySpec(data)
    ensures NUL !in data && (forall i :: 0 <= i < |Sample(data)| ==> !IsNonText(Sample(data)[i]))
            ==> !LooksBinarySpec(data)
    ensures data != [] && (forall i :: 0 <= i < |Sample(data)| ==> IsNonText(Sample(data)[i]))
            ==> LooksBinarySpec(data)
  {
    var s := Sample(data);
    if forall i :: 0 <= i < |s| ==> !IsNonText(s[i]) {
      NonTextCountNone(s);
    }
    if forall i :: 0 <= i < |s| ==> IsNonText(s[i]) {
      NonTextCountAll(s);
    }
  }

  /** Past the first 4096 bytes only a NUL byte can change the verdict. */
  lemma LooksBinaryIgnoresTail(head: seq<Byte>, tail: seq<Byte>)
    requires |head| >= SampleSize && NUL !in tail
    ensures LooksBinarySpec(head + tail) == LooksBinarySpec(head)
  {
    assert (head + tail)[..SampleSize] == head[..SampleSize];
    assert Sample(head + tail) == Sample(head);
    assert (NUL in head + tail) == (NUL in head);
  }

  // ---- process_file ----

  /** What `process_file` reports: `changed` and `binarySkipped` are its two results, and
      `written` is the content it writes back, if any. */
  datatype FileOutcome = FileOutcome(changed: bool, binarySkipped: bool, written: Option<seq<Byte>>)

  /** The decision of `process_file` on the file's bytes. */
  function FileDecision(original: seq<Byte>, spaces: int, lineEnding: string,
                        includeBinary: bool, dryRun: bool): Result<FileOutcome>
  {
    if LooksBinarySpec(original) && !includeBinary then Ok(FileOutcome(false, true, None))
    else
      match TransformContent(original, spaces, lineEnding)
      case Err(e) => Err(e)
      case Ok(transformed) =>
        if transformed == original then Ok(FileOutcome(false, false, None))
        else if dryRun then Ok(FileOutcome(true, false, None))
        else Ok(FileOutcome(true, false, Some(transformed)))
  }

  /** `process_file` with the file read into `original`; the file is written exactly when
      `written` is present. */
  method ProcessFile(original: seq<Byte>, spaces: int, lineEnding: string,
                     includeBinary: bool, dryRun: bool) returns (r: Result<FileOutcome>)
    ensures r == FileDecision(original, spaces, lineEnding, includeBinary, dryRun)
  {
    var isBinary := LooksBinary(original);
    if isBinary && !includeBinary {
      return Ok(FileOutcome(false, true, None));
    }
    var transformed := TransformContent(original, spaces, lineEnding);
    if transformed.Err? {
      return Err(transformed.error);
    }
    if transformed.value == original {
      return Ok(FileOutcome(false, false, None));
    }
    if dryRun {
      return Ok(FileOutcome(true, false, None));
    }
    r := Ok(FileOutcome(true, false, Some(transformed.value)));
  }

  /** A skipped binary file is never changed; a file is written only outside a dry run,
      only with new content, and that content is the transformed original. */
  lemma FileDecisionSound(original: seq<Byte>, spaces: int, lineEnding: string,
                          includeBinary: bool, dryRun: bool)
    requires FileDecision(original, spaces, lineEnding, includeBinary, dryRun).Ok?
    ensures var o := FileDecision(original, spaces, lineEnding, includeBinary, dryRun).value;
            (o.binarySkipped <==> LooksBinarySpec(original) && !includeBinary)
            && (o.binarySkipped ==> !o.changed)
            && (o.written.Some? <==> o.changed && !dryRun)
            && (o.changed <==> !o.binarySkipped
                               && TransformContent(original, spaces, lineEnding).value != original)
            && (o.written.Some? ==> o.written.value == TransformContent(original, spaces, lineEnding).value)
  {
  }

  /** Running the tool a second time over a file it rewrote finds nothing to change. */
  lemma SecondRunUnchanged(original: seq<Byte>, spaces: int, lineEnding: string,
                           includeBinary: bool, dryRun: bool)
    requires FileDecision(original, spaces, lineEnding, includeBinary, false).Ok?
    requires FileDecision(original, spaces, lineEnding, includeBinary, false).value.written.Some?
    ensures var w := FileDecision(original, spaces, lineEnding, includeBinary, false).value.written.value;
            var again := FileDecision(w, spaces, lineEnding, includeBinary, dryRun);
            again.Ok? && !again.value.changed && again.value.written.None?
  {
    TransformIdempotent(original, spaces, lineEnding);
  }

  /** The tracker of change-spaces-crlf.py: enabled for a positive total, announcing the
      total, one report per percent change. */
  method StartTracker(total: int) returns (t: ProgressTracker)
    ensures fresh(t)
    ensures t.total == total && t.enabled == (total > 0) && !t.printAllPercentTransitions
    ensures t.processed == 0 && t.lastPercent == -1
    ensures t.printed == if total > 0 then [Message("Total files to process: " + IntToString(total))] else []
  {
    t := new ProgressTracker(total, 1, Some("Total files to process: " + IntToString(total)), false);
  }
}
