/** The coverage-closure prototype (llm_coverage_pipeline.py).

    Each round reads the simulator's text report, collects the lines it marks as not
    covered, shows the model the RTL lines of the first three gaps with a note on each,
    takes the first SystemVerilog block of the answer as the next test, and stops when
    no gap is left, when the answer holds no such block, when the report's total reaches
    the target, or after the given number of rounds. The simulator, the model and the
    files are inputs; the shell commands, the console output and the model's sampling
    are not modelled. */
module CoveragePipeline {
  import opened Text

  // ---------------------------------------------------------------------------
  // Coverage items (`CoverageItem`, `parse_vcs_coverage`)
  // ---------------------------------------------------------------------------

  /** One uncovered region: a file, an inclusive range of 1-based lines and a note. */
  datatype CoverageItem = CoverageItem(file: string, lineStart: nat, lineEnd: nat, description: string)

  /** The non-breaking hyphen (U+2011) that the report and the headers put between the
      two ends of a line range. */
  const RangeDash: string := "\U{2011}"

  const DefaultDescription: string := "code" + RangeDash + "coverage"

  const NotCovered: string := "[Not Covered]"

  const FileKey: string := "file:"

  const LineKey: string := "line:"

  /** Length of the leading run of whitespace: what a greedy `\s*` consumes. */
  function SpaceLen(t: string): (n: nat)
    ensures n <= |t| && (n < |t| ==> !IsSpace(t[n]))
  {
    if t != [] && IsSpace(t[0]) then 1 + SpaceLen(t[1..]) else 0
  }

  /** Length of the leading run of ASCII digits: what a greedy `\d+` consumes. */
  function DigitLen(t: string): (n: nat)
    ensures n <= |t| && AllDigits(t[..n]) && (n < |t| ==> !IsDigit(t[n]))
  {
    if t != [] && IsDigit(t[0]) then
      var n := 1 + DigitLen(t[1..]);
      assert t[..n] == [t[0]] + t[1..][..n - 1];
      n
    else 0
  }

  /** Length of the leading run without a line feed: what a greedy `.*` consumes. */
  function DotLen(t: string): (n: nat)
    ensures n <= |t| && (n < |t| ==> t[n] == '\n')
  {
    if t != [] && t[0] != '\n' then 1 + DotLen(t[1..]) else 0
  }

  /** `\s*line:\d` matches at the start of `x`. */
  predicate LineKeyHere(x: string) {
    var y := x[SpaceLen(x)..];
    At(y, 0, LineKey) && 5 < |y| && IsDigit(y[5])
  }

  /** The greatest `e` in `[1, n)` after which `\s*line:\d` matches. */
  function LastKeyBefore(w: string, n: nat): (r: Option<nat>)
    ensures r.Some? ==> 1 <= r.value < n && r.value <= |w| && LineKeyHere(w[r.value..])
    decreases n
  {
    if n <= 1 then None
    else if n - 1 <= |w| && LineKeyHere(w[n - 1..]) then Some(n - 1)
    else LastKeyBefore(w, n - 1)
  }

  lemma {:induction false} LastKeyGreatest(w: string, n: nat, k: nat)
    requires 1 <= k < n && k <= |w|
    requires LastKeyBefore(w, n).None? || LastKeyBefore(w, n).value < k
    ensures !LineKeyHere(w[k..])
    decreases n
  {
    if k < n - 1 {
      LastKeyGreatest(w, n - 1, k);
    }
  }

  /** How far the greedy `(?P<file>\S+)` group at the start of `w` reaches once the regex
      has backtracked enough for `\s*line:\d` to follow: the longest such prefix of the
      leading run of non-space characters. */
  function FileLen(w: string): (r: Option<nat>)
    ensures r.Some? ==> 0 < r.value <= TokenLen(w) && LineKeyHere(w[r.value..])
  {
    LastKeyBefore(w, TokenLen(w) + 1)
  }

  /** No longer file group would let the rest of the pattern match. */
  lemma FileLenGreatest(w: string, k: nat)
    requires 0 < k <= TokenLen(w)
    requires FileLen(w).None? || FileLen(w).value < k
    ensures !LineKeyHere(w[k..])
  {
    LastKeyGreatest(w, TokenLen(w) + 1, k);
  }

  /** `desc.strip() or "code‑coverage"`. */
  function Description(t: string): (r: string)
    ensures r != []
  {
    var d := Strip(t);
    if d == [] then DefaultDescription else d
  }

  /** The `\s*(?P<desc>.*)` tail, stripped, or the default note. */
  function Note(r: string): (d: string)
    ensures d != []
  {
    var q := r[SpaceLen(r)..];
    Description(q[..DotLen(q)])
  }

  /** The optional `‑(?P<end>\d+)` group and the note after the start line. */
  function RangeAndNote(file: string, start: nat, r: string): CoverageItem {
    if At(r, 0, RangeDash) && 1 < |r| && IsDigit(r[1]) then
      var m := DigitLen(r[1..]);
      CoverageItem(file, start, DigitsValue(r[1..][..m]), Note(r[1..][m..]))
    else CoverageItem(file, start, start, Note(r))
  }

  /** The groups after the file group, read from the text `x` that follows it. */
  function Fields(file: string, x: string): (it: CoverageItem)
    requires LineKeyHere(x)
    ensures it.file == file && it.description != []
  {
    var z := x[SpaceLen(x) + 5..];
    var n := DigitLen(z);
    RangeAndNote(file, DigitsValue(z[..n]), z[n..])
  }

  /** The pattern matched at the start of `t`, with its groups read into an item. */
  function MatchHere(t: string): (r: Option<CoverageItem>)
    ensures r.Some? ==> At(t, 0, NotCovered)
    ensures r.Some? ==> r.value.file != [] && NoSpace(r.value.file) && r.value.description != []
  {
    if !At(t, 0, NotCovered) then None
    else
      var u := t[|NotCovered|..];
      var k := SpaceLen(u);
      if k == 0 || !At(u, k, FileKey) then None
      else
        var v := u[k + |FileKey|..];
        FileAndFields(v[SpaceLen(v)..])
  }

  /** The file group, the longest token prefix that a line key follows, and the groups
      after it, read from the text `w` after `file:` and its spaces. */
  function FileAndFields(w: string): (r: Option<CoverageItem>)
    ensures r.Some? ==> r.value.file != [] && NoSpace(r.value.file) && r.value.description != []
  {
    match FileLen(w)
    case None => None
    case Some(e) =>
      assert w[..e] == w[..TokenLen(w)][..e];
      Some(Fields(w[..e], w[e..]))
  }

  function ItemTest(s: string): nat -> bool {
    (i: nat) => i <= |s| && MatchHere(s[i..]).Some?
  }

  /** `pattern.search(ln)`: the leftmost match, read into an item. */
  function ParseLine(s: string): (r: Option<CoverageItem>)
    ensures r.Some? ==> r.value.file != [] && NoSpace(r.value.file) && r.value.description != []
  {
    match FirstIndex(ItemTest(s), 0, |s|)
    case None => None
    case Some(i) => assert ItemTest(s)(i); MatchHere(s[i..])
  }

  /** An item as a report line would state it; a single line is written without a range. */
  function FormatItem(it: CoverageItem): string {
    NotCovered + (" " + (FileKey + (" " + (it.file + ReportTail(it)))))
  }

  function ReportTail(it: CoverageItem): string {
    " " + (LineKey + (NatToString(it.lineStart) + (RangeText(it) + (" " + it.description))))
  }

  function RangeText(it: CoverageItem): string {
    if it.lineEnd == it.lineStart then [] else RangeDash + NatToString(it.lineEnd)
  }

  /** Items a report line can carry: a file without spaces and a note that is already
      stripped and stays on one line. */
  predicate Reportable(it: CoverageItem) {
    it.file != [] && NoSpace(it.file) && it.description != []
    && Strip(it.description) == it.description && '\n' !in it.description
  }

  /** Whitespace-free text after one space: the space is the whole `\s*` run. */
  lemma OneSpace(c: char, y: string)
    requires IsSpace(c) && (y == [] || !IsSpace(y[0]))
    ensures SpaceLen([c] + y) == 1 && ([c] + y)[1..] == y
  {
    assert ([c] + y)[1..] == y;
  }

  /** A stripped one-line note after a space reads back as itself. */
  lemma NoteReads(d: string)
    requires d != [] && Strip(d) == d && '\n' !in d
    ensures Note(" " + d) == d
  {
    assert !IsSpace(d[0]);
    OneSpace(' ', d);
    DotLenOver(d);
    assert d[..|d|] == d;
  }

  lemma {:induction false} DotLenOver(d: string)
    requires '\n' !in d
    ensures DotLen(d) == |d|
  {
    if d != [] {
      assert d[0] in d;
      assert forall k | 0 <= k < |d[1..]| :: d[1..][k] in d;
      DotLenOver(d[1..]);
    }
  }

  /** A numeral that a non-digit follows is one digit run. */
  lemma {:induction false} NumeralReads(a: string, r: string)
    requires AllDigits(a) && (r == [] || !IsDigit(r[0]))
    ensures DigitLen(a + r) == |a| && (a + r)[..|a|] == a && (a + r)[|a|..] == r
  {
    if a != [] {
      assert (a + r)[1..] == a[1..] + r;
      NumeralReads(a[1..], r);
    }
  }

  /** A single line: no range group, and the note reads back. */
  lemma NoRangeReads(d: string, file: string, start: nat)
    requires d != [] && Strip(d) == d && '\n' !in d
    ensures RangeAndNote(file, start, " " + d) == CoverageItem(file, start, start, d)
  {
    NoteReads(d);
    assert !At(" " + d, 0, RangeDash);
  }

  /** A range: the end numeral after the dash, and the note read back. */
  lemma RangeReads(end: nat, d: string, file: string, start: nat)
    requires d != [] && Strip(d) == d && '\n' !in d
    ensures RangeAndNote(file, start, RangeDash + (NatToString(end) + (" " + d)))
      == CoverageItem(file, start, end, d)
  {
    var b := NatToString(end);
    var r := RangeDash + (b + (" " + d));
    assert r[1..] == b + (" " + d);
    NumeralReads(b, " " + d);
    DigitsValueOfNatToString(end);
    NoteReads(d);
  }

  /** The line key, both line numbers and the note read back from a formatted tail. */
  lemma TailReads(it: CoverageItem, file: string)
    requires Reportable(it)
    ensures LineKeyHere(ReportTail(it))
    ensures Fields(file, ReportTail(it)) == CoverageItem(file, it.lineStart, it.lineEnd, it.description)
  {
    TailFields(it, file);
    RestReads(it, file);
  }

  /** The optional range and the note read back. */
  lemma RestReads(it: CoverageItem, file: string)
    requires Reportable(it)
    ensures RangeAndNote(file, it.lineStart, RangeText(it) + (" " + it.description))
      == CoverageItem(file, it.lineStart, it.lineEnd, it.description)
  {
    var r := RangeText(it) + (" " + it.description);
    if it.lineEnd == it.lineStart {
      assert r == " " + it.description;
      NoRangeReads(it.description, file, it.lineStart);
    } else {
      assert r == RangeDash + (NatToString(it.lineEnd) + (" " + it.description));
      RangeReads(it.lineEnd, it.description, file, it.lineStart);
    }
  }

  /** The line key and start numeral read back, leaving the range and the note. */
  lemma TailFields(it: CoverageItem, file: string)
    requires Reportable(it)
    ensures LineKeyHere(ReportTail(it))
    ensures Fields(file, ReportTail(it))
      == RangeAndNote(file, it.lineStart, RangeText(it) + (" " + it.description))
  {
    var x := ReportTail(it);
    var a := NatToString(it.lineStart);
    var r := RangeText(it) + (" " + it.description);
    var y := LineKey + (a + r);
    OneSpace(' ', y);
    assert x[SpaceLen(x)..] == y;
    assert y[5..] == a + r;
    assert r[0] == RangeDash[0] || r[0] == ' ';
    NumeralReads(a, r);
    DigitsValueOfNatToString(it.lineStart);
  }

  /** A run of non-space characters that whitespace or the end closes is one token. */
  lemma {:induction false} TokenReads(x: string, y: string)
    requires NoSpace(x) && (y == [] || IsSpace(y[0]))
    ensures TokenLen(x + y) == |x|
  {
    if x != [] {
      assert (x + y)[1..] == x[1..] + y;
      assert NoSpace(x[1..]) by {
        forall k | 0 <= k < |x[1..]| ensures !IsSpace(x[1..][k]) {
          assert x[1..][k] == x[k + 1];
        }
      }
      TokenReads(x[1..], y);
    }
  }

  /** The file group stops right before the formatted tail. */
  lemma FileReads(it: CoverageItem)
    requires Reportable(it)
    ensures FileLen(it.file + ReportTail(it)) == Some(|it.file|)
  {
    var w := it.file + ReportTail(it);
    TokenReads(it.file, ReportTail(it));
    assert w[|it.file|..] == ReportTail(it);
    TailReads(it, it.file);
    assert LineKeyHere(w[|it.file|..]);
  }

  /** The fixed head of a report line leads the matcher to the file group at `w`. */
  lemma HeadReads(w: string)
    requires w != [] && !IsSpace(w[0])
    ensures MatchHere(NotCovered + (" " + (FileKey + (" " + w)))) == FileAndFields(w)
  {
    var t := NotCovered + (" " + (FileKey + (" " + w)));
    var u := " " + (FileKey + (" " + w));
    assert t[..|NotCovered|] == NotCovered;
    assert t[|NotCovered|..] == u;
    OneSpace(' ', FileKey + (" " + w));
    assert u[1..1 + |FileKey|] == FileKey;
    assert u[1 + |FileKey|..] == " " + w;
    OneSpace(' ', w);
  }

  /** The whole pattern matches a formatted line at its start and reads back the item. */
  lemma MatchReads(it: CoverageItem)
    requires Reportable(it)
    ensures MatchHere(FormatItem(it)) == Some(it)
  {
    var w := it.file + ReportTail(it);
    assert !IsSpace(w[0]);
    HeadReads(w);
    FileReads(it);
    assert w[..|it.file|] == it.file && w[|it.file|..] == ReportTail(it);
    TailReads(it, it.file);
    assert FileAndFields(w) == Some(it);
  }

  /** Round trip: the parser reads a formatted report line back as the item it states. */
  lemma ParseFormatted(it: CoverageItem)
    requires Reportable(it)
    ensures ParseLine(FormatItem(it)) == Some(it)
  {
    var s := FormatItem(it);
    assert s[0..] == s;
    MatchReads(it);
    assert ItemTest(s)(0);
  }

  /** A line without the `[Not Covered]` tag yields no item. */
  lemma UntaggedLineSkipped(s: string)
    requires !Contains(s, NotCovered)
    ensures ParseLine(s).None?
  {
    var r := FirstIndex(ItemTest(s), 0, |s|);
    if r.Some? {
      assert ItemTest(s)(r.value);
      ContainsInSuffix(s, r.value, NotCovered);
    }
  }

  /** What a per-line parser finds in `lines`, in line order: the specification of
      `parse_vcs_coverage`'s loop with `parse` the line pattern. */
  function Collect<T>(parse: string -> Option<T>, lines: seq<string>): seq<T> {
    if lines == [] then []
    else
      Collect(parse, lines[..|lines| - 1])
      + match parse(lines[|lines| - 1]) case Some(x) => [x] case None => []
  }

  /** Lines are read independently: what two stretches of the report yield is what the
      first yields followed by what the second yields. */
  lemma {:induction false} CollectAppend<T>(parse: string -> Option<T>, a: seq<string>, b: seq<string>)
    ensures Collect(parse, a + b) == Collect(parse, a) + Collect(parse, b)
    decreases |b|
  {
    if b == [] {
      assert a + b == a;
    } else {
      var c := b[..|b| - 1];
      assert (a + b)[..|a + b| - 1] == a + c;
      assert (a + b)[|a + b| - 1] == b[|b| - 1];
      CollectAppend(parse, a, c);
    }
  }

  /** Lines the parser rejects contribute nothing, wherever they stand. */
  lemma CollectSkips<T>(parse: string -> Option<T>, a: seq<string>, line: string, b: seq<string>)
    requires parse(line).None?
    ensures Collect(parse, a + [line] + b) == Collect(parse, a + b)
  {
    CollectAppend(parse, a + [line], b);
    assert (a + [line])[..|a|] == a;
    CollectAppend(parse, a, b);
  }

  /** Lines from which the parser reads the given values one each yield exactly those
      values. */
  lemma {:induction false} CollectEach<T>(parse: string -> Option<T>, lines: seq<string>, xs: seq<T>)
    requires |lines| == |xs| && forall k | 0 <= k < |xs| :: parse(lines[k]) == Some(xs[k])
    ensures Collect(parse, lines) == xs
  {
    if xs != [] {
      var n := |xs| - 1;
      CollectEach(parse, lines[..n], xs[..n]);
      assert parse(lines[n]) == Some(xs[n]);
      assert xs == xs[..n] + [xs[n]];
    }
  }

  /** A report formatted from reportable items parses back to exactly those items. */
  lemma ReportRoundTrip(items: seq<CoverageItem>, lines: seq<string>)
    requires |lines| == |items|
    requires forall k | 0 <= k < |items| :: Reportable(items[k]) && lines[k] == FormatItem(items[k])
    ensures Collect(ParseLine, lines) == items
  {
    forall k | 0 <= k < |items| ensures ParseLine(lines[k]) == Some(items[k]) {
      ParseFormatted(items[k]);
    }
    CollectEach(ParseLine, lines, items);
  }

  /** The items of every line of the report that the pattern matches, in order; `None`
      for the missing report, where the Python code raises. */
  function ReportItems(report: Option<string>): Option<seq<CoverageItem>> {
    match report
    case None => None
    case Some(text) => Some(Collect(ParseLine, SplitLines(text)))
  }

  /** `parse_vcs_coverage`: one pass over the report's lines. */
  method ParseVcsCoverage(report: Option<string>) returns (items: Option<seq<CoverageItem>>)
    ensures items == ReportItems(report)
  {
    if report.None? {
      return None;
    }
    var lines := SplitLines(report.value);
    var found: seq<CoverageItem> := [];
    for k := 0 to |lines|
      invariant found == Collect(ParseLine, lines[..k])
    {
      assert lines[..k + 1][..k] == lines[..k];
      match ParseLine(lines[k]) {
        case Some(it) => found := found + [it];
        case None =>
      }
    }
    assert lines[..|lines|] == lines;
    return Some(found);
  }

  // ---------------------------------------------------------------------------
  // Prompt construction (`read_file_lines`, `build_prompt`, `PROMPT_TEMPLATE`)
  // ---------------------------------------------------------------------------

  /** Where Python puts a slice bound `i` in a list of length `n`: negative bounds count
      from the end, and both kinds are clamped to the list. */
  function SliceBound(i: int, n: nat): (b: nat)
    ensures b <= n
  {
    if i < 0 then (if n + i < 0 then 0 else n + i) else if i > n then n else i
  }

  /** Python `xs[i:j]`. */
  function PySlice<T>(xs: seq<T>, i: int, j: int): seq<T> {
    var a := SliceBound(i, |xs|);
    var b := SliceBound(j, |xs|);
    if a < b then xs[a..b] else []
  }

  /** `read_file_lines`: the lines from 1-based `start` through `end`, as the file's
      `readlines` gives them, joined back together. */
  function ReadFileLines(lines: seq<string>, start: int, end: int): string {
    Concat(PySlice(lines, start - 1, end))
  }

  /** For a start line of 1 or more the slice is exactly the wanted lines that exist. */
  lemma ReadFileLinesInRange(lines: seq<string>, start: int, end: int)
    requires 1 <= start && 0 <= end
    ensures var last := if end < |lines| then end else |lines|;
      ReadFileLines(lines, start, end)
        == if start - 1 < last then Concat(lines[start - 1..last]) else []
  {
  }

  /** How far `build_prompt` reads: at most `maxLinesEach` lines past the start. */
  function ClampedEnd(it: CoverageItem, maxLinesEach: int): int {
    if it.lineEnd < it.lineStart + maxLinesEach then it.lineEnd else it.lineStart + maxLinesEach
  }

  /** An excerpt holds at most `maxLinesEach + 1` lines of the file and never a line
      past the item's own range. */
  lemma ExcerptBounded(lines: seq<string>, it: CoverageItem, maxLinesEach: int)
    requires 0 <= maxLinesEach
    ensures |PySlice(lines, it.lineStart - 1, ClampedEnd(it, maxLinesEach))| <= maxLinesEach + 1
    ensures |PySlice(lines, it.lineStart - 1, ClampedEnd(it, maxLinesEach))|
      <= if it.lineEnd < it.lineStart then 0 else it.lineEnd - it.lineStart + 1
  {
  }

  const NotePrefix: string := "// TO_BE_COVERED: "

  /** The comment line inserted into an excerpt. */
  function NoteLine(description: string): string {
    NotePrefix + description + "\n"
  }

  /** `snippet.replace("\n", "\n// TO_BE_COVERED: <desc>\n", 1)`. */
  function Annotate(snippet: string, description: string): (r: string)
    ensures '\n' !in snippet ==> r == snippet
    ensures '\n' in snippet ==> |r| == |snippet| + |NoteLine(description)|
  {
    match FindFrom(snippet, "\n", 0)
    case None =>
      assert '\n' !in snippet by {
        if '\n' in snippet {
          var k :| 0 <= k < |snippet| && snippet[k] == '\n';
          assert At(snippet, k, "\n");
        }
      }
      snippet
    case Some(i) =>
      assert snippet[i..i + 1][0] == snippet[i];
      snippet[..i] + "\n" + NoteLine(description) + snippet[i + 1..]
  }

  /** The note goes right after the first line of the excerpt and nothing else changes. */
  lemma AnnotateAfterFirstLine(first: string, rest: string, description: string)
    requires '\n' !in first
    ensures Annotate(first + "\n" + rest, description)
      == first + "\n" + NoteLine(description) + rest
  {
    var s := first + "\n" + rest;
    assert At(s, |first|, "\n");
    forall j: nat | j < |first| ensures !At(s, j, "\n") {
      assert s[j] == first[j];
    }
    assert FindFrom(s, "\n", 0) == Some(|first|);
    assert s[..|first|] == first && s[|first| + 1..] == rest;
  }

  /** Path `.name`: the text after the last `/`. */
  function FileName(path: string): (r: string)
    ensures '/' !in r && |r| <= |path| && r == path[|path| - |r|..]
    ensures |r| < |path| ==> path[|path| - |r| - 1] == '/'
    ensures |r| == |path| ==> '/' !in path
  {
    match LastIndex(SlashTest(path), 0, |path|)
    case None =>
      assert forall k | 0 <= k < |path| :: path[k] != '/' by {
        forall k | 0 <= k < |path| ensures path[k] != '/' {
          LastIndexGreatest(SlashTest(path), 0, |path|, k);
        }
      }
      path
    case Some(k) =>
      var r := path[k + 1..];
      forall j | 0 <= j < |r| ensures r[j] != '/' {
        LastIndexGreatest(SlashTest(path), 0, |path|, k + 1 + j);
      }
      r
  }

  function SlashTest(path: string): nat -> bool {
    (k: nat) => k < |path| && path[k] == '/'
  }

  /** The header line above each excerpt: the file's name and the item's whole range. */
  function Header(it: CoverageItem): string {
    "// File: " + FileName(it.file) + " Lines " + NatToString(it.lineStart) + RangeDash
    + NatToString(it.lineEnd) + "\n"
  }

  const BlockOpen: string := "```systemverilog\n"

  const BlockClose: string := "\n```"

  /** One fenced excerpt: the header, then the annotated lines of the file. */
  function CodeBlock(it: CoverageItem, lines: seq<string>, maxLinesEach: int): string {
    var snippet := ReadFileLines(lines, it.lineStart, ClampedEnd(it, maxLinesEach));
    BlockOpen + Header(it) + Annotate(snippet, it.description) + BlockClose
  }

  /** The excerpt of every item, in order; `None` when a file cannot be opened, where
      the Python code raises. */
  function Blocks(items: seq<CoverageItem>, files: string -> Option<seq<string>>, maxLinesEach: int)
    : (r: Option<seq<string>>)
    ensures r.Some? ==> |r.value| == |items|
  {
    if items == [] then Some([])
    else
      var it := items[|items| - 1];
      match Blocks(items[..|items| - 1], files, maxLinesEach)
      case None => None
      case Some(bs) =>
        match files(it.file)
        case None => None
        case Some(lines) => Some(bs + [CodeBlock(it, lines, maxLinesEach)])
  }

  const PromptHead: string :=
    "\n" + "You are an expert " + "SystemVerilog " + "verification engineer.  "
    + "Below is an excerpt of\n" + "RTL code marked with " + "**TO_BE_COVERED** "
    + "comments for code or " + "functional coverage\n" + "that has not been hit.  "
    + "Your task:\n" + "\n" + "1. Explain, briefly, " + "what input sequence or "
    + "condition would trigger " + "each\n" + "   uncovered area.\n" + "2. Output a "
    + "*SystemVerilog* test " + "(module or UVM " + "sequence) that achieves "
    + "coverage\n" + "   for ALL these " + "items.  The test must " + "compile and should "
    + "include any required\n" + "   clock/reset/setup.  " + "Use meaningful names.  "
    + "End the testbench with " + "$finish.\n" + "\n"

  const PromptTail: string :=
    "\n" + "\n" + "### Provide your " + "reasoning, then the " + "final SystemVerilog "
    + "code in a single\n" + "markdown " + "`````systemverilog````` " + "block.\n"

  /** A prompt template: the text before and after its `{code_blocks}` field. */
  datatype Template = Template(head: string, tail: string)

  /** `PROMPT_TEMPLATE`. */
  const PromptTemplate: Template := Template(PromptHead, PromptTail)

  /** `template.format(code_blocks=...)`. */
  function Prompt(template: Template, codeBlocks: string): string {
    template.head + codeBlocks + template.tail
  }

  /** The prompt `build_prompt` returns, or `None` when it raises. */
  function PromptFor(template: Template, items: seq<CoverageItem>, files: string -> Option<seq<string>>,
                     maxLinesEach: int)
    : Option<string>
  {
    match Blocks(items, files, maxLinesEach)
    case None => None
    case Some(bs) => Some(Prompt(template, Join("\n\n", bs)))
  }

  /** The loop of `build_prompt`: reads each item's file, annotates the excerpt and
      wraps it; `None` where opening a file raises. */
  method BuildPrompt(template: Template, items: seq<CoverageItem>, files: string -> Option<seq<string>>,
                     maxLinesEach: int)
    returns (prompt: Option<string>)
    ensures prompt == PromptFor(template, items, files, maxLinesEach)
  {
    var parts: seq<string> := [];
    for k := 0 to |items|
      invariant Blocks(items[..k], files, maxLinesEach) == Some(parts)
    {
      var it := items[k];
      match files(it.file)
      case None =>
        BlocksMissing(items, files, maxLinesEach, k);
        return None;
      case Some(lines) =>
        BlocksStep(items, files, maxLinesEach, k, parts, lines);
        parts := parts + [CodeBlock(it, lines, maxLinesEach)];
    }
    assert items[..|items|] == items;
    prompt := Some(Prompt(template, Join("\n\n", parts)));
  }

  /** One more item whose file opens adds its excerpt. */
  lemma BlocksStep(items: seq<CoverageItem>, files: string -> Option<seq<string>>, maxLinesEach: int,
                   k: nat, parts: seq<string>, lines: seq<string>)
    requires k < |items| && Blocks(items[..k], files, maxLinesEach) == Some(parts)
    requires files(items[k].file) == Some(lines)
    ensures Blocks(items[..k + 1], files, maxLinesEach) == Some(parts + [CodeBlock(items[k], lines, maxLinesEach)])
  {
    assert items[..k + 1][..k] == items[..k];
  }

  /** A file that cannot be opened stops the whole prompt. */
  lemma {:induction false} BlocksMissing(items: seq<CoverageItem>, files: string -> Option<seq<string>>,
                                         maxLinesEach: int, k: nat)
    requires k < |items| && files(items[k].file).None?
    ensures Blocks(items, files, maxLinesEach).None?
    decreases |items|
  {
    if k < |items| - 1 {
      BlocksMissing(items[..|items| - 1], files, maxLinesEach, k);
    }
  }

  /** When every file opens, block `k` is the excerpt of item `k`. */
  lemma {:induction false} BlocksEach(items: seq<CoverageItem>, files: string -> Option<seq<string>>,
                                      maxLinesEach: int, k: nat)
    requires Blocks(items, files, maxLinesEach).Some? && k < |items|
    ensures files(items[k].file).Some?
    ensures Blocks(items, files, maxLinesEach).value[k]
      == CodeBlock(items[k], files(items[k].file).value, maxLinesEach)
    decreases |items|
  {
    if k < |items| - 1 {
      BlocksEach(items[..|items| - 1], files, maxLinesEach, k);
    }
  }

  /** The prompt exists exactly when every item's file can be opened. */
  lemma PromptExistsIff(template: Template, items: seq<CoverageItem>, files: string -> Option<seq<string>>,
                         maxLinesEach: int)
    ensures PromptFor(template, items, files, maxLinesEach).Some?
      <==> forall k :: 0 <= k < |items| ==> files(items[k].file).Some?
  {
    BlocksExistIff(items, files, maxLinesEach);
  }

  lemma BlocksExistIff(items: seq<CoverageItem>, files: string -> Option<seq<string>>, maxLinesEach: int)
    ensures Blocks(items, files, maxLinesEach).Some?
      <==> forall k :: 0 <= k < |items| ==> files(items[k].file).Some?
  {
    if Blocks(items, files, maxLinesEach).Some? {
      forall k | 0 <= k < |items| ensures files(items[k].file).Some? {
        BlocksEach(items, files, maxLinesEach, k);
      }
    } else if forall k :: 0 <= k < |items| ==> files(items[k].file).Some? {
      BlocksAllOpen(items, files, maxLinesEach);
    }
  }

  lemma {:induction false} BlocksAllOpen(items: seq<CoverageItem>, files: string -> Option<seq<string>>,
                                         maxLinesEach: int)
    requires forall k :: 0 <= k < |items| ==> files(items[k].file).Some?
    ensures Blocks(items, files, maxLinesEach).Some?
    decreases |items|
  {
    if items != [] {
      BlocksAllOpen(items[..|items| - 1], files, maxLinesEach);
    }
  }

  /** Every item's excerpt appears in the prompt, between the instructions and the
      closing request. */
  lemma PromptShowsEveryItem(template: Template, items: seq<CoverageItem>,
                             files: string -> Option<seq<string>>,
                             maxLinesEach: int, k: nat)
    requires PromptFor(template, items, files, maxLinesEach).Some? && k < |items|
    ensures files(items[k].file).Some?
    ensures Contains(PromptFor(template, items, files, maxLinesEach).value,
                     CodeBlock(items[k], files(items[k].file).value, maxLinesEach))
  {
    BlocksEach(items, files, maxLinesEach, k);
    PromptShowsBlock(template, Blocks(items, files, maxLinesEach).value, k);
  }

  /** Every item is shown under a header naming its file and its line range. */
  lemma PromptShowsEveryHeader(template: Template, items: seq<CoverageItem>,
                               files: string -> Option<seq<string>>,
                               maxLinesEach: int, k: nat)
    requires PromptFor(template, items, files, maxLinesEach).Some? && k < |items|
    ensures Contains(PromptFor(template, items, files, maxLinesEach).value, Header(items[k]))
  {
    PromptShowsEveryItem(template, items, files, maxLinesEach, k);
    var block := CodeBlock(items[k], files(items[k].file).value, maxLinesEach);
    BlockShowsHeader(items[k], files(items[k].file).value, maxLinesEach);
    ContainsTrans(PromptFor(template, items, files, maxLinesEach).value, block, Header(items[k]));
  }

  lemma PromptShowsBlock(template: Template, bs: seq<string>, k: nat)
    requires k < |bs|
    ensures Contains(Prompt(template, Join("\n\n", bs)), bs[k])
  {
    JoinContains("\n\n", bs, k);
    ContainsWithin(template.head, Join("\n\n", bs), template.tail, bs[k]);
  }

  /** Each excerpt opens with its header. */
  lemma BlockShowsHeader(it: CoverageItem, lines: seq<string>, maxLinesEach: int)
    ensures Contains(CodeBlock(it, lines, maxLinesEach), Header(it))
  {
    var rest := Annotate(ReadFileLines(lines, it.lineStart, ClampedEnd(it, maxLinesEach)),
                         it.description) + BlockClose;
    ContainsItself(BlockOpen, Header(it), rest);
    assert BlockOpen + Header(it) + rest == CodeBlock(it, lines, maxLinesEach);
  }

  /** The note of an item whose excerpt spans a line break follows that excerpt's
      first line. */
  lemma BlockNotesItem(it: CoverageItem, lines: seq<string>, maxLinesEach: int, first: string, rest: string)
    requires ReadFileLines(lines, it.lineStart, ClampedEnd(it, maxLinesEach)) == first + "\n" + rest
    requires '\n' !in first
    ensures CodeBlock(it, lines, maxLinesEach)
      == BlockOpen + Header(it) + (first + "\n" + NoteLine(it.description) + rest) + BlockClose
  {
    AnnotateAfterFirstLine(first, rest, it.description);
  }
}
