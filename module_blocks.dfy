/** Locating Verilog modules in a model response (auto_create_response.py:34-79)
    and the `module tb();` span finder (auto_create_response.py:128-142). */
module ModuleBlocks {
  import opened Text

  const EndKeyword := "endmodule"

  /** The two signatures `find_verilog_modules` searches for:
      `\bmodule\b\s+\w+\s*\([^)]*\)\s*;.*?endmodule\b` and
      `\bmodule\b\s+\w+\s*#\s*\([^)]*\)\s*\([^)]*\)\s*;.*?endmodule\b`, both DOTALL. */
  datatype Form = Plain | Parameterised

  /** `\bmodule\b\s+\w+\s*` at `i`, giving the index after it. Every repetition here
      is greedy and no shorter choice can let the rest match, so no backtracking arises. */
  function SignatureHead(s: string, i: nat): (r: Option<nat>)
    ensures r.Some? ==> At(s, i, "module") && i + 6 < r.value <= |s|
  {
    if Boundary(s, i) && At(s, i, "module") && Boundary(s, i + 6) then
      var b := SkipSpace(s, i + 6);
      if b == i + 6 then None
      else
        var c := SkipWord(s, b);
        if c == b then None else Some(SkipSpace(s, c))
    else None
  }

  /** `\([^)]*\)` at `p`: an opening parenthesis through the first closing one. */
  function ParenGroup(s: string, p: nat): (r: Option<nat>)
    ensures r.Some? ==> p < r.value <= |s|
  {
    if p < |s| && s[p] == '(' then
      match FindFrom(s, ")", p + 1)
      case None => None
      case Some(k) => Some(k + 1)
    else None
  }

  /** `.*?endmodule\b` from `p`: the first `endmodule` followed by a word boundary. */
  function EndFrom(s: string, p: nat): (r: Option<nat>)
    ensures r.Some? ==> p + |EndKeyword| <= r.value <= |s|
                        && At(s, r.value - |EndKeyword|, EndKeyword) && Boundary(s, r.value)
    decreases |s| - p
  {
    if p + |EndKeyword| > |s| then None
    else if At(s, p, EndKeyword) && Boundary(s, p + |EndKeyword|) then Some(p + |EndKeyword|)
    else EndFrom(s, p + 1)
  }

  /** The lazy `.*?` stops at the first `endmodule\b`: none starts earlier. */
  lemma {:induction false} EndFromFirst(s: string, p: nat, k: nat)
    requires p <= k
    requires EndFrom(s, p).None? || k < EndFrom(s, p).value - |EndKeyword|
    ensures !(At(s, k, EndKeyword) && Boundary(s, k + |EndKeyword|))
    decreases |s| - p
  {
    if p + |EndKeyword| <= |s| && !(At(s, p, EndKeyword) && Boundary(s, p + |EndKeyword|)) && k > p {
      EndFromFirst(s, p + 1, k);
    }
  }

  /** `\s*;` at `p`, then the body through `endmodule`. */
  function CloseAndBody(s: string, p: nat): (r: Option<nat>)
    ensures r.Some? ==> p + |EndKeyword| < r.value <= |s| && At(s, r.value - |EndKeyword|, EndKeyword)
  {
    var b := SkipSpace(s, p);
    if b < |s| && s[b] == ';' then EndFrom(s, b + 1) else None
  }

  /** The signature of `form` after the head ending at `h`, up to (not including) `\s*;`. */
  function Signature(s: string, h: nat, form: Form): Option<nat> {
    match form
    case Plain => ParenGroup(s, h)
    case Parameterised =>
      if h < |s| && s[h] == '#' then
        match ParenGroup(s, SkipSpace(s, h + 1))
        case None => None
        case Some(a) => ParenGroup(s, SkipSpace(s, a))
      else None
  }

  /** Where a match of `form` starting at `i` ends, if one does. */
  function MatchAt(s: string, i: nat, form: Form): (r: Option<nat>)
    ensures r.Some? ==> i + 6 + |EndKeyword| < r.value <= |s|
  {
    match SignatureHead(s, i)
    case None => None
    case Some(h) =>
      match Signature(s, h, form)
      case None => None
      case Some(a) =>
        assert h <= a by { assert form.Parameterised? ==> SkipSpace(s, h + 1) >= h; }
        CloseAndBody(s, a)
  }

  /** A found block: the text between `start` and `end`. */
  datatype Block = Block(start: nat, end: nat)

  /** A matcher gives, for each start index, where a match starting there ends, if one
      does. Over a text of length `n`, every match ends after it starts and within `n`. */
  ghost predicate Advances(matchAt: nat -> Option<nat>, n: nat) {
    forall j: nat :: matchAt(j).Some? ==> j < matchAt(j).value <= n
  }

  /** No match starts in `[a, b)`. */
  predicate NoMatchIn(matchAt: nat -> Option<nat>, a: nat, b: nat) {
    forall j: nat :: a <= j < b ==> matchAt(j).None?
  }

  /** `re.search` from `pos`: the leftmost match at or after `pos`. */
  function NextBlock(matchAt: nat -> Option<nat>, n: nat, pos: nat): (r: Option<Block>)
    requires Advances(matchAt, n)
    ensures r.Some? ==> pos <= r.value.start && matchAt(r.value.start) == Some(r.value.end)
    decreases n - pos
  {
    if pos >= n then None
    else
      match matchAt(pos)
      case Some(e) => Some(Block(pos, e))
      case None => NextBlock(matchAt, n, pos + 1)
  }

  /** No match starts between `pos` and the leftmost one (or the end of the text). */
  lemma {:induction false} NextBlockLeftmost(matchAt: nat -> Option<nat>, n: nat, pos: nat, j: nat)
    requires Advances(matchAt, n) && pos <= j
    requires NextBlock(matchAt, n, pos).None? || j < NextBlock(matchAt, n, pos).value.start
    ensures matchAt(j).None?
    decreases n - pos
  {
    if pos < n && j > pos {
      NextBlockLeftmost(matchAt, n, pos + 1, j);
    }
  }

  /** `re.findall` from `pos`: leftmost matches, each search resuming where the
      previous match ended. */
  function Scan(matchAt: nat -> Option<nat>, n: nat, pos: nat): seq<Block>
    requires Advances(matchAt, n)
    decreases n - pos
  {
    match NextBlock(matchAt, n, pos)
    case None => []
    case Some(b) => [b] + Scan(matchAt, n, b.end)
  }

  lemma ScanStep(matchAt: nat -> Option<nat>, n: nat, pos: nat, b: Block)
    requires Advances(matchAt, n) && NextBlock(matchAt, n, pos) == Some(b)
    ensures Scan(matchAt, n, pos) == [b] + Scan(matchAt, n, b.end)
  {
  }

  /** Every found block is a match, at or after `pos`. */
  lemma {:induction false} ScanAtIndex(matchAt: nat -> Option<nat>, n: nat, pos: nat, k: nat)
    requires Advances(matchAt, n) && k < |Scan(matchAt, n, pos)|
    ensures pos <= Scan(matchAt, n, pos)[k].start
    ensures matchAt(Scan(matchAt, n, pos)[k].start) == Some(Scan(matchAt, n, pos)[k].end)
    decreases n - pos
  {
    var b := NextBlock(matchAt, n, pos).value;
    ScanStep(matchAt, n, pos, b);
    var x := Scan(matchAt, n, pos)[k];
    if k > 0 {
      ScanAtIndex(matchAt, n, b.end, k - 1);
      assert x == Scan(matchAt, n, b.end)[k - 1];
    } else {
      assert x == b;
    }
  }

  lemma ScanAreMatches(matchAt: nat -> Option<nat>, n: nat, pos: nat)
    requires Advances(matchAt, n)
    ensures forall k :: 0 <= k < |Scan(matchAt, n, pos)| ==>
              pos <= Scan(matchAt, n, pos)[k].start
              && matchAt(Scan(matchAt, n, pos)[k].start) == Some(Scan(matchAt, n, pos)[k].end)
  {
    forall k | 0 <= k < |Scan(matchAt, n, pos)|
      ensures pos <= Scan(matchAt, n, pos)[k].start
      ensures matchAt(Scan(matchAt, n, pos)[k].start) == Some(Scan(matchAt, n, pos)[k].end)
    {
      ScanAtIndex(matchAt, n, pos, k);
    }
  }

  /** Found blocks do not overlap: each search resumes where the previous match ended. */
  lemma {:induction false} ScanApart(matchAt: nat -> Option<nat>, n: nat, pos: nat, k: nat)
    requires Advances(matchAt, n) && k + 1 < |Scan(matchAt, n, pos)|
    ensures Scan(matchAt, n, pos)[k].end <= Scan(matchAt, n, pos)[k + 1].start
    decreases n - pos
  {
    var b := NextBlock(matchAt, n, pos).value;
    ScanStep(matchAt, n, pos, b);
    if k > 0 {
      ScanApart(matchAt, n, b.end, k - 1);
    } else {
      ScanAtIndex(matchAt, n, b.end, 0);
    }
  }

  /** No match lies before the first found block, nor anywhere when none is found. */
  lemma ScanFirst(matchAt: nat -> Option<nat>, n: nat, pos: nat)
    requires Advances(matchAt, n)
    ensures Scan(matchAt, n, pos) == [] ==> NoMatchIn(matchAt, pos, n)
    ensures Scan(matchAt, n, pos) != [] ==> NoMatchIn(matchAt, pos, Scan(matchAt, n, pos)[0].start)
  {
    var b := NextBlock(matchAt, n, pos);
    var e := if b.None? then n else b.value.start;
    forall j: nat | pos <= j < e ensures matchAt(j).None? {
      NextBlockLeftmost(matchAt, n, pos, j);
    }
  }

  /** No match is skipped between two found blocks or after the last one. */
  lemma {:induction false} ScanSkipsNothing(matchAt: nat -> Option<nat>, n: nat, pos: nat, k: nat)
    requires Advances(matchAt, n) && k < |Scan(matchAt, n, pos)|
    ensures k + 1 < |Scan(matchAt, n, pos)| ==>
              NoMatchIn(matchAt, Scan(matchAt, n, pos)[k].end, Scan(matchAt, n, pos)[k + 1].start)
    ensures k + 1 == |Scan(matchAt, n, pos)| ==> NoMatchIn(matchAt, Scan(matchAt, n, pos)[k].end, n)
    decreases n - pos
  {
    var b := NextBlock(matchAt, n, pos).value;
    ScanStep(matchAt, n, pos, b);
    if k > 0 {
      ScanSkipsNothing(matchAt, n, b.end, k - 1);
    } else {
      ScanFirst(matchAt, n, b.end);
    }
  }

  /** The matcher of `form` over `s`. */
  function Matcher(s: string, form: Form): (m: nat -> Option<nat>)
    ensures Advances(m, |s|)
  {
    (j: nat) => MatchAt(s, j, form)
  }

  function BlockTexts(s: string, bs: seq<Block>): (r: seq<string>)
    requires forall k :: 0 <= k < |bs| ==> bs[k].start <= bs[k].end <= |s|
    ensures |r| == |bs| && forall k :: 0 <= k < |r| ==> r[k] == s[bs[k].start..bs[k].end]
  {
    if bs == [] then [] else [s[bs[0].start..bs[0].end]] + BlockTexts(s, bs[1..])
  }

  /** A block reads `module ... endmodule`. */
  predicate IsModuleText(t: string) {
    |t| >= 6 + |EndKeyword| && At(t, 0, "module") && At(t, |t| - |EndKeyword|, EndKeyword)
  }

  lemma SliceIsModule(s: string, a: nat, b: nat)
    requires a + 6 + |EndKeyword| < b <= |s|
    requires At(s, a, "module") && At(s, b - |EndKeyword|, EndKeyword)
    ensures IsModuleText(s[a..b])
  {
    var t := s[a..b];
    assert t[0..6] == s[a..a + 6];
    assert t[|t| - |EndKeyword|..] == s[b - |EndKeyword|..b];
  }

  lemma MatchIsModule(s: string, i: nat, form: Form)
    requires MatchAt(s, i, form).Some?
    ensures IsModuleText(s[i..MatchAt(s, i, form).value])
  {
    var h := SignatureHead(s, i).value;
    var a := Signature(s, h, form).value;
    var e := CloseAndBody(s, a).value;
    assert MatchAt(s, i, form) == Some(e);
    SliceIsModule(s, i, e);
  }

  lemma BlocksAreModules(s: string, form: Form, bs: seq<Block>)
    requires forall k :: 0 <= k < |bs| ==> MatchAt(s, bs[k].start, form) == Some(bs[k].end)
    ensures forall k :: 0 <= k < |bs| ==> bs[k].start <= bs[k].end <= |s|
    ensures forall k :: 0 <= k < |bs| ==> IsModuleText(BlockTexts(s, bs)[k])
  {
    forall k | 0 <= k < |bs| ensures bs[k].start <= bs[k].end <= |s| {
      assert MatchAt(s, bs[k].start, form).Some?;
    }
    var ts := BlockTexts(s, bs);
    forall k | 0 <= k < |bs| ensures IsModuleText(ts[k]) {
      MatchIsModule(s, bs[k].start, form);
    }
  }

  /** The texts of every match of one form, in order. */
  function FormTexts(s: string, form: Form): (r: seq<string>)
    ensures forall k :: 0 <= k < |r| ==> IsModuleText(r[k])
    ensures r == [] <==> NoMatchIn(Matcher(s, form), 0, |s|)
  {
    var m := Matcher(s, form);
    var bs := Scan(m, |s|, 0);
    ScanAreMatches(m, |s|, 0);
    ScanFirst(m, |s|, 0);
    BlocksAreModules(s, form, bs);
    assert bs != [] ==> MatchAt(s, bs[0].start, form).Some?;
    BlockTexts(s, bs)
  }

  /** `find_verilog_modules`: every plain-signature block, then every parameterised one
      (concatenated, not merged by position). */
  function FindVerilogModules(s: string): (r: seq<string>)
    ensures forall k :: 0 <= k < |r| ==> IsModuleText(r[k])
    ensures r == [] <==> NoMatchIn(Matcher(s, Plain), 0, |s|) && NoMatchIn(Matcher(s, Parameterised), 0, |s|)
    ensures r == FormTexts(s, Plain) + FormTexts(s, Parameterised)
  {
    FormTexts(s, Plain) + FormTexts(s, Parameterised)
  }

  /** The contents `write_code_blocks_to_file` writes to `tb.v`: each block followed by a
      newline. `None` is the run's fatal exit when the response holds no block. */
  function CodeFile(response: string): (r: Option<string>)
    ensures r.None? <==> FindVerilogModules(response) == []
    ensures r.Some? ==> |r.value| > 0 && r.value[|r.value| - 1] == '\n'
    ensures r.Some? ==> forall k :: 0 <= k < |FindVerilogModules(response)| ==>
              Contains(r.value, FindVerilogModules(response)[k])
  {
    var blocks := FindVerilogModules(response);
    if blocks == [] then None
    else
      var text := Lines(blocks);
      assert forall k :: 0 <= k < |blocks| ==> Contains(text, blocks[k]) by {
        forall k | 0 <= k < |blocks| ensures Contains(text, blocks[k]) {
          LinesContains(blocks, k);
        }
      }
      Some(text)
  }

  /** Each string followed by a newline. */
  function Lines(xs: seq<string>): (r: string)
    ensures xs != [] ==> |r| > 0 && r[|r| - 1] == '\n'
  {
    if xs == [] then [] else xs[0] + "\n" + Lines(xs[1..])
  }

  lemma {:induction false} LinesContains(xs: seq<string>, k: nat)
    requires k < |xs|
    ensures Contains(Lines(xs), xs[k])
  {
    if k == 0 {
      ContainsItself([], xs[0], "\n" + Lines(xs[1..]));
      assert [] + xs[0] + ("\n" + Lines(xs[1..])) == Lines(xs);
    } else {
      LinesContains(xs[1..], k - 1);
      ContainsWithin(xs[0] + "\n", Lines(xs[1..]), [], xs[k]);
      assert xs[0] + "\n" + Lines(xs[1..]) + [] == Lines(xs);
    }
  }

  // ---------------------------------------------------------------------------
  // extract_module_content
  // ---------------------------------------------------------------------------

  const TbHeader := "module tb();"
  const NotFound := "No module found"

  /** No `endmodule` can start inside the header `module tb();`. */
  lemma NoEndInHeader(text: string, i: nat, k: nat)
    requires At(text, i, TbHeader) && i <= k < i + |TbHeader|
    ensures !At(text, k, EndKeyword)
  {
    if k + |EndKeyword| <= |text| {
      var w := text[k..k + |EndKeyword|];
      assert w[0] == text[k] == TbHeader[k - i];
      if k - i == 5 {
        assert w[1] == text[k + 1] == TbHeader[6];
      }
    }
  }

  /** Where the content starting at the header at `i` ends: just past the first
      `endmodule` found from `i`, or the end of the text. */
  function ContentEnd(text: string, i: nat): (e: nat)
    requires At(text, i, TbHeader)
    ensures i + |TbHeader| <= e <= |text|
  {
    match FindFrom(text, EndKeyword, i)
    case None => |text|
    case Some(k) =>
      assert k >= i + |TbHeader| by {
        if k < i + |TbHeader| {
          NoEndInHeader(text, i, k);
        }
      }
      k + |EndKeyword|
  }

  /** The text `r` taken at `i` of `text` opens with the header, contains no `endmodule`
      before its end, and either closes with `endmodule` or runs to the end of a text
      that has no `endmodule` after the header. */
  predicate ContentShape(text: string, i: nat, r: string) {
    && i + |r| <= |text| && r == text[i..i + |r|]
    && At(r, 0, TbHeader)
    && (forall j :: 0 <= j && j + |EndKeyword| < |r| ==> !At(r, j, EndKeyword))
    && (At(r, |r| - |EndKeyword|, EndKeyword)
        || (i + |r| == |text| && forall j :: i <= j < |text| ==> !At(text, j, EndKeyword)))
  }

  lemma ContentHasShape(text: string, i: nat)
    requires At(text, i, TbHeader)
    ensures ContentShape(text, i, text[i..ContentEnd(text, i)])
  {
    var e := ContentEnd(text, i);
    var r := text[i..e];
    assert r[0..|TbHeader|] == text[i..i + |TbHeader|];
    var f := FindFrom(text, EndKeyword, i);
    forall j | 0 <= j && j + |EndKeyword| < |r| ensures !At(r, j, EndKeyword) {
      assert f.None? || i + j < f.value;
      assert !At(text, i + j, EndKeyword);
      assert r[j..j + |EndKeyword|] == text[i + j..i + j + |EndKeyword|];
    }
    if FindFrom(text, EndKeyword, i).Some? {
      assert r[|r| - |EndKeyword|..] == text[e - |EndKeyword|..e];
    }
  }

  /** `extract_module_content`: from the first `module tb();` through the end of the first
      `endmodule` at or after it, or through the end of the text when there is none. */
  function ExtractModuleContent(text: string): (r: string)
    ensures r == NotFound <==> !Contains(text, TbHeader)
    ensures Contains(text, TbHeader) ==> ContentShape(text, FindFrom(text, TbHeader, 0).value, r)
  {
    match FindFrom(text, TbHeader, 0)
    case None => NotFound
    case Some(i) =>
      ContentHasShape(text, i);
      var r := text[i..ContentEnd(text, i)];
      assert r != NotFound by { assert r[0] == TbHeader[0] != NotFound[0]; }
      r
  }
}
