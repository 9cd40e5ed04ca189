/** The single-shot testbench generator (testbench_generation.py).

    The generator reads the DUT's declaration from the RTL, asks the model for a
    testbench, strips prose and fences from the reply, checks that what is left looks like
    a testbench, asks once more with stricter advice when it does not, falls back to a
    fixed scaffold when the second answer does not pass either, and cuts the text after
    its last `endmodule`. The model's two replies are inputs; the API client, the
    command line and the output file are not modelled. */
module TbGeneration {
  import opened Text
  import opened Conversation

  const ModuleKeyword := "module"

  /** The first character of `[A-Za-z_]\w*`. */
  predicate IsIdentStart(c: char) { IsLetter(c) || c == '_' }

  /** `[A-Za-z_]\w*` exactly. */
  predicate IsIdentifier(t: string) {
    |t| > 0 && IsIdentStart(t[0]) && forall k :: 0 <= k < |t| ==> IsWordChar(t[k])
  }

  /** `SkipWord` from `i` stops at `j` when `[i, j)` is all word characters and `j` is not. */
  lemma {:induction false} SkipWordTo(s: string, i: nat, j: nat)
    requires i <= j <= |s|
    requires forall k :: i <= k < j ==> IsWordChar(s[k])
    requires j < |s| ==> !IsWordChar(s[j])
    ensures SkipWord(s, i) == j
    decreases j - i
  {
    if i < j {
      SkipWordTo(s, i + 1, j);
    }
  }

  // ---------------------------------------------------------------------------
  // parse_dut_info: `\bmodule\s+([A-Za-z_]\w*)\s*(\#\s*\([^;]*?\))?\s*\((.*?)\)\s*;`
  // with DOTALL, searched leftmost
  // ---------------------------------------------------------------------------

  /** `\s*;` from `p`. */
  predicate SemicolonAfter(s: string, p: nat) {
    SkipSpace(s, p) < |s| && s[SkipSpace(s, p)] == ';'
  }

  /** A `)` at `k` that `\s*;` follows: where the port list can close. */
  predicate ClosesPorts(s: string, k: nat) {
    k < |s| && s[k] == ')' && SemicolonAfter(s, k + 1)
  }

  /** The lazy `(.*?)\)\s*;` from `p`: the first `)` at or after `p` that `\s*;` follows. */
  function PortClose(s: string, p: nat): (r: Option<nat>)
    ensures r.Some? ==> p <= r.value < |s| && s[r.value] == ')' && SemicolonAfter(s, r.value + 1)
    decreases |s| - p
  {
    if p >= |s| then None
    else if s[p] == ')' && SemicolonAfter(s, p + 1) then Some(p)
    else PortClose(s, p + 1)
  }

  /** `PortClose` passes over a stretch without `)`. */
  lemma {:induction false} PortCloseSkips(s: string, p: nat, q: nat)
    requires p <= q <= |s|
    requires forall k :: p <= k < q ==> s[k] != ')'
    ensures PortClose(s, p) == PortClose(s, q)
    decreases q - p
  {
    if p < q {
      PortCloseSkips(s, p + 1, q);
    }
  }

  /** `\s*\((.*?)\)\s*;` from `p`: where the port list starts and where its `)` stands. */
  function PortList(s: string, p: nat): (r: Option<(nat, nat)>)
    ensures r.Some? ==> p < r.value.0 <= r.value.1 < |s|
    ensures r.Some? ==> ClosesPorts(s, r.value.1) && PortsLazy(s, r.value.0, r.value.1)
  {
    var f := SkipSpace(s, p);
    if f < |s| && s[f] == '(' then
      match PortClose(s, f + 1)
      case None => None
      case Some(g) =>
        PortCloseLazy(s, f + 1);
        Some((f + 1, g))
    else None
  }

  /** No `)` in `[a, g)` is followed by `\s*;`: the lazy group could not stop earlier. */
  predicate PortsLazy(s: string, a: nat, g: nat) {
    forall k :: a <= k < g ==> !ClosesPorts(s, k)
  }

  lemma PortCloseLazy(s: string, p: nat)
    requires PortClose(s, p).Some?
    ensures PortsLazy(s, p, PortClose(s, p).value)
  {
    forall k | p <= k < PortClose(s, p).value ensures !ClosesPorts(s, k) {
      PortCloseFirst(s, p, k);
    }
  }

  /** Where the lazy `[^;]*?\)` of the parameter block stops: at a `;`, which it
      cannot pass, or at a `)` that the port list follows. */
  function ParamStop(s: string): nat -> bool {
    (j: nat) => j < |s| && (s[j] == ';' || (s[j] == ')' && PortList(s, j + 1).Some?))
  }

  /** The lazy `[^;]*?\)` of the parameter block from `q`, backtracking over each `)`
      until the port list after it matches; a `;` ends the search. */
  function ParamClose(s: string, q: nat): (r: Option<nat>)
    ensures r.Some? ==> q <= r.value < |s| && s[r.value] == ')' && PortList(s, r.value + 1).Some?
  {
    match FirstIndex(ParamStop(s), q, |s|)
    case None => None
    case Some(j) => if s[j] == ';' then None else Some(j)
  }

  /** The parameter block never runs over a `;`. */
  lemma ParamCloseStopsAtSemicolon(s: string, q: nat, k: nat)
    requires ParamClose(s, q).Some? && q <= k < ParamClose(s, q).value
    ensures s[k] != ';'
  {
    FirstIndexLeast(ParamStop(s), q, |s|, k);
  }

  /** The port group `(.*?)` is lazy: no `)` inside it is followed by `\s*;`. */
  lemma {:induction false} PortCloseFirst(s: string, p: nat, k: nat)
    requires PortClose(s, p).Some? && p <= k < PortClose(s, p).value
    ensures !ClosesPorts(s, k)
    decreases k - p
  {
    if p < k {
      PortCloseFirst(s, p + 1, k);
    }
  }

  /** The three groups of a declaration match. */
  datatype Decl = Decl(name: string, params: string, ports: string)

  /** Where the identifier after `module` and its whitespace starts, if the pattern's
      head `\bmodule\s+[A-Za-z_]` matches at `i`. */
  function NameStart(s: string, i: nat): (r: Option<nat>)
    ensures r.Some? ==> i + 6 < r.value < |s| && IsIdentStart(s[r.value])
  {
    if Boundary(s, i) && At(s, i, ModuleKeyword) then
      var b := SkipSpace(s, i + 6);
      if b == i + 6 || b >= |s| || !IsIdentStart(s[b]) then None else Some(b)
    else None
  }

  /** After the name, up to the `;`: `\s*(\#\s*\([^;]*?\))?\s*\((.*?)\)\s*;` from `c`, giving
      the parameter block and the bounds of the port list. A `#` commits to the
      parameter block: without it `\s*\(` cannot match at the `#`. */
  function AfterName(s: string, c: nat): (r: Option<(string, (nat, nat))>)
    ensures r.Some? ==> c < r.value.1.0 <= r.value.1.1 < |s|
    ensures r.Some? ==> ClosesPorts(s, r.value.1.1) && PortsLazy(s, r.value.1.0, r.value.1.1)
    ensures r.Some? && r.value.0 != [] ==> ParamsShape(r.value.0)
  {
    var d := SkipSpace(s, c);
    if d < |s| && s[d] == '#' then
      var e := SkipSpace(s, d + 1);
      if e < |s| && s[e] == '(' then
        match ParamClose(s, e + 1)
        case None => None
        case Some(q) =>
          var ports := PortList(s, q + 1);
          assert ports.Some?;
          ParamBlockFree(s, d, e, q);
          ParamBlockShape(s, d, q);
          Some((s[d..q + 1], ports.value))
      else None
    else
      match PortList(s, d)
      case None => None
      case Some(ports) => Some(([], ports))
  }

  /** A match of the declaration pattern at `i`, with its three groups: the parameter
      block is empty or runs from `#` to a `)` with no `;` inside it; the port list
      stands right before a `)` that `\s*;` follows, and no `)` inside it is followed
      by `\s*;`. */
  function DeclAt(s: string, i: nat): (r: Option<Decl>)
    ensures r.Some? ==> IsIdentifier(r.value.name)
    ensures r.Some? ==> r.value.params == [] || ParamsShape(r.value.params)
    ensures r.Some? ==> exists a: nat :: PortsAt(s, a, r.value.ports)
  {
    match NameStart(s, i)
    case None => None
    case Some(b) =>
      var c := SkipWord(s, b + 1);
      WordFromIsIdentifier(s, b);
      match AfterName(s, c)
      case None => None
      case Some(rest) =>
        var ports := s[rest.1.0..rest.1.1];
        assert PortsAt(s, rest.1.0, ports);
        Some(Decl(s[b..c], rest.0, ports))
  }

  /** An identifier start and the word characters after it form an identifier. */
  lemma WordFromIsIdentifier(s: string, b: nat)
    requires b < |s| && IsIdentStart(s[b])
    ensures IsIdentifier(s[b..SkipWord(s, b + 1)])
  {
    var name := s[b..SkipWord(s, b + 1)];
    forall k | 0 <= k < |name| ensures IsWordChar(name[k]) {
      if k > 0 {
        SkipWordRun(s, b + 1, b + k);
      }
    }
  }

  /** The shape of a parameter block: from `#` to a `)`, with no `;` inside. */
  predicate ParamsShape(params: string) {
    params != [] && params[0] == '#' && params[|params| - 1] == ')' && ';' !in params
  }

  /** No character from the `#` at `d` through the `)` at `q` is a `;`. */
  lemma ParamBlockChar(s: string, d: nat, e: nat, q: nat, k: nat)
    requires d < |s| && s[d] == '#' && e == SkipSpace(s, d + 1) && e < |s| && s[e] == '('
    requires ParamClose(s, e + 1) == Some(q) && d <= k <= q
    ensures s[k] != ';'
  {
    if d < k < e {
      SkipSpaceRun(s, d + 1, k);
    } else if e < k < q {
      ParamCloseStopsAtSemicolon(s, e + 1, k);
    }
  }

  /** The block from the `#` at `d` through the `)` that `ParamClose` finds holds no `;`. */
  lemma ParamBlockFree(s: string, d: nat, e: nat, q: nat)
    requires d < |s| && s[d] == '#' && e == SkipSpace(s, d + 1) && e < |s| && s[e] == '('
    requires ParamClose(s, e + 1) == Some(q)
    ensures d < q < |s| && s[q] == ')' && forall k :: d <= k <= q ==> s[k] != ';'
  {
    forall k | d <= k <= q ensures s[k] != ';' {
      ParamBlockChar(s, d, e, q, k);
    }
  }

  /** A stretch from a `#` to a `)` with no `;` in it has the shape of a parameter
      block. */
  lemma ParamBlockShape(s: string, d: nat, q: nat)
    requires d < q < |s| && s[d] == '#' && s[q] == ')'
    requires forall k :: d <= k <= q ==> s[k] != ';'
    ensures ParamsShape(s[d..q + 1])
  {
    var params := s[d..q + 1];
    forall k | 0 <= k < |params| ensures params[k] != ';' {
      assert params[k] == s[d + k];
    }
  }

  /** The port group `ports` stands at `a`: the text holds it there, a `)` that `\s*;`
      follows comes right after it, and the lazy group could not have stopped earlier. */
  predicate PortsAt(s: string, a: nat, ports: string) {
    a + |ports| < |s| && s[a..a + |ports|] == ports
    && ClosesPorts(s, a + |ports|) && PortsLazy(s, a, a + |ports|)
  }

  /** The test "a declaration starts here". */
  function DeclTest(s: string): nat -> bool {
    (j: nat) => DeclAt(s, j).Some?
  }

  /** `re.search`: where the leftmost declaration starts. */
  function FirstDecl(s: string): (r: Option<nat>)
    ensures r.Some? ==> DeclAt(s, r.value).Some?
  {
    FirstIndex(DeclTest(s), 0, |s|)
  }

  /** No declaration starts before the one `FirstDecl` finds, nor anywhere when it
      finds none. */
  lemma FirstDeclLeftmost(s: string, j: nat)
    requires FirstDecl(s).None? || j < FirstDecl(s).value
    ensures DeclAt(s, j).None?
  {
    if j < |s| {
      FirstIndexLeast(DeclTest(s), 0, |s|, j);
    }
  }

  /** A declaration at the very start is the leftmost one. */
  lemma FirstDeclAtStart(s: string)
    requires DeclAt(s, 0).Some?
    ensures FirstDecl(s) == Some(0)
  {
    assert DeclTest(s)(0);
  }

  /** What `parse_dut_info` returns when it finds a declaration. */
  datatype DutInfo = DutInfo(name: string, header: string)

  /** The header `parse_dut_info` rebuilds: one space after the name even when there is
      no parameter block. */
  function Header(d: Decl): string {
    "module " + d.name + " " + d.params + "(" + d.ports + ");"
  }

  lemma AtStartAppend(s: string, t: string, p: string)
    requires At(s, 0, p)
    ensures At(s + t, 0, p)
  {
    assert (s + t)[..|p|] == s[..|p|];
  }

  /** The rebuilt header opens with `module`, the name and a space. */
  lemma HeaderOpens(d: Decl)
    ensures At(Header(d), 0, "module " + d.name + " ")
  {
    var head := "module " + d.name + " ";
    assert head[..|head|] == head;
    AtStartAppend(head, d.params, head);
    AtStartAppend(head + d.params, "(", head);
    AtStartAppend(head + d.params + "(", d.ports, head);
    AtStartAppend(head + d.params + "(" + d.ports, ");", head);
  }

  /** `parse_dut_info`: the first declaration's name and rebuilt header; `None` when the
      RTL declares no module the pattern recognises. */
  function ParseDutInfo(rtl: string): (r: Option<DutInfo>)
    ensures r.None? <==> FirstDecl(rtl).None?
    ensures r.Some? ==> IsIdentifier(r.value.name)
    ensures r.Some? ==> r.value.name == DeclAt(rtl, FirstDecl(rtl).value).value.name
    ensures r.Some? ==> At(r.value.header, 0, "module " + r.value.name + " ")
    ensures r.Some? ==> var d := DeclAt(rtl, FirstDecl(rtl).value).value;
              r.value.header == "module " + d.name + " " + d.params + "(" + d.ports + ");"
  {
    match FirstDecl(rtl)
    case None => None
    case Some(i) =>
      var d := DeclAt(rtl, i).value;
      HeaderOpens(d);
      Some(DutInfo(d.name, Header(d)))
  }

  /** The rebuilt header of a declaration without parameters, whose port list has no `)`,
      is itself a declaration the parser reads back to the same name and header. */
  lemma HeaderReparses(name: string, ports: string)
    requires IsIdentifier(name)
    requires forall k :: 0 <= k < |ports| ==> ports[k] != ')'
    ensures ParseDutInfo(Header(Decl(name, [], ports)))
            == Some(DutInfo(name, Header(Decl(name, [], ports))))
  {
    var h := Header(Decl(name, [], ports));
    var n := |name|;
    assert h == "module " + name + " " + "(" + ports + ");";
    HeaderHead(h, name, " (" + ports + ");");
    HeaderTail(h, "module " + name, ports);
    assert h[7..7 + n] == name;
    assert h[8 + n + 1..8 + n + 1 + |ports|] == ports;
    assert DeclAt(h, 0) == Some(Decl(name, [], ports));
    FirstDeclAtStart(h);
  }

  /** In `module NAME` + a text that opens with a space, the name is read from index 7. */
  lemma HeaderHead(h: string, name: string, rest: string)
    requires IsIdentifier(name) && rest != [] && rest[0] == ' '
    requires h == "module " + name + rest
    ensures NameStart(h, 0) == Some(7) && SkipWord(h, 8) == 7 + |name|
  {
    assert h[..6] == ModuleKeyword;
    assert h[6] == ' ' && h[7] == name[0];
    assert Boundary(h, 0) by { assert IsWordChar(h[0]); }
    assert SkipSpace(h, 7) == 7;
    forall k | 8 <= k < 7 + |name| ensures IsWordChar(h[k]) {
      assert h[k] == name[k - 7];
    }
    assert h[7 + |name|] == ' ';
    SkipWordTo(h, 8, 7 + |name|);
  }

  /** After a head `head`, the text ` (PORTS);` is read as no parameter block and the
      port list `PORTS` when `PORTS` has no `)`. */
  lemma HeaderTail(h: string, head: string, ports: string)
    requires forall k :: 0 <= k < |ports| ==> ports[k] != ')'
    requires h == head + " " + "(" + ports + ");"
    ensures AfterName(h, |head|) == Some(([], (|head| + 2, |head| + 2 + |ports|)))
  {
    var d := |head| + 1;
    var g := d + 1 + |ports|;
    assert h[|head|] == ' ' && h[d] == '(';
    assert SkipSpace(h, d) == d;
    assert h[g] == ')' && h[g + 1] == ';' && |h| == g + 2;
    forall k | d + 1 <= k < g ensures h[k] != ')' {
      assert h[k] == ports[k - d - 1];
    }
    PortCloseSkips(h, d + 1, g);
    assert SkipSpace(h, g + 1) == g + 1;
    assert PortClose(h, d + 1) == Some(g);
  }

  // ---------------------------------------------------------------------------
  // extract_verilog_only
  // ---------------------------------------------------------------------------

  const Fence := "```"

  /** The optional `(?:verilog|systemverilog)` tag at `p`, ignoring case: where it ends. */
  function LangEnd(s: string, p: nat): (r: nat)
    ensures p <= r && (p <= |s| ==> r <= |s|)
  {
    if AtIgnoreCase(s, p, "verilog") then p + 7
    else if AtIgnoreCase(s, p, "systemverilog") then p + 13
    else p
  }

  /** The bounds of the `code` group of `CODE_BLOCK_REGEX` when its match starts at `i`:
      from after the tag and the whitespace that follows it to the next fence. Dropping
      the tag cannot rescue a match, since tags and whitespace hold no backquote. */
  function FenceAt(s: string, i: nat): (r: Option<(nat, nat)>)
    ensures r.Some? ==> i + 3 <= r.value.0 <= r.value.1 && r.value.1 + 3 <= |s|
    ensures r.Some? ==> !Contains(s[r.value.0..r.value.1], Fence)
  {
    if At(s, i, Fence) then
      var c := SkipSpace(s, LangEnd(s, i + 3));
      match FindFrom(s, Fence, c)
      case None => None
      case Some(j) =>
        FindFromSliceFree(s, Fence, c, j);
        Some((c, j))
    else None
  }

  function FenceTest(s: string): nat -> bool {
    (i: nat) => FenceAt(s, i).Some?
  }

  /** `CODE_BLOCK_REGEX.search`: the body of the leftmost fenced block. */
  function FencedCode(s: string): (r: Option<string>)
    ensures r.Some? ==> !Contains(r.value, Fence)
  {
    match FirstIndex(FenceTest(s), 0, |s|)
    case None => None
    case Some(i) =>
      var bounds := FenceAt(s, i).value;
      Some(s[bounds.0..bounds.1])
  }

  /** The fenced block that starts at `i`, with no fenced block starting before it, is
      the one the search returns: the regex's leftmost match. */
  lemma FencedCodeLeftmost(s: string, i: nat)
    requires FenceAt(s, i).Some?
    requires forall j: nat :: j < i ==> FenceAt(s, j).None?
    ensures FencedCode(s) == Some(s[FenceAt(s, i).value.0..FenceAt(s, i).value.1])
  {
    FirstIndexIs(FenceTest(s), 0, |s|, i);
  }

  /** The search fails exactly when no fenced block starts anywhere. */
  lemma FencedCodeNone(s: string)
    ensures FencedCode(s).None? <==> forall i: nat :: FenceAt(s, i).None?
  {
    if forall i: nat :: FenceAt(s, i).None? {
      forall k: nat | k < |s|
        ensures !FenceTest(s)(k)
      {
        assert FenceAt(s, k).None?;
      }
      FirstIndexNone(FenceTest(s), 0, |s|);
    } else {
      var i: nat :| FenceAt(s, i).Some?;
      assert FenceTest(s)(i);
      FirstIndexFinds(FenceTest(s), 0, |s|, i);
    }
  }

  const ProseOpenings := ["im", "i'm", "sorry", "please provide", "cannot",
                          "need the actual rtl", "as an ai"]

  /** `(?i)^(i'?m|sorry|please provide|cannot|need the actual rtl|as an ai)` on a
      stripped line: the line opens like an apology or a refusal. */
  predicate IsProse(line: string) {
    exists k :: 0 <= k < |ProseOpenings| && AtIgnoreCase(Strip(line), 0, ProseOpenings[k])
  }

  /** The generator expression that drops the prose lines. */
  function DropProse(lines: seq<string>): (r: seq<string>)
    ensures IsSubsequence(r, lines)
    ensures forall l :: l in r <==> l in lines && !IsProse(l)
    ensures forall l :: multiset(r)[l] == if IsProse(l) then 0 else multiset(lines)[l]
  {
    if lines == [] then []
    else
      assert multiset(lines) == multiset([lines[0]]) + multiset(lines[1..]) by {
        assert lines == [lines[0]] + lines[1..];
      }
      if IsProse(lines[0]) then DropProse(lines[1..])
      else [lines[0]] + DropProse(lines[1..])
  }

  /** Lines are judged one at a time: two stretches keep the first's lines, then the
      second's. */
  lemma {:induction false} DropProseAppend(a: seq<string>, b: seq<string>)
    ensures DropProse(a + b) == DropProse(a) + DropProse(b)
    decreases |a|
  {
    if a != [] {
      var ab := a + b;
      assert ab[0] == a[0] && ab[1..] == a[1..] + b;
      DropProseAppend(a[1..], b);
      var x, y := DropProse(a[1..]), DropProse(b);
      if IsProse(a[0]) {
        assert DropProse(ab) == DropProse(ab[1..]) == x + y;
        assert DropProse(a) == x;
      } else {
        assert DropProse(ab) == [a[0]] + (x + y);
        assert DropProse(a) == [a[0]] + x;
        ConsAppend(a[0], x, y);
      }
    } else {
      assert a + b == b;
    }
  }

  function ModuleLineTest(lines: seq<string>): nat -> bool {
    (k: nat) => k < |lines| && HasWholeWord(lines[k], ModuleKeyword)
  }

  /** The first line that holds the word `module`. */
  function FirstModuleLine(lines: seq<string>): (r: Option<nat>)
    ensures r.Some? ==> r.value < |lines| && HasWholeWord(lines[r.value], ModuleKeyword)
  {
    FirstIndex(ModuleLineTest(lines), 0, |lines|)
  }

  /** A stripped text has no whitespace at either end. */
  predicate IsStripped(t: string) {
    t == [] || (!IsSpace(t[0]) && !IsSpace(t[|t| - 1]))
  }

  lemma StripIsStripped(s: string)
    ensures IsStripped(Strip(s))
  {
    StripIsInfix(s);
  }

  /** The reply's text once prose lines are dropped, re-joined with newlines. */
  function Filtered(text: string): string {
    Join("\n", DropProse(SplitLines(text)))
  }

  /** `extract_verilog_only`: the first fenced body, stripped; without a fence, the
      reply less its prose lines, from the first line that holds the word `module`
      when there is one. */
  function ExtractVerilogOnly(text: string): (r: string)
    ensures IsStripped(r)
    ensures FencedCode(text).Some? ==> r == Strip(FencedCode(text).value)
    ensures FencedCode(text).Some? ==> !Contains(r, Fence)
    ensures FencedCode(text).None? && FirstModuleLine(SplitLines(Filtered(text))).Some? ==>
              Contains(r, ModuleKeyword)
  {
    match FencedCode(text)
    case Some(code) =>
      StripIsStripped(code);
      StripAddsNothing(code, Fence);
      Strip(code)
    case None =>
      var filtered := Filtered(text);
      var lines := SplitLines(filtered);
      match FirstModuleLine(lines)
      case Some(k) =>
        var code := Join("\n", lines[k..]);
        StripIsStripped(code);
        ModuleLineKept(lines, k);
        Strip(code)
      case None =>
        StripIsStripped(filtered);
        Strip(filtered)
  }

  /** The joined text from a line holding the word `module` keeps it through the strip. */
  lemma ModuleLineKept(lines: seq<string>, k: nat)
    requires k < |lines| && HasWholeWord(lines[k], ModuleKeyword)
    ensures Contains(Strip(Join("\n", lines[k..])), ModuleKeyword)
  {
    HasWholeWordContains(lines[k], ModuleKeyword);
    JoinContains("\n", lines[k..], 0);
    ContainsTrans(Join("\n", lines[k..]), lines[k], ModuleKeyword);
    StripKeeps(Join("\n", lines[k..]), ModuleKeyword);
  }

  /** A reply with no fence whose every line is prose yields nothing. */
  lemma AllProseYieldsNothing(text: string)
    requires FencedCode(text).None?
    requires forall k :: 0 <= k < |SplitLines(text)| ==> IsProse(SplitLines(text)[k])
    ensures ExtractVerilogOnly(text) == []
  {
    AllProseDropped(SplitLines(text));
  }

  lemma {:induction false} AllProseDropped(lines: seq<string>)
    requires forall k :: 0 <= k < |lines| ==> IsProse(lines[k])
    ensures DropProse(lines) == []
  {
    if lines != [] {
      AllProseDropped(lines[1..]);
    }
  }

  // ---------------------------------------------------------------------------
  // looks_like_tb
  // ---------------------------------------------------------------------------

  /** `\bmodule\s+tb\s*\(` matching at `i`. Each repetition is followed by a
      character it cannot take, so only its longest run can lead to a match. */
  predicate TbDeclAt(s: string, i: nat) {
    Boundary(s, i) && At(s, i, ModuleKeyword)
    && var c := SkipSpace(s, i + |ModuleKeyword|);
       c > i + |ModuleKeyword| && At(s, c, "tb") && At(s, SkipSpace(s, c + 2), "(")
  }

  function TbDeclTest(s: string): nat -> bool {
    (i: nat) => TbDeclAt(s, i)
  }

  predicate HasTbDecl(s: string) {
    FirstIndex(TbDeclTest(s), 0, |s|).Some?
  }

  /** `\b<name>\b\s*(#\s*\(|[A-Za-z_]\w*\s*\()` matching at `i`: the DUT name as a
      whole word, then either a parameter override or an instance name, then `(`. */
  predicate InstanceAt(s: string, name: string, i: nat) {
    WholeWordAt(s, name, i)
    && var c := SkipSpace(s, i + |name|);
       if At(s, c, "#") then At(s, SkipSpace(s, c + 1), "(")
       else c < |s| && IsIdentStart(s[c]) && At(s, SkipSpace(s, SkipWord(s, c + 1)), "(")
  }

  function InstanceTest(s: string, name: string): nat -> bool {
    (i: nat) => InstanceAt(s, name, i)
  }

  predicate HasInstance(s: string, name: string) {
    FirstIndex(InstanceTest(s, name), 0, |s|).Some?
  }

  /** The DUT name the check looks for: Python's `if dut_name:` skips it when absent
      or empty. */
  predicate InstanceChecked(dutName: Option<string>) {
    dutName.Some? && dutName.value != []
  }

  const DumpFile := "$fsdbDumpfile"
  const DumpVars := "$fsdbDumpvars"
  const Finish := "$finish"

  /** `looks_like_tb`. */
  predicate LooksLikeTb(v: string, dutName: Option<string>) {
    v != []
    && HasTbDecl(v)
    && Contains(v, DumpFile) && Contains(v, DumpVars) && Contains(v, Finish)
    && (InstanceChecked(dutName) ==> HasInstance(v, dutName.value))
  }

  /** A search succeeds exactly when the pattern matches somewhere. */
  lemma FirstIndexSome(p: nat -> bool, n: nat)
    ensures FirstIndex(p, 0, n).Some? <==> exists i: nat :: i < n && p(i)
  {
    if i: nat :| i < n && p(i) {
      if FirstIndex(p, 0, n).None? {
        FirstIndexLeast(p, 0, n, i);
      }
    }
  }

  /** The `module tb(` search succeeds exactly when that pattern matches somewhere. */
  lemma HasTbDeclIff(v: string)
    ensures HasTbDecl(v) <==> exists i: nat :: i < |v| && TbDeclAt(v, i)
  {
    FirstIndexSome(TbDeclTest(v), |v|);
    if i: nat :| i < |v| && TbDeclAt(v, i) {
      assert TbDeclTest(v)(i);
    }
  }

  /** The instance search succeeds exactly when the instance pattern matches somewhere. */
  lemma HasInstanceIff(v: string, name: string)
    ensures HasInstance(v, name) <==> exists i: nat :: i < |v| && InstanceAt(v, name, i)
  {
    FirstIndexSome(InstanceTest(v, name), |v|);
    if i: nat :| i < |v| && InstanceAt(v, name, i) {
      assert InstanceTest(v, name)(i);
    }
  }

  // ---------------------------------------------------------------------------
  // Call sites: where the instance pattern goes on after the DUT name
  // ---------------------------------------------------------------------------

  /** Neither a word character nor whitespace: the runs of the instance pattern stop
      at such a character. */
  predicate IsSymbol(ch: char) { !IsWordChar(ch) && !IsSpace(ch) }

  /** The second alternative of the instance pattern from `c` on: `[A-Za-z_]\w*\s*\(`. */
  predicate CallHere(s: string, c: nat) {
    c < |s| && IsIdentStart(s[c]) && At(s, SkipSpace(s, SkipWord(s, c + 1)), "(")
  }

  /** That alternative right after whitespace, which is where it has to start after a
      name that is an identifier. */
  predicate CallAt(s: string, c: nat) {
    0 < c <= |s| && IsSpace(s[c - 1]) && CallHere(s, c)
  }

  ghost predicate NoCall(s: string) {
    forall c: nat :: !CallAt(s, c)
  }

  /** The alternative ends at a `(`, and everything from its start up to there is word
      characters or whitespace. */
  lemma CallEnd(s: string, c: nat)
    ensures CallHere(s, c) ==> var e := SkipSpace(s, SkipWord(s, c + 1));
      c < e < |s| && s[e] == '(' && forall k :: c <= k < e ==> !IsSymbol(s[k])
  {
    if CallHere(s, c) {
      var w := SkipWord(s, c + 1);
      var e := SkipSpace(s, w);
      assert s[e..e + 1][0] == s[e];
      forall k | c <= k < e
        ensures !IsSymbol(s[k])
      {
        if c < k < w {
          SkipWordRun(s, c + 1, k);
        } else if w <= k {
          SkipSpaceRun(s, w, k);
        }
      }
    }
  }

  /** In a text without `#`, an instance of an identifier goes on at a call site past
      the whitespace after the name. */
  lemma InstanceCall(s: string, name: string, i: nat)
    requires IsIdentifier(name) && '#' !in s
    ensures InstanceAt(s, name, i) ==>
      i + |name| < SkipSpace(s, i + |name|) && CallAt(s, SkipSpace(s, i + |name|))
  {
    if InstanceAt(s, name, i) {
      var n := |name|;
      var c := SkipSpace(s, i + n);
      assert s[i..i + n][n - 1] == s[i + n - 1];
      assert WordAt(s, i + n - 1);
      assert !At(s, c, "#") by {
        if c + 1 <= |s| {
          assert s[c..c + 1][0] == s[c] && s[c] in s;
        }
      }
      SkipSpaceRun(s, i + n, c - 1);
    }
  }

  /** A call site of `x + y` whose `(` lies in `x` is one of `x`. */
  lemma CallPrefix(x: string, y: string, c: nat)
    requires c < |x|
    ensures CallAt(x + y, c) && SkipSpace(x + y, SkipWord(x + y, c + 1)) < |x| ==> CallAt(x, c)
  {
    var s := x + y;
    if CallAt(s, c) && SkipSpace(s, SkipWord(s, c + 1)) < |x| {
      var w := SkipWord(s, c + 1);
      SkipWordPrefix(x, y, c + 1);
      SkipSpacePrefix(x, y, w);
      var e := SkipSpace(s, w);
      assert s[e..e + 1] == x[e..e + 1];
      assert s[c - 1] == x[c - 1] && s[c] == x[c];
    }
  }

  /** A call site of `x + y` that starts in `y` is one of `y`, and conversely. */
  lemma CallShift(x: string, y: string, j: nat)
    ensures CallHere(x + y, |x| + j) <==> CallHere(y, j)
  {
    SkipWordShift(x, y, j + 1);
    var w := SkipWord(y, j + 1);
    SkipSpaceShift(x, y, w);
    var e := SkipSpace(y, w);
    if j < |y| {
      assert (x + y)[|x| + j] == y[j];
    }
    assert At(x + y, |x| + e, "(") <==> At(y, e, "(") by {
      if e + 1 <= |y| {
        assert (x + y)[|x| + e..|x| + e + 1] == y[e..e + 1];
      }
    }
  }

  lemma CallAtShift(x: string, y: string, j: nat)
    requires 0 < j
    ensures CallAt(x + y, |x| + j) <==> CallAt(y, j)
  {
    CallShift(x, y, j);
    if j <= |y| {
      assert (x + y)[|x| + j - 1] == y[j - 1];
    }
  }

  /** Appending a text without `(` adds no call site. */
  lemma JoinParenFree(x: string, y: string)
    requires NoCall(x) && '(' !in y
    ensures NoCall(x + y)
  {
    var s := x + y;
    forall c: nat
      ensures !CallAt(s, c)
    {
      CallEnd(s, c);
      var e := SkipSpace(s, SkipWord(s, c + 1));
      if |x| <= e < |s| {
        assert s[e] == y[e - |x|];
        assert y[e - |x|] in y;
      }
      if c < |x| {
        CallPrefix(x, y, c);
      }
    }
  }

  /** A text without `(` has no call site. */
  lemma ParenFreeNoCall(y: string)
    requires '(' !in y
    ensures NoCall(y)
  {
    JoinParenFree([], y);
    assert [] + y == y;
  }

  /** Nor does a `(` followed by such a text. */
  lemma OpenParenNoCall(y: string)
    requires '(' !in y
    ensures NoCall("(" + y)
  {
    JoinParenFree("(", y);
  }

  /** After a text that ends in a symbol, a call site is one of the text or one of what
      follows. */
  lemma JoinAfterSymbol(x: string, y: string)
    requires NoCall(y) && x != [] && IsSymbol(x[|x| - 1])
    ensures forall c: nat :: CallAt(x + y, c) ==> CallAt(x, c)
  {
    var s := x + y;
    forall c: nat
      ensures CallAt(s, c) ==> CallAt(x, c)
    {
      if c + 1 < |x| {
        SkipWordStops(s, c + 1, |x| - 1);
        SkipSpaceStops(s, SkipWord(s, c + 1), |x| - 1);
        CallPrefix(x, y, c);
      } else if |x| < c {
        CallAtShift(x, y, c - |x|);
      }
    }
  }

  /** Putting a word that opens with a symbol other than `(` and holds no whitespace
      between two texts without call sites makes none. */
  lemma JoinWord(x: string, w: string, y: string)
    requires NoCall(x) && NoCall(y)
    requires w != [] && IsSymbol(w[0]) && w[0] != '('
    requires forall k :: 0 <= k < |w| ==> !IsSpace(w[k])
    ensures NoCall(x + w + y)
  {
    var s := x + w + y;
    assert s == x + (w + y);
    forall c: nat
      ensures !CallAt(s, c)
    {
      if c < |x| {
        SkipWordStops(s, c + 1, |x|);
        SkipSpaceStops(s, SkipWord(s, c + 1), |x|);
        CallEnd(s, c);
        CallPrefix(x, w + y, c);
      } else if |x| < c <= |x| + |w| {
        assert s[c - 1] == w[c - 1 - |x|];
      } else if |x| + |w| < c {
        CallAtShift(x + w, y, c - |x + w|);
      }
    }
  }

  // ---------------------------------------------------------------------------
  // The fallback scaffold
  // ---------------------------------------------------------------------------

  const ScaffoldNote := "// Fallback scaffold " + "because the model did " + "not return a valid TB."
  const ScaffoldHead := ScaffoldNote + "\n"
  const ScaffoldOpen := "\n  initial begin\n    "
  const ScaffoldDump := "(" + "\"waves.fsdb\");\n    "
  const Display := "$display"
  const ScaffoldMessage := "\"Fallback " + "scaffold: model did not " + "return a proper "
    + "testbench.\");\n    "
  const ScaffoldDisplay := "(" + "0, tb);\n    " + Display + ("(" + ScaffoldMessage)
  const ScaffoldClose := ";\n  end" + EndLine
  const EndLine := "\nendmodule\n"

  /** The scaffold's text after its `module tb();` line opener. */
  const ScaffoldBody := ScaffoldOpen + DumpFile + ScaffoldDump + DumpVars + ScaffoldDisplay
    + Finish + ScaffoldClose

  /** The dedented scaffold `main` writes when no reply passes the check. */
  const Scaffold := ScaffoldHead + (TbOpener + ScaffoldBody)

  const TbOpener := "module tb();"

  /** `module tb();` after a non-word character is a match of the `module tb(` pattern. */
  lemma TbDeclAfter(a: string, b: string)
    requires a == [] || !IsWordChar(a[|a| - 1])
    ensures TbDeclAt(a + (TbOpener + b), |a|)
  {
    var s := a + (TbOpener + b);
    var n := |a|;
    assert s[n..n + 6] == ModuleKeyword;
    assert s[n + 6] == ' ' && s[n + 7] == 't';
    assert SkipSpace(s, n + 7) == n + 7;
    assert SkipSpace(s, n + 6) == n + 7;
    assert s[n + 7..n + 9] == "tb";
    assert s[n + 9] == '(';
    assert SkipSpace(s, n + 9) == n + 9;
  }

  lemma ContainsAfter(s: string, t: string, p: string)
    requires Contains(s, p)
    ensures Contains(s + t, p)
  {
    assert [] + s + t == s + t;
    ContainsWithin([], s, t, p);
  }

  lemma ContainsBefore(t: string, s: string, p: string)
    requires Contains(s, p)
    ensures Contains(t + s, p)
  {
    assert t + s + [] == t + s;
    ContainsWithin(t, s, [], p);
  }

  /** A text laid out like the scaffold's body holds the three required calls. */
  lemma BodyHoldsCalls(a: string, b: string, c: string, d: string)
    ensures var s := a + DumpFile + b + DumpVars + c + Finish + d;
            Contains(s, DumpFile) && Contains(s, DumpVars) && Contains(s, Finish)
  {
    ContainsItself(a, DumpFile, []);
    assert a + DumpFile + [] == a + DumpFile;
    ContainsAfter(a + DumpFile, b, DumpFile);
    ContainsAfter(a + DumpFile + b, DumpVars, DumpFile);
    ContainsAfter(a + DumpFile + b + DumpVars, c, DumpFile);
    ContainsAfter(a + DumpFile + b + DumpVars + c, Finish, DumpFile);
    ContainsAfter(a + DumpFile + b + DumpVars + c + Finish, d, DumpFile);
    ContainsItself(a + DumpFile + b, DumpVars, []);
    assert a + DumpFile + b + DumpVars + [] == a + DumpFile + b + DumpVars;
    ContainsAfter(a + DumpFile + b + DumpVars, c, DumpVars);
    ContainsAfter(a + DumpFile + b + DumpVars + c, Finish, DumpVars);
    ContainsAfter(a + DumpFile + b + DumpVars + c + Finish, d, DumpVars);
    ContainsItself(a + DumpFile + b + DumpVars + c, Finish, []);
    assert a + DumpFile + b + DumpVars + c + Finish + [] == a + DumpFile + b + DumpVars + c + Finish;
    ContainsAfter(a + DumpFile + b + DumpVars + c + Finish, d, Finish);
  }

  /** The scaffold passes every check that does not involve the DUT name. */
  lemma ScaffoldLooksLikeTb()
    ensures LooksLikeTb(Scaffold, None)
  {
    assert ScaffoldHead[|ScaffoldHead| - 1] == '\n';
    TbDeclAfter(ScaffoldHead, ScaffoldBody);
    HasTbDeclIff(Scaffold);
    BodyHoldsCalls(ScaffoldOpen, ScaffoldDump, ScaffoldDisplay, ScaffoldClose);
    ContainsBefore(TbOpener, ScaffoldBody, DumpFile);
    ContainsBefore(ScaffoldHead, TbOpener + ScaffoldBody, DumpFile);
    ContainsBefore(TbOpener, ScaffoldBody, DumpVars);
    ContainsBefore(ScaffoldHead, TbOpener + ScaffoldBody, DumpVars);
    ContainsBefore(TbOpener, ScaffoldBody, Finish);
    ContainsBefore(ScaffoldHead, TbOpener + ScaffoldBody, Finish);
  }

  /** The scaffold's text after its opener has no call site: each `(` in it follows a
      `$` word. */
  lemma ScaffoldBodyNoCall()
    ensures NoCall(ScaffoldBody)
  {
    ScaffoldDumpNoCall();
    ScaffoldDisplayNoCall();
    JoinWord(ScaffoldOpen + DumpFile + ScaffoldDump, DumpVars, ScaffoldDisplay);
    ParenFreeNoCall(ScaffoldClose);
    JoinWord(ScaffoldOpen + DumpFile + ScaffoldDump + DumpVars + ScaffoldDisplay, Finish,
             ScaffoldClose);
  }

  lemma ScaffoldDumpNoCall()
    ensures NoCall(ScaffoldOpen + DumpFile + ScaffoldDump)
  {
    ParenFreeNoCall(ScaffoldOpen);
    OpenParenNoCall("\"waves.fsdb\");\n    ");
    JoinWord(ScaffoldOpen, DumpFile, ScaffoldDump);
  }

  lemma ScaffoldDisplayNoCall()
    ensures NoCall(ScaffoldDisplay)
  {
    OpenParenNoCall("0, tb);\n    ");
    OpenParenNoCall(ScaffoldMessage);
    JoinWord("(" + "0, tb);\n    ", Display, "(" + ScaffoldMessage);
  }

  /** The opener `module tb();` followed by a text without call sites has one call site,
      `tb(`, and `module` at its very start does not continue to a `(`. */
  lemma OpenerCalls(b: string)
    requires NoCall(b)
    ensures forall c: nat :: CallAt(TbOpener + b, c) ==> c == 7
    ensures !CallHere(TbOpener + b, 0)
  {
    var t := TbOpener + b;
    JoinAfterSymbol(TbOpener, b);
    assert forall k :: 0 <= k < |TbOpener| && k != 6 ==> !IsSpace(TbOpener[k]);
    assert forall k :: 1 <= k < 6 ==> IsWordChar(t[k]);
    SkipWordTo(t, 1, 6);
    assert t[6] == ' ' && t[7] == 't';
    assert SkipSpace(t, 6) == 7;
    assert t[7..8] == "t";
  }

  /** No call site starts inside a text that ends in a symbol and holds no `(`. */
  lemma NoCallInNote(note: string, y: string, z: string, c: nat)
    requires note != [] && IsSymbol(note[|note| - 1]) && '(' !in note && c < |note|
    ensures !CallAt((note + y) + z, c)
  {
    var s := (note + y) + z;
    if c + 1 < |note| {
      SkipWordStops(s, c + 1, |note| - 1);
      SkipSpaceStops(s, SkipWord(s, c + 1), |note| - 1);
      CallEnd(s, c);
      var e := SkipSpace(s, SkipWord(s, c + 1));
      assert s[e] == note[e] && note[e] in note;
    } else {
      assert s[c] == note[c];
    }
  }

  /** Behind such a text and a line break, the opener followed by a text without call
      sites has exactly one call site: `tb(`. */
  lemma OpenerCallSite(note: string, b: string)
    requires note != [] && IsSymbol(note[|note| - 1]) && '(' !in note && NoCall(b)
    ensures forall c: nat :: CallAt((note + "\n") + (TbOpener + b), c) ==> c == |note| + 8
  {
    OpenerCalls(b);
    forall c: nat
      ensures CallAt((note + "\n") + (TbOpener + b), c) ==> c == |note| + 8
    {
      OpenerCallAt(note, b, c);
    }
  }

  lemma OpenerCallAt(note: string, b: string, c: nat)
    requires note != [] && IsSymbol(note[|note| - 1]) && '(' !in note
    requires forall c: nat :: CallAt(TbOpener + b, c) ==> c == 7
    requires !CallHere(TbOpener + b, 0)
    ensures CallAt((note + "\n") + (TbOpener + b), c) ==> c == |note| + 8
  {
    var h := note + "\n";
    var t := TbOpener + b;
    var s := h + t;
    if c < |note| {
      NoCallInNote(note, "\n", t, c);
    } else if c == |note| {
      assert s[c] == '\n';
      assert !CallAt(s, c);
    } else if c == |note| + 1 {
      CallShift(h, t, 0);
      assert !CallAt(s, c);
    } else {
      CallAtShift(h, t, c - |h|);
      assert CallAt(s, c) ==> c - |h| == 7;
    }
  }

  /** The characters of the opener where it stands in a text. */
  lemma OpenerChars(h: string, b: string)
    ensures var s := h + (TbOpener + b);
      |h| + |TbOpener| <= |s| && s[|h|..|h| + 6] == ModuleKeyword
      && forall k :: 0 <= k < |TbOpener| ==> s[|h| + k] == TbOpener[k]
  {
    var s := h + (TbOpener + b);
    assert s[|h|..] == TbOpener + b;
    assert s[|h|..|h| + 6] == (TbOpener + b)[..6] == TbOpener[..6];
  }

  /** A whole-word identifier that ends where whitespace runs up to `m + 7`, behind the
      word `module` at `m` after a non-word character, is that word. */
  lemma NameBeforeSpace(s: string, name: string, i: nat, m: nat)
    requires IsIdentifier(name) && WholeWordAt(s, name, i)
    requires 0 < m && m + 7 <= |s| && !IsWordChar(s[m - 1]) && s[m..m + 6] == ModuleKeyword
    requires i + |name| < m + 7 && forall k :: i + |name| <= k < m + 7 ==> IsSpace(s[k])
    ensures i == m && |name| == 6
  {
    var n := |name|;
    forall k | m <= k < m + 6
      ensures IsWordChar(s[k])
    {
      assert s[k] == ModuleKeyword[k - m];
    }
    forall k | i <= k < i + n
      ensures IsWordChar(s[k])
    {
      assert s[k] == s[i..i + n][k - i];
    }
    assert WordAt(s, i) && WordAt(s, m + 5);
  }

  /** So in such a text the only identifier with an instance is `module`: `module tb(`
      reads as an instance `tb` of a module named `module`. */
  lemma OpenerInstance(note: string, b: string, name: string, i: nat)
    requires note != [] && IsSymbol(note[|note| - 1]) && '(' !in note && NoCall(b)
    requires '#' !in note && '#' !in b && IsIdentifier(name)
    ensures InstanceAt((note + "\n") + (TbOpener + b), name, i) ==> name == ModuleKeyword
  {
    var h := note + "\n";
    var s := h + (TbOpener + b);
    var m := |h|;
    assert '#' !in TbOpener;
    InstanceCall(s, name, i);
    OpenerCallSite(note, b);
    OpenerChars(h, b);
    assert s[m - 1] == '\n';
    InstanceBeforeCall(s, name, i, m);
  }

  /** The step that pins the name: an instance whose call site is `m + 7`, behind the word
      `module` at `m`, is an instance of `module`. */
  lemma InstanceBeforeCall(s: string, name: string, i: nat, m: nat)
    requires IsIdentifier(name) && 0 < m && m + 7 <= |s|
    requires !IsWordChar(s[m - 1]) && s[m..m + 6] == ModuleKeyword
    requires InstanceAt(s, name, i) ==> i + |name| < SkipSpace(s, i + |name|) == m + 7
    ensures InstanceAt(s, name, i) ==> name == ModuleKeyword
  {
    if InstanceAt(s, name, i) {
      var n := |name|;
      forall k | i + n <= k < m + 7
        ensures IsSpace(s[k])
      {
        SkipSpaceRun(s, i + n, k);
      }
      NameBeforeSpace(s, name, i, m);
      assert name == s[i..i + n] == s[m..m + 6];
    }
  }

  /** In the other direction, `module` does have an instance there. */
  lemma OpenerInstanceOfModule(h: string, b: string)
    requires h != [] && !IsWordChar(h[|h| - 1])
    ensures InstanceAt(h + (TbOpener + b), ModuleKeyword, |h|)
  {
    var s := h + (TbOpener + b);
    var m := |h|;
    OpenerChars(h, b);
    assert s[m + 6] == ' ' && s[m + 7] == 't';
    assert SkipSpace(s, m + 7) == m + 7;
    assert SkipSpace(s, m + 6) == m + 7;
    assert s[m + 8] == 'b' && s[m + 9] == '(';
    assert SkipWord(s, m + 9) == m + 9;
    assert SkipWord(s, m + 8) == m + 9;
    assert SkipSpace(s, m + 9) == m + 9;
    assert s[m + 9..m + 10] == "(";
  }

  /** The scaffold's note line holds no `#` and no `(`, and ends in a full stop. */
  lemma ScaffoldNoteSymbols()
    ensures '#' !in ScaffoldNote && '(' !in ScaffoldNote
    ensures ScaffoldNote != [] && IsSymbol(ScaffoldNote[|ScaffoldNote| - 1])
  {
    assert ScaffoldNote[|ScaffoldNote| - 1] == '.';
  }

  /** Nor does the rest of the scaffold hold a `#`. */
  lemma ScaffoldBodyHasNoHash()
    ensures '#' !in ScaffoldBody
  {
    ScaffoldDisplayHasNoHash();
    assert '#' !in ScaffoldOpen + DumpFile + ScaffoldDump + DumpVars;
    assert '#' !in Finish + ScaffoldClose;
  }

  lemma ScaffoldDisplayHasNoHash()
    ensures '#' !in ScaffoldDisplay
  {
    assert '#' !in ScaffoldMessage;
    assert '#' !in "(" + "0, tb);\n    " + Display;
  }

  /** No `<` anywhere in the scaffold, so no `<UNKNOWN_DUT>` either. */
  lemma ScaffoldHasNoAngle()
    ensures '<' !in Scaffold
  {
    ScaffoldBodyHasNoAngle();
    ScaffoldHeadHasNoAngle();
    assert '<' !in TbOpener;
  }

  lemma ScaffoldHeadHasNoAngle()
    ensures '<' !in ScaffoldHead
  {
  }

  lemma ScaffoldBodyHasNoAngle()
    ensures '<' !in ScaffoldBody
  {
    ScaffoldDisplayHasNoAngle();
    assert '<' !in ScaffoldOpen + DumpFile + ScaffoldDump + DumpVars;
    assert '<' !in Finish + ScaffoldClose;
  }

  lemma ScaffoldDisplayHasNoAngle()
    ensures '<' !in ScaffoldDisplay
  {
    assert '<' !in ScaffoldMessage;
    assert '<' !in "(" + "0, tb);\n    " + Display;
  }

  /** For a DUT name that is an identifier, the scaffold has an instance of it exactly
      when the name is `module`: the scaffold instantiates no design. */
  lemma ScaffoldInstances(name: string)
    requires IsIdentifier(name)
    ensures HasInstance(Scaffold, name) <==> name == ModuleKeyword
  {
    ScaffoldBodyNoCall();
    ScaffoldNoteSymbols();
    ScaffoldBodyHasNoHash();
    forall i: nat
      ensures InstanceAt(Scaffold, name, i) ==> name == ModuleKeyword
    {
      OpenerInstance(ScaffoldNote, ScaffoldBody, name, i);
    }
    OpenerInstanceOfModule(ScaffoldHead, ScaffoldBody);
    HasInstanceIff(Scaffold, name);
  }

  /** The scaffold therefore fails the check for every name `build_messages` gives,
      `<UNKNOWN_DUT>` included, except a design that is itself called `module`. */
  lemma ScaffoldFailsCheck(name: string)
    requires name == UnknownDut || (IsIdentifier(name) && name != ModuleKeyword)
    ensures !LooksLikeTb(Scaffold, Some(name))
  {
    if name == UnknownDut {
      ScaffoldHasNoAngle();
      UnknownDutBlocks(Scaffold);
    } else {
      ScaffoldInstances(name);
    }
  }

  // ---------------------------------------------------------------------------
  // Keeping everything up to the last `endmodule`
  // ---------------------------------------------------------------------------

  const EndModule := "endmodule"

  /** `re.finditer(r"\bendmodule\b", s)` from `i`: the start of each match, each
      search resuming where the previous match ended. */
  function EndMatches(s: string, i: nat): (r: seq<nat>)
    ensures forall n :: 0 <= n < |r| ==> i <= r[n] && WholeWordAt(s, EndModule, r[n])
    decreases |s| - i
  {
    match FirstIndex(WholeWordTest(s, EndModule), i, |s|)
    case None => []
    case Some(j) =>
      assert WholeWordTest(s, EndModule)(j);
      [j] + EndMatches(s, j + |EndModule|)
  }

  /** Two whole-word `endmodule`s never overlap: the only other `e` of the word is its
      last letter, and a word cannot start there as a whole word. */
  lemma EndModuleApart(s: string, j: nat, k: nat)
    requires WholeWordAt(s, EndModule, j) && j < k < j + |EndModule|
    ensures !WholeWordAt(s, EndModule, k)
  {
  }

  /** When there are no matches from `i`, `endmodule` does not occur there as a whole
      word. */
  lemma {:induction false} EndMatchesNone(s: string, i: nat, k: nat)
    requires EndMatches(s, i) == [] && i <= k < |s|
    ensures !WholeWordAt(s, EndModule, k)
  {
    FirstIndexLeast(WholeWordTest(s, EndModule), i, |s|, k);
  }

  /** The last match is the last whole-word occurrence: nothing after it matches,
      because matches never overlap. */
  lemma {:induction false} LastMatchIsLast(s: string, i: nat, k: nat)
    requires EndMatches(s, i) != []
    requires EndMatches(s, i)[|EndMatches(s, i)| - 1] < k < |s|
    ensures !WholeWordAt(s, EndModule, k)
    decreases |s| - i
  {
    var j := FirstIndex(WholeWordTest(s, EndModule), i, |s|).value;
    var rest := EndMatches(s, j + |EndModule|);
    var ms := EndMatches(s, i);
    assert ms == [j] + rest;
    if rest == [] {
      assert ms[|ms| - 1] == j;
      assert WholeWordTest(s, EndModule)(j);
      if k < j + |EndModule| {
        EndModuleApart(s, j, k);
      } else {
        EndMatchesNone(s, j + |EndModule|, k);
      }
    } else {
      assert ms[|ms| - 1] == rest[|rest| - 1];
      LastMatchIsLast(s, j + |EndModule|, k);
    }
  }

  /** Where the last whole-word `endmodule` ends. */
  function LastEnd(s: string): (r: Option<nat>)
    ensures r.Some? ==> |EndModule| <= r.value <= |s|
                        && WholeWordAt(s, EndModule, r.value - |EndModule|)
  {
    var ms := EndMatches(s, 0);
    if ms == [] then None else Some(ms[|ms| - 1] + |EndModule|)
  }

  /** The last match `finditer` yields is the last whole-word `endmodule`; when it
      yields none, there is none. */
  lemma LastEndIsLast(s: string, k: nat)
    requires k < |s|
    requires LastEnd(s).None? || LastEnd(s).value - |EndModule| < k
    ensures !WholeWordAt(s, EndModule, k)
  {
    if EndMatches(s, 0) == [] {
      EndMatchesNone(s, 0, k);
    } else {
      LastMatchIsLast(s, 0, k);
    }
  }

  /** Cutting after an `endmodule` and stripping leaves a text that ends with it. */
  lemma CutEndsWithEndModule(s: string, e: nat)
    requires |EndModule| <= e <= |s| && At(s, e - |EndModule|, EndModule)
    ensures EndsWith(Strip(s[..e]), EndModule)
    ensures IsStripped(Strip(s[..e]))
  {
    var t := s[..e];
    assert t[|t| - |EndModule|..] == s[e - |EndModule|..e];
    StripKeepsSuffix(t, EndModule);
    StripIsStripped(t);
  }

  /** The final clean-up: up to the last `endmodule`, stripped. */
  function Finalize(s: string): string {
    match LastEnd(s)
    case None => s
    case Some(e) => Strip(s[..e])
  }

  /** The clean-up leaves a text without `endmodule` alone, and otherwise gives a
      stripped text that ends with `endmodule`. */
  lemma FinalizeEnds(s: string)
    ensures LastEnd(s).None? ==> Finalize(s) == s
    ensures LastEnd(s).Some? ==> EndsWith(Finalize(s), EndModule) && IsStripped(Finalize(s))
  {
    if LastEnd(s).Some? {
      FinalizeCut(s, LastEnd(s).value);
    }
  }

  /** The clean-up with a last `endmodule` ending at `e`. */
  lemma FinalizeCut(s: string, e: nat)
    requires LastEnd(s) == Some(e)
    ensures EndsWith(Finalize(s), EndModule) && IsStripped(Finalize(s))
  {
    CutEndsWithEndModule(s, e);
  }

  /** The last `k` characters of `a + b` are those of `b`. */
  lemma SuffixOfAppend(a: string, b: string, k: nat)
    requires k <= |b|
    ensures (a + b)[|a + b| - k..] == b[|b| - k..]
  {
  }

  /** A text built like the scaffold ends as its last piece does. */
  lemma EndsAsLastPiece(h: string, o: string, b: string, c: string, w: string)
    requires |w| <= |c| && c[|c| - |w|..] == w
    ensures |h + (o + (b + c))| >= |w| && (h + (o + (b + c)))[|h + (o + (b + c))| - |w|..] == w
  {
    SuffixOfAppend(b, c, |w|);
    SuffixOfAppend(o, b + c, |w|);
    SuffixOfAppend(h, o + (b + c), |w|);
  }

  /** The scaffold ends in `endmodule` on a line of its own. */
  lemma ScaffoldEnding()
    ensures |Scaffold| > |EndLine| && Scaffold[|Scaffold| - |EndLine|..] == EndLine
  {
    SuffixOfAppend(";\n  end", EndLine, |EndLine|);
    EndsAsLastPiece(ScaffoldHead, TbOpener,
                    ScaffoldOpen + DumpFile + ScaffoldDump + DumpVars + ScaffoldDisplay + Finish,
                    ScaffoldClose, EndLine);
  }

  /** A text that ends in `endmodule` on a line of its own, with no whitespace in
      front, loses only its final newline in the clean-up. */
  lemma FinalizeDropsNewline(s: string)
    requires |s| > |EndLine| && s[|s| - |EndLine|..] == EndLine && !IsSpace(s[0])
    ensures Finalize(s) == s[..|s| - 1]
  {
    var n := |s|;
    assert s[n - 11] == EndLine[0] == '\n' && s[n - 1] == EndLine[10] == '\n';
    assert s[n - 10..n - 1] == EndLine[1..10] == EndModule;
    assert WholeWordAt(s, EndModule, n - 10);
    if EndMatches(s, 0) == [] {
      EndMatchesNone(s, 0, n - 10);
    }
    var e := LastEnd(s).value;
    if e - |EndModule| < n - 10 {
      LastEndIsLast(s, n - 10);
    }
    assert s[n - 9] == EndLine[2] == 'n';
    assert e == n - 1;
    assert s[..n - 1][n - 2] == 'e';
    StripUnchanged(s[..n - 1]);
  }

  /** The scaffold is written as it stands, less its final newline. */
  lemma ScaffoldWritten()
    ensures Finalize(Scaffold) == Scaffold[..|Scaffold| - 1]
  {
    ScaffoldEnding();
    assert Scaffold[0] == ScaffoldHead[0] == '/';
    FinalizeDropsNewline(Scaffold);
  }

  // ---------------------------------------------------------------------------
  // The conversation
  // ---------------------------------------------------------------------------

  // The message texts are written as sums of short literals, which keeps the verifier's
  // work on them small; the sums are the texts the source sends.
  const TbSystemPrompt :=
    "You are an expert " + "hardware verification " + "assistant.\n"
    + "Return ONLY a Verilog " + "testbench. Do NOT " + "include any "
    + "explanation, apology, " + "markdown,\n" + "or prose\U{2014}just Verilog "
    + "code. Your first " + "non-whitespace " + "characters MUST be " + "'module tb();'.\n"
    + "\n" + "Strict testbench " + "preferences (follow " + "exactly):\n"
    + "- Start with: module " + "tb();\n" + "- No `timescale " + "directive.\n"
    + "- At the very top of " + "the first initial " + "block:\n" + "    "
    + "$fsdbDumpfile(\"waves.fsdb\");\n" + "    $fsdbDumpvars(0, " + "tb);\n"
    + "- Provide a task-based " + "input driver named " + "apply_input(...).\n"
    + "- Respect reset " + "polarity implied by " + "port names (rst, reset "
    + "= active-high unless " + "'n' suffix).\n" + "- Provide a clock " + "generator if a "
    + "clock-like port exists " + "(clk, clk_i, clock).\n" + "- Instantiate the DUT "
    + "exactly (module name " + "and ports) from the RTL " + "provided.\n"
    + "- Provide a short reset " + "sequence and a few " + "stimuli via " + "apply_input.\n"
    + "- End with $finish;.\n"

  const UserPromptHead :=
    "Create a Verilog " + "testbench for the DUT " + "below.\n" + "Output ONLY Verilog "
    + "code starting with " + "`module tb();` (no " + "markdown fences, no " + "prose).\n"
    + "\n" + "DUT name: "

  /** `USER_PROMPT_TEMPLATE` filled in. */
  function UserPrompt(name: string, header: string, filename: string, rtl: string): string {
    UserPromptHead + name
    + "\nRaw DUT port header (verbatim from module declaration):\n" + header
    + "\n\nFull RTL from file " + filename
    + ":\n<RTL>\n" + rtl
    + "\n</RTL>\n"
  }

  /** The name used when no module declaration is found. */
  const UnknownDut := "<UNKNOWN_DUT>"
  const UnknownHeader :=
    "(could not parse module " + "declaration; infer " + "carefully)."

  /** The DUT name and port header the prompt shows. */
  function DutShown(rtl: string): (r: (string, string))
    ensures r.0 != []
    ensures ParseDutInfo(rtl).Some? ==> r == (ParseDutInfo(rtl).value.name, ParseDutInfo(rtl).value.header)
    ensures ParseDutInfo(rtl).None? ==> r == (UnknownDut, UnknownHeader)
  {
    match ParseDutInfo(rtl)
    case Some(info) => (info.name, info.header)
    case None => (UnknownDut, UnknownHeader)
  }

  /** Python's truth test on the optional `--extra` text. */
  predicate HasExtra(extra: Option<string>) {
    extra.Some? && extra.value != []
  }

  /** `build_messages`: the conversation of the first request and the DUT name. */
  function BuildMessages(rtl: string, filename: string, extra: Option<string>): (r: (seq<Message>, string))
    ensures r.1 == DutShown(rtl).0
    ensures |r.0| == if HasExtra(extra) then 3 else 2
    ensures r.0[0] == Message(System, TbSystemPrompt)
    ensures r.0[1] == Message(User, UserPrompt(r.1, DutShown(rtl).1, filename, rtl))
    ensures HasExtra(extra) ==> r.0[2] == Message(User, "Extra TB preference: " + extra.value)
  {
    var (name, header) := DutShown(rtl);
    var msgs := [Message(System, TbSystemPrompt), Message(User, UserPrompt(name, header, filename, rtl))];
    if HasExtra(extra) then (msgs + [Message(User, "Extra TB preference: " + extra.value)], name)
    else (msgs, name)
  }

  /** The prompt carries the DUT name and the whole RTL, verbatim. */
  lemma UserPromptQuotes(name: string, header: string, filename: string, rtl: string)
    ensures Contains(UserPrompt(name, header, filename, rtl), name)
    ensures Contains(UserPrompt(name, header, filename, rtl), rtl)
  {
    var a := "\nRaw DUT port header (verbatim from module declaration):\n";
    var b := "\n\nFull RTL from file ";
    var c := ":\n<RTL>\n";
    var d := "\n</RTL>\n";
    ContainsItself(UserPromptHead, name, []);
    assert UserPromptHead + name + [] == UserPromptHead + name;
    ContainsAfter(UserPromptHead + name, a, name);
    ContainsAfter(UserPromptHead + name + a, header, name);
    ContainsAfter(UserPromptHead + name + a + header, b, name);
    ContainsAfter(UserPromptHead + name + a + header + b, filename, name);
    ContainsAfter(UserPromptHead + name + a + header + b + filename, c, name);
    ContainsAfter(UserPromptHead + name + a + header + b + filename + c, rtl, name);
    ContainsAfter(UserPromptHead + name + a + header + b + filename + c + rtl, d, name);
    ContainsItself(UserPromptHead + name + a + header + b + filename + c, rtl, d);
  }

  /** `RETRY_ADVICE` filled in. */
  function RetryAdvice(name: string): string {
    "Your prior output did " + "not meet the " + "requirements.\n" + "Now strictly output "
    + "ONLY Verilog code, " + "starting with 'module " + "tb();' as the first " + "token.\n"
    + "No explanations, no " + "markdown fences, no " + "apologies. Ensure the " + "DUT '" + name
    + "' is instantiated.\n"
  }

  // ---------------------------------------------------------------------------
  // main: one request, at most one retry, then the scaffold
  // ---------------------------------------------------------------------------

  /** What a call to the chat API gives back: an exception, a completion without
      choices, or the first choice's content (which may be absent). */
  datatype Reply = ApiError | NoChoices | Content(text: Option<string>)

  /** `completion.choices[0].message.content or ""`. */
  function ReplyText(content: Option<string>): string {
    match content
    case Some(text) => text
    case None => []
  }

  /** How `main` ends: an exit status, or the testbench it writes. */
  datatype Outcome = Exit(code: nat) | Written(testbench: string)

  /** The candidate after the optional retry. A retry that raises, or whose
      completion has no choices (an `IndexError`, caught the same way), leaves the
      first candidate in place. */
  function Retried(candidate: string, retry: Reply): string {
    match retry
    case Content(text) => ExtractVerilogOnly(ReplyText(text))
    case _ => candidate
  }

  /** The testbench chosen before the clean-up: the first candidate if it passes, else
      the retry's if it passes, else the scaffold. */
  function Chosen(first: string, retry: Reply, name: string): (r: string)
  {
    var candidate := ExtractVerilogOnly(first);
    if LooksLikeTb(candidate, Some(name)) then candidate
    else
      var second := Retried(candidate, retry);
      if LooksLikeTb(second, Some(name)) then second else Scaffold
  }

  /** What is chosen either passes the check or is the scaffold. */
  lemma ChosenPassesOrScaffold(first: string, retry: Reply, name: string)
    ensures LooksLikeTb(Chosen(first, retry, name), Some(name)) || Chosen(first, retry, name) == Scaffold
  {
  }

  /** A first reply that passes is kept, whatever the retry would have said. */
  lemma FirstPassIsKept(first: string, retry: Reply, retry': Reply, name: string)
    requires LooksLikeTb(ExtractVerilogOnly(first), Some(name))
    ensures Chosen(first, retry, name) == Chosen(first, retry', name) == ExtractVerilogOnly(first)
  {
  }

  /** The scaffold is written only when neither reply passes. */
  lemma ScaffoldOnlyOnFailure(first: string, retry: Reply, name: string)
    requires Chosen(first, retry, name) == Scaffold
    requires !LooksLikeTb(Scaffold, Some(name))
    ensures !LooksLikeTb(ExtractVerilogOnly(first), Some(name))
    ensures !LooksLikeTb(Retried(ExtractVerilogOnly(first), retry), Some(name))
  {
  }

  /** For the name `build_messages` gives, the scaffold itself fails the check, so
      choosing it means both replies failed. The one exception is a design the pattern
      reads as named `module`, which the opener `module tb(` instantiates. */
  lemma ScaffoldMeansBothFailed(rtl: string, first: string, retry: Reply)
    requires ParseDutInfo(rtl).None? || ParseDutInfo(rtl).value.name != ModuleKeyword
    requires Chosen(first, retry, DutShown(rtl).0) == Scaffold
    ensures !LooksLikeTb(ExtractVerilogOnly(first), Some(DutShown(rtl).0))
    ensures !LooksLikeTb(Retried(ExtractVerilogOnly(first), retry), Some(DutShown(rtl).0))
  {
    ScaffoldFailsCheck(DutShown(rtl).0);
    ScaffoldOnlyOnFailure(first, retry, DutShown(rtl).0);
  }

  /** `main` from the existence check on. Reading the file, the API client, and
      writing `<stem>_tb.v` are outside the model: the file's text, its name and the
      two replies are inputs, and the testbench is the result. `messages` is the
      conversation as last sent. */
  method GenerateTestbench(fileExists: bool, rtl: string, filename: string, extra: Option<string>,
                           first: Reply, retry: Reply)
    returns (outcome: Outcome, messages: seq<Message>)
    ensures !fileExists ==> outcome == Exit(1) && messages == []
    ensures fileExists ==> var (request, name) := BuildMessages(rtl, filename, extra);
      && (first.ApiError? ==> outcome == Exit(2) && messages == request)
      && (first.NoChoices? ==> outcome == Exit(3) && messages == request)
      && (first.Content? ==>
            var candidate := ExtractVerilogOnly(ReplyText(first.text));
            outcome == Written(Finalize(Chosen(ReplyText(first.text), retry, name)))
            && messages == if LooksLikeTb(candidate, Some(name)) then request
                           else request + [Message(User, RetryAdvice(name))])
  {
    if !fileExists {
      return Exit(1), [];
    }
    var name;
    messages, name := BuildMessages(rtl, filename, extra).0, BuildMessages(rtl, filename, extra).1;
    if first.ApiError? {
      return Exit(2), messages;
    }
    if first.NoChoices? {
      return Exit(3), messages;
    }
    var tb := ExtractVerilogOnly(ReplyText(first.text));
    if !LooksLikeTb(tb, Some(name)) {
      messages := messages + [Message(User, RetryAdvice(name))];
      tb := Retried(tb, retry);
      if !LooksLikeTb(tb, Some(name)) {
        tb := Scaffold;
      }
    }
    outcome := Written(Finalize(tb));
  }

  // ---------------------------------------------------------------------------
  // The instance check when the DUT was not parsed
  // ---------------------------------------------------------------------------

  /** As written, `build_messages` replaces a missing name by `<UNKNOWN_DUT>`, which is
      truthy, so `looks_like_tb` then looks for an instance of `<UNKNOWN_DUT>`. A text
      without `<` never has one, and fails the check. */
  lemma UnknownDutBlocks(v: string)
    requires '<' !in v
    ensures !LooksLikeTb(v, Some(UnknownDut))
  {
    forall i: nat | i < |v| ensures !At(v, i, UnknownDut) {
      if i + |UnknownDut| <= |v| {
        assert v[i..i + |UnknownDut|][0] == v[i];
      }
    }
    HasInstanceIff(v, UnknownDut);
  }

  /** So for RTL without a module declaration, every reply without a `<` is replaced by
      the scaffold. */
  lemma UnparsedDutGetsScaffold(rtl: string, filename: string, extra: Option<string>,
                                first: string, retry: Reply)
    requires ParseDutInfo(rtl).None?
    requires '<' !in ExtractVerilogOnly(first)
    requires '<' !in Retried(ExtractVerilogOnly(first), retry)
    ensures Chosen(first, retry, BuildMessages(rtl, filename, extra).1) == Scaffold
  {
    UnknownDutBlocks(ExtractVerilogOnly(first));
    UnknownDutBlocks(Retried(ExtractVerilogOnly(first), retry));
  }

  /** The name to look for as the comment beside the check intends it: none when the
      declaration was not parsed. */
  function InstanceName(info: Option<DutInfo>): (r: Option<string>)
    ensures r.None? <==> info.None?
  {
    match info
    case Some(d) => Some(d.name)
    case None => None
  }

  /** With the intended name, an unparsed DUT does not block the check: a text passes
      exactly when it has the `module tb(` opener and the three calls, so the scaffold
      itself passes. */
  lemma UnparsedDutNotBlocked(v: string)
    ensures LooksLikeTb(v, InstanceName(None)) <==>
              v != [] && HasTbDecl(v) && Contains(v, DumpFile) && Contains(v, DumpVars)
              && Contains(v, Finish)
    ensures LooksLikeTb(Scaffold, InstanceName(None))
  {
    ScaffoldLooksLikeTb();
  }
}
