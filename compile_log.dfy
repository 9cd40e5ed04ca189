/** Compile-log diagnostics (auto_create_response.py:13-30).

    A diagnostic starts at a marker (`Error-[` or `Warning-[`) and runs, lazily,
    through the first whitespace-only line that starts after the marker, newline
    included: the regex `(<marker>.*?^\s*?\n)` under DOTALL and MULTILINE, found
    with `findall` (leftmost, non-overlapping). */
module CompileLog {
  import opened Text

  const ErrorMarker := "Error-["
  const WarningMarker := "Warning-["

  /** Warning identifiers that never count as a failed compile. */
  const ExcludedWarnings: seq<string> := ["LCA_FEATURES_ENABLED"]

  /** Regex `^` under MULTILINE: the start of the text or just after a newline. */
  predicate LineStart(s: string, p: nat) {
    p == 0 || (p <= |s| && s[p - 1] == '\n')
  }

  /** Whitespace other than the newline itself. */
  predicate IsInlineSpace(c: char) {
    IsSpace(c) && c != '\n'
  }

  function SkipInlineSpace(s: string, p: nat): (q: nat)
    ensures p <= q && (p <= |s| ==> q <= |s|)
    decreases |s| - p
  {
    if p < |s| && IsInlineSpace(s[p]) then SkipInlineSpace(s, p + 1) else p
  }

  /** `^\s*?\n` matches at `p`: a whitespace-only line, ended by a newline, starts at `p`. */
  predicate BlankLineAt(s: string, p: nat) {
    LineStart(s, p) && SkipInlineSpace(s, p) < |s| && s[SkipInlineSpace(s, p)] == '\n'
  }

  /** The index just past the newline of the blank line at `p`. */
  function BlankLineEnd(s: string, p: nat): (e: nat)
    requires BlankLineAt(s, p)
    ensures p < e <= |s| && s[e - 1] == '\n'
  {
    SkipInlineSpace(s, p) + 1
  }

  /** The lazy `.*?` stops at the first position from `p` where a blank line starts. */
  function TerminatorFrom(s: string, p: nat): (r: Option<nat>)
    ensures r.Some? ==> p <= r.value < |s| && BlankLineAt(s, r.value)
    ensures forall q :: p <= q && (r.None? || q < r.value) ==> !BlankLineAt(s, q)
    decreases |s| - p
  {
    if p >= |s| then None
    else if BlankLineAt(s, p) then Some(p)
    else TerminatorFrom(s, p + 1)
  }

  /** One match: the marker at `start`, the terminating blank line at `blank`,
      and the match ending just past that line's newline at `end`. */
  datatype Span = Span(start: nat, blank: nat, end: nat)

  predicate IsMatch(s: string, marker: string, m: Span) {
    && m.start + |marker| <= m.blank < m.end <= |s|
    && At(s, m.start, marker)
    && TerminatorFrom(s, m.start + |marker|) == Some(m.blank)
    && m.end == BlankLineEnd(s, m.blank)
  }

  /** Where scanning resumes after the matches `ms` found from `pos`. */
  function Resume(ms: seq<Span>, pos: nat): nat {
    if ms == [] then pos else ms[|ms| - 1].end
  }

  /** One `search` of the diagnostic pattern from `pos`: the leftmost marker, if a blank
      line follows it. */
  function NextMatch(s: string, marker: string, pos: nat): (r: Option<Span>)
    ensures r.Some? ==> IsMatch(s, marker, r.value) && pos <= r.value.start
    ensures r.Some? ==> forall j :: pos <= j < r.value.start ==> !At(s, j, marker)
  {
    match FindFrom(s, marker, pos)
    case None => None
    case Some(i) =>
      match TerminatorFrom(s, i + |marker|)
      case None => None
      case Some(q) => Some(Span(i, q, BlankLineEnd(s, q)))
  }

  /** When the search fails, no marker from `pos` on has a blank line after it. */
  lemma NoNextMatch(s: string, marker: string, pos: nat, j: nat)
    requires NextMatch(s, marker, pos).None? && pos <= j && At(s, j, marker)
    ensures TerminatorFrom(s, j + |marker|).None?
  {
    var i := FindFrom(s, marker, pos).value;
    NoTerminatorLater(s, i + |marker|, j + |marker|);
  }

  /** Once no blank line follows `p`, none follows any later position. */
  lemma NoTerminatorLater(s: string, p: nat, p': nat)
    requires TerminatorFrom(s, p).None? && p <= p'
    ensures TerminatorFrom(s, p').None?
  {
    assert forall q :: p' <= q ==> !BlankLineAt(s, q);
  }

  /** `re.findall` of the diagnostic pattern for `marker`, scanning from `pos`: each
      search resumes where the previous match ended. When a marker has no blank line
      after it, neither has any later marker, so the scan ends there. */
  function Matches(s: string, marker: string, pos: nat): seq<Span>
    decreases |s| - pos
  {
    match NextMatch(s, marker, pos)
    case None => []
    case Some(m) => [m] + Matches(s, marker, m.end)
  }

  lemma MatchesStep(s: string, marker: string, pos: nat, m: Span)
    requires NextMatch(s, marker, pos) == Some(m)
    ensures Matches(s, marker, pos) == [m] + Matches(s, marker, m.end)
  {
  }

  /** The match at index `k` is a match of the pattern, at or after the scan's start. */
  lemma {:induction false} MatchAtIndex(s: string, marker: string, pos: nat, k: nat)
    requires k < |Matches(s, marker, pos)|
    ensures IsMatch(s, marker, Matches(s, marker, pos)[k]) && pos <= Matches(s, marker, pos)[k].start
    decreases |s| - pos
  {
    var m := NextMatch(s, marker, pos).value;
    MatchesStep(s, marker, pos, m);
    var x := Matches(s, marker, pos)[k];
    if k > 0 {
      MatchAtIndex(s, marker, m.end, k - 1);
      assert x == Matches(s, marker, m.end)[k - 1];
    } else {
      assert x == m;
    }
    assert IsMatch(s, marker, x);
  }

  /** Every match found is a match of the pattern, at or after the scan's start. */
  lemma MatchesAreMatches(s: string, marker: string, pos: nat)
    ensures forall k :: 0 <= k < |Matches(s, marker, pos)| ==>
              IsMatch(s, marker, Matches(s, marker, pos)[k]) && pos <= Matches(s, marker, pos)[k].start
  {
    forall k | 0 <= k < |Matches(s, marker, pos)|
      ensures IsMatch(s, marker, Matches(s, marker, pos)[k]) && pos <= Matches(s, marker, pos)[k].start
    {
      MatchAtIndex(s, marker, pos, k);
    }
  }

  /** Consecutive matches do not overlap. */
  lemma {:induction false} MatchesApart(s: string, marker: string, pos: nat, k: nat)
    requires k + 1 < |Matches(s, marker, pos)|
    ensures Matches(s, marker, pos)[k].end <= Matches(s, marker, pos)[k + 1].start
    decreases |s| - pos
  {
    var m := NextMatch(s, marker, pos).value;
    MatchesStep(s, marker, pos, m);
    var rest := Matches(s, marker, m.end);
    if k > 0 {
      MatchesApart(s, marker, m.end, k - 1);
      assert Matches(s, marker, pos)[k] == rest[k - 1];
    } else {
      MatchAtIndex(s, marker, m.end, 0);
    }
    assert Matches(s, marker, pos)[k + 1] == rest[k];
  }

  /** The first match starts at the leftmost marker from `pos`. */
  lemma MatchesFirst(s: string, marker: string, pos: nat)
    requires Matches(s, marker, pos) != []
    ensures forall j :: pos <= j < Matches(s, marker, pos)[0].start ==> !At(s, j, marker)
  {
    MatchesStep(s, marker, pos, NextMatch(s, marker, pos).value);
  }

  /** Between two consecutive matches there is no marker: each match is the leftmost one. */
  lemma {:induction false} MatchesLeftmost(s: string, marker: string, pos: nat, k: nat)
    requires k + 1 < |Matches(s, marker, pos)|
    ensures forall j :: Matches(s, marker, pos)[k].end <= j < Matches(s, marker, pos)[k + 1].start
              ==> !At(s, j, marker)
    decreases |s| - pos
  {
    var m := NextMatch(s, marker, pos).value;
    MatchesStep(s, marker, pos, m);
    var rest := Matches(s, marker, m.end);
    if k > 0 {
      MatchesLeftmost(s, marker, m.end, k - 1);
      assert Matches(s, marker, pos)[k] == rest[k - 1];
      assert Matches(s, marker, pos)[k + 1] == rest[k];
    } else {
      MatchesFirst(s, marker, m.end);
      assert Matches(s, marker, pos)[1] == rest[0];
    }
  }

  /** After the last match, no marker is followed by a blank line: nothing is missed. */
  lemma {:induction false} MatchesComplete(s: string, marker: string, pos: nat, j: nat)
    requires Resume(Matches(s, marker, pos), pos) <= j && At(s, j, marker)
    ensures TerminatorFrom(s, j + |marker|).None?
    decreases |s| - pos
  {
    var n := NextMatch(s, marker, pos);
    if n.Some? {
      var m := n.value;
      MatchesStep(s, marker, pos, m);
      var rest := Matches(s, marker, m.end);
      assert Resume(rest, m.end) <= j;
      MatchesComplete(s, marker, m.end, j);
    } else {
      NoNextMatch(s, marker, pos, j);
    }
  }

  predicate ValidSpans(s: string, ms: seq<Span>) {
    forall k :: 0 <= k < |ms| ==> ms[k].start <= ms[k].end <= |s|
  }

  /** The matched texts, in order. */
  function Texts(s: string, ms: seq<Span>): (r: seq<string>)
    requires ValidSpans(s, ms)
    ensures |r| == |ms|
    ensures forall k :: 0 <= k < |r| ==> r[k] == s[ms[k].start..ms[k].end]
  {
    if ms == [] then [] else [s[ms[0].start..ms[0].end]] + Texts(s, ms[1..])
  }

  /** A diagnostic text opens with its marker and ends with the newline of a blank line. */
  predicate WellFormed(d: string, marker: string) {
    At(d, 0, marker) && |d| > |marker| && d[|d| - 1] == '\n'
  }

  /** The text of a match opens with the marker and ends with a newline. */
  lemma MatchTextWellFormed(s: string, marker: string, m: Span)
    requires IsMatch(s, marker, m)
    ensures WellFormed(s[m.start..m.end], marker)
  {
    var d := s[m.start..m.end];
    assert d[0..|marker|] == s[m.start..m.start + |marker|];
    assert d[|d| - 1] == s[m.end - 1];
  }

  lemma TextsWellFormed(s: string, marker: string, ms: seq<Span>)
    requires forall k :: 0 <= k < |ms| ==> IsMatch(s, marker, ms[k])
    ensures ValidSpans(s, ms)
    ensures forall k :: 0 <= k < |ms| ==> WellFormed(Texts(s, ms)[k], marker)
  {
    forall k | 0 <= k < |ms| ensures WellFormed(Texts(s, ms)[k], marker) {
      MatchTextWellFormed(s, marker, ms[k]);
    }
  }

  predicate Excluded(w: string) {
    exists k :: 0 <= k < |ExcludedWarnings| && Contains(w, ExcludedWarnings[k])
  }

  /** The list comprehension that drops the excluded warnings. */
  function KeepWarnings(ws: seq<string>): (r: seq<string>)
    ensures IsSubsequence(r, ws)
    ensures forall w :: multiset(r)[w] == if Excluded(w) then 0 else multiset(ws)[w]
    ensures forall w :: w in r <==> w in ws && !Excluded(w)
  {
    if ws == [] then []
    else
      var rest := KeepWarnings(ws[1..]);
      assert ws == [ws[0]] + ws[1..];
      assert multiset(ws) == multiset{ws[0]} + multiset(ws[1..]);
      if Excluded(ws[0]) then rest
      else
        assert multiset([ws[0]] + rest) == multiset{ws[0]} + multiset(rest);
        [ws[0]] + rest
  }

  /** The filter works warning by warning: on two stretches of the log it keeps the
      first stretch's warnings, then the second's. */
  lemma {:induction false} KeepWarningsAppend(a: seq<string>, b: seq<string>)
    ensures KeepWarnings(a + b) == KeepWarnings(a) + KeepWarnings(b)
    decreases |a|
  {
    if a != [] {
      var ab := a + b;
      assert ab[0] == a[0] && ab[1..] == a[1..] + b;
      KeepWarningsAppend(a[1..], b);
      var x, y := KeepWarnings(a[1..]), KeepWarnings(b);
      if Excluded(a[0]) {
        assert KeepWarnings(ab) == KeepWarnings(ab[1..]) == x + y;
        assert KeepWarnings(a) == x;
      } else {
        assert KeepWarnings(ab) == [a[0]] + (x + y);
        assert KeepWarnings(a) == [a[0]] + x;
        ConsAppend(a[0], x, y);
      }
    } else {
      assert a + b == b;
    }
  }

  /** The texts of the diagnostics for `marker`, in the order of the log. */
  function Found(log: string, marker: string): (r: seq<string>)
    ensures |r| == |Matches(log, marker, 0)|
    ensures forall k :: 0 <= k < |r| ==> WellFormed(r[k], marker)
    ensures !Contains(log, marker) ==> r == []
  {
    var ms := Matches(log, marker, 0);
    MatchesAreMatches(log, marker, 0);
    TextsWellFormed(log, marker, ms);
    Texts(log, ms)
  }

  datatype Diagnostics = Diagnostics(errors: seq<string>, warnings: seq<string>)

  /** `extract_errors_from_log` on the text of the log. */
  function ExtractDiagnostics(log: string): (r: Diagnostics)
    ensures forall k :: 0 <= k < |r.errors| ==> WellFormed(r.errors[k], ErrorMarker)
    ensures forall k :: 0 <= k < |r.warnings| ==>
              WellFormed(r.warnings[k], WarningMarker) && !Excluded(r.warnings[k])
    ensures !Contains(log, ErrorMarker) ==> r.errors == []
    ensures !Contains(log, WarningMarker) ==> r.warnings == []
    ensures IsSubsequence(r.warnings, Found(log, WarningMarker))
    ensures forall w :: w in Found(log, WarningMarker) && !Excluded(w) ==> w in r.warnings
    ensures forall w :: multiset(r.warnings)[w] ==
              if Excluded(w) then 0 else multiset(Found(log, WarningMarker))[w]
  {
    var ws := Found(log, WarningMarker);
    var kept := KeepWarnings(ws);
    assert forall k :: 0 <= k < |kept| ==> kept[k] in ws && !Excluded(kept[k]);
    assert forall k :: 0 <= k < |kept| ==> WellFormed(kept[k], WarningMarker);
    Diagnostics(Found(log, ErrorMarker), kept)
  }

  /** A log with an error marker followed by a blank line yields at least one error. */
  lemma {:induction false} MarkerWithBlankLineIsReported(log: string, i: nat, q: nat)
    requires At(log, i, ErrorMarker)
    requires i + |ErrorMarker| <= q && BlankLineAt(log, q)
    ensures ExtractDiagnostics(log).errors != []
  {
    var ms := Matches(log, ErrorMarker, 0);
    if ms == [] {
      MatchesComplete(log, ErrorMarker, 0, i);
    }
  }
}
