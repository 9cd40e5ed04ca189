/** The coverage-report scanner `extract_info_from_file` (auto_create_response.py:83-123).

    The report arrives as its lines (reading the file is not modelled). A pass over the
    lines keeps three pieces of state: the transition percent, read once from the first
    `Transitions` line whose last token parses; a flag that is on inside the
    `State, Transition and Sequence Details` section; and the list of transition lines
    seen while the flag is on. Python's `float` is the parameter `parse`. */
module CoverageReport {
  import opened Text

  const PercentKeyword := "Transitions"
  const SectionStart := "State, Transition and Sequence Details"
  const SectionEnd := "Branch Coverage for Module"
  const Arrow := "->"

  /** The state carried from line to line. */
  datatype ScanState = ScanState(percent: Option<real>, capture: bool, entries: seq<string>)

  const Initial := ScanState(None, false, [])

  /** A line on which the percent is still unset gets a reading attempt. */
  predicate Attempts(percent: Option<real>, line: string) {
    Contains(line, PercentKeyword) && percent.None? && Split(line) != []
  }

  /** The reading: the last token, with `%` stripped from both ends, parsed. */
  function Reading(line: string, parse: string -> Option<real>): Option<real>
    requires Split(line) != []
  {
    parse(StripChar(Split(line)[|Split(line)| - 1], '%'))
  }

  /** A failed reading abandons the rest of the line (the `continue`). */
  predicate Abandons(percent: Option<real>, line: string, parse: string -> Option<real>) {
    Attempts(percent, line) && Reading(line, parse).None?
  }

  /** The text emitted for a transition line: its first token, a space, and the list of
      its tokens from the third on, as Python prints a list. */
  function Entry(parts: seq<string>): string
    requires |parts| >= 3
  {
    parts[0] + " " + Render(parts[2..])
  }

  /** A line that yields an entry when the flag is on. */
  predicate IsTransitionLine(line: string) {
    Contains(line, Arrow) && |Split(line)| >= 3
  }

  /** The flag after a line: the opening marker is checked first. */
  function NextCapture(capture: bool, line: string): bool {
    if Contains(line, SectionStart) then true
    else if Contains(line, SectionEnd) then false
    else capture
  }

  /** The entries after a line, given the flag after it. */
  function NextEntries(entries: seq<string>, capture: bool, line: string): seq<string> {
    if capture && IsTransitionLine(line) then entries + [Entry(Split(line))] else entries
  }

  /** The body of the loop, on one line. */
  function Step(st: ScanState, line: string, parse: string -> Option<real>): (r: ScanState)
    ensures r.percent.Some? ==> st.percent.None? || r.percent == st.percent
    ensures st.percent.Some? ==> r.percent == st.percent
    ensures r.entries == st.entries
            || (IsTransitionLine(line) && r.entries == st.entries + [Entry(Split(line))])
  {
    if Abandons(st.percent, line, parse) then st
    else
      var percent := if Attempts(st.percent, line) then Reading(line, parse) else st.percent;
      var capture := NextCapture(st.capture, line);
      ScanState(percent, capture, NextEntries(st.entries, capture, line))
  }

  /** The state after the whole of `lines`. */
  function ScanLines(lines: seq<string>, parse: string -> Option<real>): ScanState
  {
    if lines == [] then Initial
    else Step(ScanLines(lines[..|lines| - 1], parse), lines[|lines| - 1], parse)
  }

  lemma ScanLinesNext(lines: seq<string>, i: nat, parse: string -> Option<real>)
    requires i < |lines|
    ensures ScanLines(lines[..i + 1], parse) == Step(ScanLines(lines[..i], parse), lines[i], parse)
  {
    assert lines[..i + 1][..i] == lines[..i];
  }

  /** `extract_info_from_file` on the lines of the report. */
  method ExtractInfo(lines: seq<string>, parse: string -> Option<real>)
    returns (percent: Option<real>, entries: seq<string>)
    ensures percent == ScanLines(lines, parse).percent
    ensures entries == ScanLines(lines, parse).entries
    ensures percent == FirstPercent(lines, parse)
    ensures entries == EmittedUpTo(lines, |lines|, parse)
  {
    percent := None;
    entries := [];
    var capture := false;
    for i := 0 to |lines|
      invariant ScanState(percent, capture, entries) == ScanLines(lines[..i], parse)
    {
      var line := lines[i];
      ghost var st := ScanState(percent, capture, entries);
      ScanLinesNext(lines, i, parse);
      if Contains(line, PercentKeyword) && percent.None? {
        var parts := Split(line);
        if parts != [] {
          var reading := Reading(line, parse);
          if reading.None? {
            assert Abandons(st.percent, line, parse);
            continue;
          }
          percent := reading;
        }
      }
      assert !Abandons(st.percent, line, parse);
      assert percent == if Attempts(st.percent, line) then Reading(line, parse) else st.percent;
      if Contains(line, SectionStart) {
        capture := true;
      } else if Contains(line, SectionEnd) {
        capture := false;
      }
      assert capture == NextCapture(st.capture, line);
      if capture && Contains(line, Arrow) {
        var parts := Split(line);
        if |parts| >= 3 {
          entries := entries + [Entry(parts)];
        }
      }
    }
    assert lines[..|lines|] == lines;
    PercentIsFirstReading(lines, parse);
    EntriesAreEmitted(lines, parse);
  }

  // ---------------------------------------------------------------------------
  // The percent: the first reading that parses, never overwritten
  // ---------------------------------------------------------------------------

  /** A line whose reading parses. */
  predicate Readable(line: string, parse: string -> Option<real>) {
    Contains(line, PercentKeyword) && Split(line) != [] && Reading(line, parse).Some?
  }

  /** The test "line `k` is readable". */
  function ReadableTest(lines: seq<string>, parse: string -> Option<real>): nat -> bool {
    (k: nat) => k < |lines| && Readable(lines[k], parse)
  }

  /** The index of the first readable line. */
  function FirstReadable(lines: seq<string>, parse: string -> Option<real>): (r: Option<nat>)
    ensures r.Some? ==> r.value < |lines| && Readable(lines[r.value], parse)
  {
    var r := FirstIndex(ReadableTest(lines, parse), 0, |lines|);
    if r.Some? then
      assert ReadableTest(lines, parse)(r.value);
      r
    else r
  }

  /** No line before the first readable one, nor any line when there is none, is
      readable. */
  lemma FirstReadableLeast(lines: seq<string>, parse: string -> Option<real>, k: nat)
    requires k < |lines|
    requires FirstReadable(lines, parse).None? || k < FirstReadable(lines, parse).value
    ensures !Readable(lines[k], parse)
  {
    FirstIndexLeast(ReadableTest(lines, parse), 0, |lines|, k);
  }

  /** The percent a report yields, by the reference definition. */
  function FirstPercent(lines: seq<string>, parse: string -> Option<real>): Option<real> {
    match FirstReadable(lines, parse)
    case None => None
    case Some(k) => Reading(lines[k], parse)
  }

  lemma FirstReadableAppend(lines: seq<string>, line: string, parse: string -> Option<real>)
    ensures FirstPercent(lines + [line], parse) ==
              if FirstPercent(lines, parse).Some? then FirstPercent(lines, parse)
              else if Readable(line, parse) then Reading(line, parse)
              else None
  {
    var all := lines + [line];
    var f := FirstReadable(lines, parse);
    var g := FirstReadable(all, parse);
    if g.Some? && g.value < |lines| {
      assert all[g.value] == lines[g.value];
      if f.None? || g.value < f.value {
        FirstReadableLeast(lines, parse, g.value);
      }
    }
    if f.Some? {
      assert all[f.value] == lines[f.value];
      if g.None? || f.value < g.value {
        FirstReadableLeast(all, parse, f.value);
      }
      assert g == f;
    } else {
      assert all[|lines|] == line;
      if Readable(line, parse) && (g.None? || |lines| < g.value) {
        FirstReadableLeast(all, parse, |lines|);
      }
    }
  }

  /** The percent after one more line. */
  lemma StepPercent(st: ScanState, line: string, parse: string -> Option<real>)
    ensures Step(st, line, parse).percent ==
              if st.percent.Some? then st.percent
              else if Readable(line, parse) then Reading(line, parse)
              else None
  {
  }

  /** The scanner's percent is the reading of the first readable line: later
      `Transitions` lines never overwrite it, and one whose reading fails is passed over. */
  lemma {:induction false} PercentIsFirstReading(lines: seq<string>, parse: string -> Option<real>)
    ensures ScanLines(lines, parse).percent == FirstPercent(lines, parse)
    decreases |lines|
  {
    if lines != [] {
      var init := lines[..|lines| - 1];
      var last := lines[|lines| - 1];
      assert init + [last] == lines;
      var st := ScanLines(init, parse);
      assert ScanLines(lines, parse) == Step(st, last, parse);
      PercentIsFirstReading(init, parse);
      FirstReadableAppend(init, last, parse);
      StepPercent(st, last, parse);
    }
  }

  // ---------------------------------------------------------------------------
  // The entries
  // ---------------------------------------------------------------------------

  /** Every transition line of the report, as an entry, in order. */
  function Candidates(lines: seq<string>): (r: seq<string>)
  {
    if lines == [] then []
    else
      var rest := Candidates(lines[..|lines| - 1]);
      var last := lines[|lines| - 1];
      if IsTransitionLine(last) then rest + [Entry(Split(last))] else rest
  }

  /** The entries are transition lines of the report, in report order: some
      transition lines are left out (those outside the section), none is made up. */
  lemma {:induction false} EntriesAreCandidates(lines: seq<string>, parse: string -> Option<real>)
    ensures IsSubsequence(ScanLines(lines, parse).entries, Candidates(lines))
    decreases |lines|
  {
    if lines == [] {
    } else {
      var init := lines[..|lines| - 1];
      var last := lines[|lines| - 1];
      EntriesAreCandidates(init, parse);
      var before := ScanLines(init, parse).entries;
      var after := ScanLines(lines, parse).entries;
      if IsTransitionLine(last) {
        if after == before {
          SubsequenceExtend(before, Candidates(init), Entry(Split(last)));
        } else {
          SubsequenceAppend(before, Candidates(init), Entry(Split(last)));
        }
      } else {
        assert after == before;
      }
    }
  }

  /** While no line has opened the section, nothing is emitted. */
  lemma {:induction false} NoSectionNoEntries(lines: seq<string>, parse: string -> Option<real>)
    requires forall k :: 0 <= k < |lines| ==> !Contains(lines[k], SectionStart)
    ensures !ScanLines(lines, parse).capture
    ensures ScanLines(lines, parse).entries == []
    decreases |lines|
  {
    if lines != [] {
      NoSectionNoEntries(lines[..|lines| - 1], parse);
    }
  }

  /** A transition line is emitted when the section is open at it (or it opens the
      section itself) and its percent reading, if any, does not fail. */
  lemma LineInSectionEmits(st: ScanState, line: string, parse: string -> Option<real>)
    requires IsTransitionLine(line) && !Abandons(st.percent, line, parse)
    requires Contains(line, SectionStart) || (st.capture && !Contains(line, SectionEnd))
    ensures Step(st, line, parse).entries == st.entries + [Entry(Split(line))]
    ensures Step(st, line, parse).capture
  {
  }

  /** A line that closes the section emits nothing, even when it holds an arrow,
      unless it also opens the section (the opening marker is checked first). */
  lemma SectionEndEmitsNothing(st: ScanState, line: string, parse: string -> Option<real>)
    requires Contains(line, SectionEnd) && !Contains(line, SectionStart)
    ensures Step(st, line, parse).entries == st.entries
  {
  }


  /** Nothing is emitted on a line after which the section is closed. */
  lemma ClosedEmitsNothing(st: ScanState, line: string, parse: string -> Option<real>)
    requires !NextCapture(st.capture, line)
    ensures Step(st, line, parse).entries == st.entries
  {
  }

  /** A line whose reading fails is skipped whole: neither the flag nor the entries
      change. */
  lemma AbandonedLineSkipped(st: ScanState, line: string, parse: string -> Option<real>)
    requires Abandons(st.percent, line, parse)
    ensures Step(st, line, parse) == st
  {
  }

  // ---------------------------------------------------------------------------
  // The whole report, line by line
  // ---------------------------------------------------------------------------

  /** Line `k` is skipped whole: its reading is attempted, because no earlier line was
      readable, and fails. */
  predicate AbandonedAt(lines: seq<string>, k: nat, parse: string -> Option<real>)
    requires k < |lines|
  {
    Abandons(FirstPercent(lines[..k], parse), lines[k], parse)
  }

  /** Line `k` switches the flag on. */
  predicate SwitchesOn(lines: seq<string>, k: nat, parse: string -> Option<real>)
    requires k < |lines|
  {
    !AbandonedAt(lines, k, parse) && Contains(lines[k], SectionStart)
  }

  /** Line `k` switches the flag off. */
  predicate SwitchesOff(lines: seq<string>, k: nat, parse: string -> Option<real>)
    requires k < |lines|
  {
    !AbandonedAt(lines, k, parse) && Contains(lines[k], SectionEnd) && !Contains(lines[k], SectionStart)
  }

  /** After the first `n` lines the section is open: some line switched it on and no
      later one switched it off. */
  predicate OpenAfter(lines: seq<string>, n: nat, parse: string -> Option<real>)
    requires n <= |lines|
  {
    exists j :: 0 <= j < n && SwitchesOn(lines, j, parse)
                && forall m :: j < m < n ==> !SwitchesOff(lines, m, parse)
  }

  /** Line `k` is emitted: it is a transition line, it is not skipped, and the section
      is open after it. */
  predicate EmitsAt(lines: seq<string>, k: nat, parse: string -> Option<real>)
    requires k < |lines|
  {
    IsTransitionLine(lines[k]) && !AbandonedAt(lines, k, parse) && OpenAfter(lines, k + 1, parse)
  }

  /** The entries of the first `n` lines, by the reference definition: the emitted
      lines, in order. */
  function EmittedUpTo(lines: seq<string>, n: nat, parse: string -> Option<real>): seq<string>
    requires n <= |lines|
  {
    if n == 0 then []
    else
      EmittedUpTo(lines, n - 1, parse)
      + (if EmitsAt(lines, n - 1, parse) then [Entry(Split(lines[n - 1]))] else [])
  }

  /** How one more line moves the reference flag. */
  lemma OpenAfterNext(lines: seq<string>, n: nat, parse: string -> Option<real>)
    requires n < |lines|
    ensures OpenAfter(lines, n + 1, parse) ==
              if SwitchesOn(lines, n, parse) then true
              else if SwitchesOff(lines, n, parse) then false
              else OpenAfter(lines, n, parse)
  {
    if SwitchesOn(lines, n, parse) {
      assert 0 <= n < n + 1 && SwitchesOn(lines, n, parse);
    } else if SwitchesOff(lines, n, parse) {
      forall j | 0 <= j < n + 1 && SwitchesOn(lines, j, parse)
        ensures exists m :: j < m < n + 1 && SwitchesOff(lines, m, parse)
      {
        assert j != n;
      }
    } else {
      if OpenAfter(lines, n + 1, parse) {
        var j :| 0 <= j < n + 1 && SwitchesOn(lines, j, parse)
                 && forall m :: j < m < n + 1 ==> !SwitchesOff(lines, m, parse);
        assert j != n;
      }
      if OpenAfter(lines, n, parse) {
        var j :| 0 <= j < n && SwitchesOn(lines, j, parse)
                 && forall m :: j < m < n ==> !SwitchesOff(lines, m, parse);
        assert forall m :: j < m < n + 1 ==> !SwitchesOff(lines, m, parse);
      }
    }
  }

  /** After the first `n` lines the scanner's flag and entries are the reference ones. */
  lemma {:induction false} ScanIsReference(lines: seq<string>, n: nat, parse: string -> Option<real>)
    requires n <= |lines|
    ensures ScanLines(lines[..n], parse).capture == OpenAfter(lines, n, parse)
    ensures ScanLines(lines[..n], parse).entries == EmittedUpTo(lines, n, parse)
  {
    if n > 0 {
      var k := n - 1;
      ScanIsReference(lines, k, parse);
      ScanLinesNext(lines, k, parse);
      PercentIsFirstReading(lines[..k], parse);
      OpenAfterNext(lines, k, parse);
    }
  }

  /** The report's entries are exactly its emitted lines: a transition line is reported
      iff its reading does not fail and the section is open after it; nothing else is. */
  lemma EntriesAreEmitted(lines: seq<string>, parse: string -> Option<real>)
    ensures ScanLines(lines, parse).entries == EmittedUpTo(lines, |lines|, parse)
  {
    ScanIsReference(lines, |lines|, parse);
    assert lines[..|lines|] == lines;
  }

}
