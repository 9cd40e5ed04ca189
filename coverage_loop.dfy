/** The driver of the coverage-closure prototype: reading the simulator's total coverage,
    pulling the test out of the model's reply, and the bounded loop that parses the gaps,
    asks for a test, simulates it and stops once the target is met. The simulator, the
    file system and the language model are parameters of the loop. */
module CoverageLoop {
  import opened Text
  import opened CoveragePipeline

  // ---------------------------------------------------------------------------
  // `compute_total_coverage`
  // ---------------------------------------------------------------------------

  function Pow10(n: nat): (r: nat)
    ensures r >= 1
  {
    if n == 0 then 1 else 10 * Pow10(n - 1)
  }

  /** A numeral of `n` digits is below `10^n`. */
  lemma {:induction false} DigitsBelow(s: string)
    requires AllDigits(s)
    ensures DigitsValue(s) < Pow10(|s|)
  {
    if s != [] {
      var init := s[..|s| - 1];
      DigitsBelow(init);
      assert DigitsValue(s) <= DigitsValue(init) * 10 + 9;
    }
  }

  /** The value of the digits after the point. */
  function Fraction(frac: string): (r: real)
    requires AllDigits(frac)
    ensures 0.0 <= r < 1.0
  {
    DigitsBelow(frac);
    var num := DigitsValue(frac) as real;
    var den := Pow10(|frac|) as real;
    RatioBelowOne(num, den);
    num / den
  }

  lemma RatioBelowOne(x: real, y: real)
    requires 0.0 <= x < y
    ensures 0.0 <= x / y < 1.0
  {
  }

  /** The value of the decimal numeral `whole.frac`, with no rounding. */
  function DecimalValue(whole: string, frac: string): (r: real)
    requires AllDigits(whole) && AllDigits(frac)
    ensures DigitsValue(whole) as real <= r < DigitsValue(whole) as real + 1.0
  {
    DigitsValue(whole) as real + Fraction(frac)
  }

  const TotalKey: string := "TOTAL"

  const CoverageKey: string := "coverage:"

  /** The numeral `(\d+\.\d+)%` at the start of `x`. */
  function PercentHere(x: string): (r: Option<real>)
    ensures r.Some? ==> r.value >= 0.0
  {
    var m := DigitLen(x);
    if m == 0 || !At(x, m, ".") then None
    else
      var y := x[m + 1..];
      var n := DigitLen(y);
      if n == 0 || !At(y, n, "%") then None
      else Some(DecimalValue(x[..m], y[..n]))
  }

  /** `TOTAL\s+coverage:\s+(\d+\.\d+)%` at the start of `t`, and the number it captures.
      Each greedy run is followed by a character it cannot hold, so no backtracking can
      give another match. */
  function TotalHere(t: string): (r: Option<real>)
    ensures r.Some? ==> At(t, 0, TotalKey) && r.value >= 0.0
  {
    if !At(t, 0, TotalKey) then None
    else
      var u := t[|TotalKey|..];
      var a := SpaceLen(u);
      var v := u[a..];
      if a == 0 || !At(v, 0, CoverageKey) then None
      else
        var w := v[|CoverageKey|..];
        var b := SpaceLen(w);
        if b == 0 then None else PercentHere(w[b..])
  }

  /** `compute_total_coverage`: the number of the leftmost total line of the summary,
      or 0 when the summary is missing or holds none. */
  function TotalCoverage(summary: Option<string>): (r: real)
    ensures r >= 0.0
  {
    match summary
    case None => 0.0
    case Some(s) => TotalFrom(s, 0)
  }

  /** `re.search` from `i`: the number on the first total line starting at `i` or later,
      or 0 when none does. */
  function TotalFrom(s: string, i: nat): (r: real)
    ensures r >= 0.0
    decreases |s| + 1 - i
  {
    if |s| < i then 0.0
    else match TotalHere(s[i..])
      case Some(v) => v
      case None => TotalFrom(s, i + 1)
  }

  /** The summary line a simulator writes for a total of `whole.frac` percent. */
  function TotalLine(whole: nat, frac: string): string {
    TotalKey + (" " + (CoverageKey + (" " + (NatToString(whole) + ("." + (frac + "%"))))))
  }

  lemma PercentReads(whole: nat, frac: string)
    requires frac != [] && AllDigits(frac)
    ensures PercentHere(NatToString(whole) + ("." + (frac + "%")))
      == Some(DecimalValue(NatToString(whole), frac))
  {
    var a := NatToString(whole);
    var x := a + ("." + (frac + "%"));
    NumeralReads(a, "." + (frac + "%"));
    AtSeam(a, ".", frac + "%");
    var y := x[|a| + 1..];
    assert y == frac + "%";
    NumeralReads(frac, "%");
    AtSeam(frac, "%", []);
    assert frac + ("%" + []) == y;
  }

  /** The keys and the spaces after them lead to the numeral. */
  lemma KeysRead(x: string)
    requires x != [] && !IsSpace(x[0])
    ensures TotalHere(TotalKey + (" " + (CoverageKey + (" " + x)))) == PercentHere(x)
  {
    var t := TotalKey + (" " + (CoverageKey + (" " + x)));
    var u := t[|TotalKey|..];
    assert u == " " + (CoverageKey + (" " + x));
    OneSpace(' ', CoverageKey + (" " + x));
    var v := u[1..];
    assert At(v, 0, CoverageKey);
    assert v[|CoverageKey|..] == " " + x;
    OneSpace(' ', x);
  }

  /** A total line reads back as the number it shows. */
  lemma TotalReads(whole: nat, frac: string)
    requires frac != [] && AllDigits(frac)
    ensures TotalCoverage(Some(TotalLine(whole, frac))) == whole as real + Fraction(frac)
  {
    var x := NatToString(whole) + ("." + (frac + "%"));
    assert TotalHere(TotalLine(whole, frac)) == PercentHere(x) by {
      assert x[0] == NatToString(whole)[0];
      KeysRead(x);
    }
    PercentReads(whole, frac);
    TotalAtStart(TotalLine(whole, frac));
    DigitsValueOfNatToString(whole);
  }

  /** A total line at the very start of the summary is the one read. */
  lemma TotalAtStart(t: string)
    requires TotalHere(t).Some?
    ensures TotalCoverage(Some(t)) == TotalHere(t).value
  {
    assert t[0..] == t;
  }

  /** A total line starts at `i`. */
  predicate TotalAt(s: string, i: nat) {
    i <= |s| && TotalHere(s[i..]).Some?
  }

  /** The total line at `i`, with none before it, is the one read: the regex's leftmost
      match. */
  lemma TotalLeftmost(s: string, i: nat)
    requires TotalAt(s, i)
    requires forall k: nat :: k < i ==> !TotalAt(s, k)
    ensures TotalCoverage(Some(s)) == TotalHere(s[i..]).value
  {
    TotalFromSkips(s, 0, i);
  }

  lemma {:induction false} TotalFromSkips(s: string, j: nat, i: nat)
    requires j <= i && TotalAt(s, i)
    requires forall k: nat :: j <= k < i ==> !TotalAt(s, k)
    ensures TotalFrom(s, j) == TotalHere(s[i..]).value
    decreases i - j
  {
    if j < i {
      assert !TotalAt(s, j);
      TotalFromSkips(s, j + 1, i);
    }
  }

  /** A summary where the pattern matches nowhere counts as no coverage, and so does a
      missing one. */
  lemma NoMatchIsZero(s: string)
    requires forall k: nat :: k <= |s| ==> TotalHere(s[k..]).None?
    ensures TotalCoverage(Some(s)) == 0.0
    ensures TotalCoverage(None) == 0.0
  {
    TotalFromNone(s, 0);
  }

  lemma {:induction false} TotalFromNone(s: string, j: nat)
    requires forall k: nat :: j <= k <= |s| ==> TotalHere(s[k..]).None?
    ensures TotalFrom(s, j) == 0.0
    decreases |s| + 1 - j
  {
    if j <= |s| {
      assert TotalHere(s[j..]).None?;
      TotalFromNone(s, j + 1);
    }
  }

  /** A summary without the word `TOTAL` counts as no coverage. */
  lemma NoTotalIsZero(s: string)
    requires !Contains(s, TotalKey)
    ensures TotalCoverage(Some(s)) == 0.0
  {
    forall k: nat | k <= |s|
      ensures TotalHere(s[k..]).None?
    {
      if TotalHere(s[k..]).Some? {
        ContainsInSuffix(s, k, TotalKey);
      }
    }
    NoMatchIsZero(s);
  }

  // ---------------------------------------------------------------------------
  // The test in the model's reply: ```systemverilog(.*?)```
  // ---------------------------------------------------------------------------

  const CodeFence: string := "```"

  const SvOpen: string := "```systemverilog"

  /** The body of the first block opened by ```` ```systemverilog ```` and closed by the next
      fence. A later opening cannot succeed where the first failed, since any fence after
      it also follows the first. */
  function SvBlock(reply: string): (r: Option<string>)
    ensures r.Some? ==> !Contains(r.value, CodeFence)
  {
    match FindFrom(reply, SvOpen, 0)
    case None => None
    case Some(i) =>
      match FindFrom(reply, CodeFence, i + |SvOpen|)
      case None => None
      case Some(j) =>
        FindFromSliceFree(reply, CodeFence, i + |SvOpen|, j);
        Some(reply[i + |SvOpen|..j])
  }

  /** There is a block exactly when an opening is followed somewhere by a fence. */
  lemma SvBlockExistsIff(reply: string)
    ensures SvBlock(reply).Some? <==>
      exists i: nat, j: nat :: i + |SvOpen| <= j && At(reply, i, SvOpen) && At(reply, j, CodeFence)
  {
    match FindFrom(reply, SvOpen, 0)
    case None =>
    case Some(i) =>
      match FindFrom(reply, CodeFence, i + |SvOpen|)
      case None =>
      case Some(j) =>
  }

  /** A reply with one block, and no backquote before its end, gives back that block's body. */
  lemma SvBlockReads(before: string, body: string, after: string)
    requires forall k :: 0 <= k < |before| ==> before[k] != '`'
    requires forall k :: 0 <= k < |body| ==> body[k] != '`'
    ensures SvBlock(before + SvOpen + body + CodeFence + after) == Some(body)
  {
    FindsBetween(before, SvOpen, body, CodeFence, after);
    SvBlockAt(before + SvOpen + body + CodeFence + after, |before|, |before| + |SvOpen| + |body|);
  }

  lemma SvBlockAt(s: string, i: nat, j: nat)
    requires FindFrom(s, SvOpen, 0) == Some(i) && FindFrom(s, CodeFence, i + |SvOpen|) == Some(j)
    ensures SvBlock(s) == Some(s[i + |SvOpen|..j])
  {
  }

  // ---------------------------------------------------------------------------
  // The closure loop of `main`
  // ---------------------------------------------------------------------------

  /** What the loop sees of the world, round by round: the report parsed at the start
      of an iteration (after the previous test, if any, was simulated), the summary read
      after the new test was simulated, the lines of each source file, and the model's
      reply to a prompt. */
  datatype World = World(
    report: (nat, Option<string>) -> Option<string>,
    summary: (nat, string) -> Option<string>,
    files: string -> Option<seq<string>>,
    reply: (nat, string) -> string)

  /** Why the loop ended. The last two are the exceptions the Python code lets escape:
      a missing report, and a source file that cannot be opened. */
  datatype Stop = NoItems | NoCodeBlock | TargetReached | MaxIterations | ReportMissing | SourceMissing

  /** One completed iteration: the gaps parsed, those put in the prompt, the test written
      to `gen_test_<iteration>.sv`, and the coverage read afterwards. */
  datatype Round = Round(iteration: nat, items: seq<CoverageItem>, focus: seq<CoverageItem>,
                         test: string, coverage: real)

  datatype Outcome = Outcome(stop: Stop, rounds: seq<Round>)

  datatype Step = Halt(stop: Stop, last: seq<Round>) | Next(round: Round)

  const MaxLinesEach: int := 20

  const FocusCount: nat := 3

  /** `cov_items[:3]`. */
  function Focus(items: seq<CoverageItem>): seq<CoverageItem> {
    if |items| <= FocusCount then items else items[..FocusCount]
  }

  /** One iteration of the loop body, from parsing the report to comparing the coverage
      with the target. */
  function Iteration(w: World, target: real, it: nat, prev: Option<string>): Step {
    match ReportItems(w.report(it, prev))
    case None => Halt(ReportMissing, [])
    case Some(items) => if items == [] then Halt(NoItems, []) else Ask(w, target, it, items)
  }

  /** The prompt for the first gaps, and the model's reply to it. */
  function Ask(w: World, target: real, it: nat, items: seq<CoverageItem>): Step {
    var focus := Focus(items);
    match PromptFor(PromptTemplate, focus, w.files, MaxLinesEach)
    case None => Halt(SourceMissing, [])
    case Some(prompt) =>
      match SvBlock(w.reply(it, prompt))
      case None => Halt(NoCodeBlock, [])
      case Some(code) => Simulate(w, target, it, items, focus, code)
  }

  /** The test written and simulated, and its coverage compared with the target. */
  function Simulate(w: World, target: real, it: nat, items: seq<CoverageItem>, focus: seq<CoverageItem>,
                    code: string): Step {
    var test := Strip(code);
    var total := TotalCoverage(w.summary(it, test));
    var r := Round(it, items, focus, test, total);
    if total >= target then Halt(TargetReached, [r]) else Next(r)
  }

  /** The iterations from `it` on, after the rounds `done`, each one given by `step`
      from its number and the previous test. */
  function RunFrom(step: (nat, Option<string>) -> Step, maxIterations: int, it: nat,
                   prev: Option<string>, done: seq<Round>): Outcome
    decreases if it <= maxIterations then maxIterations - it + 1 else 0
  {
    if it > maxIterations then Outcome(MaxIterations, done)
    else
      match step(it, prev)
      case Halt(stop, last) => Outcome(stop, done + last)
      case Next(r) => RunFrom(step, maxIterations, it + 1, Some(r.test), done + [r])
  }

  function StepsOf(w: World, target: real): (nat, Option<string>) -> Step {
    (it: nat, prev: Option<string>) => Iteration(w, target, it, prev)
  }

  /** `for it in range(1, max_iterations + 1)`, with its `break`s and its `else`. */
  function Run(w: World, maxIterations: int, target: real): Outcome {
    RunFrom(StepsOf(w, target), maxIterations, 1, None, [])
  }

  /** The driver loop of `main`. */
  method CoverageClosure(w: World, maxIterations: int, target: real) returns (outcome: Outcome)
    ensures outcome == Run(w, maxIterations, target)
  {
    var rounds: seq<Round> := [];
    var prev: Option<string> := None;
    var it: nat := 1;
    while it <= maxIterations
      invariant RunFrom(StepsOf(w, target), maxIterations, it, prev, rounds) == Run(w, maxIterations, target)
      decreases maxIterations - it
    {
      var items := ParseVcsCoverage(w.report(it, prev));
      if items.None? {
        return Outcome(ReportMissing, rounds);
      }
      if items.value == [] {
        return Outcome(NoItems, rounds);
      }
      var focus := Focus(items.value);
      var prompt := BuildPrompt(PromptTemplate, focus, w.files, MaxLinesEach);
      if prompt.None? {
        return Outcome(SourceMissing, rounds);
      }
      var code := SvBlock(w.reply(it, prompt.value));
      if code.None? {
        return Outcome(NoCodeBlock, rounds);
      }
      var test := Strip(code.value);
      var total := TotalCoverage(w.summary(it, test));
      var r := Round(it, items.value, focus, test, total);
      if total >= target {
        return Outcome(TargetReached, rounds + [r]);
      }
      rounds := rounds + [r];
      prev := Some(test);
      it := it + 1;
    }
    return Outcome(MaxIterations, rounds);
  }

  /** What every completed round satisfies: one to three gaps, the first ones the report
      lists, in the prompt, and a test holding no fence. */
  predicate WellFormed(r: Round) {
    1 <= |r.focus| <= FocusCount && |r.focus| <= |r.items| && r.focus == r.items[..|r.focus|]
    && (|r.items| <= FocusCount ==> r.focus == r.items)
    && !Contains(r.test, CodeFence) && r.coverage >= 0.0
  }

  /** What an iteration ends with: at most one new round, numbered by the iteration and
      well formed, which stops the loop exactly when it reaches the target. */
  predicate StepFacts(st: Step, it: nat, target: real) {
    (st.Next? ==> WellFormed(st.round) && st.round.iteration == it && st.round.coverage < target)
    && (st.Halt? ==>
          st.stop != MaxIterations && |st.last| <= 1 && (st.stop == TargetReached <==> st.last != [])
          && (st.last != [] ==> WellFormed(st.last[0]) && st.last[0].iteration == it
                                && st.last[0].coverage >= target))
  }

  lemma SimulateFacts(w: World, target: real, it: nat, items: seq<CoverageItem>, focus: seq<CoverageItem>,
                      code: string)
    requires 1 <= |focus| <= FocusCount && |focus| <= |items| && focus == items[..|focus|]
    requires |items| <= FocusCount ==> focus == items
    requires !Contains(code, CodeFence)
    ensures StepFacts(Simulate(w, target, it, items, focus, code), it, target)
  {
    StripAddsNothing(code, CodeFence);
  }

  lemma AskFacts(w: World, target: real, it: nat, items: seq<CoverageItem>)
    requires items != []
    ensures StepFacts(Ask(w, target, it, items), it, target)
  {
    var focus := Focus(items);
    assert focus == items[..|focus|];
    match PromptFor(PromptTemplate, focus, w.files, MaxLinesEach)
    case None =>
    case Some(prompt) =>
      match SvBlock(w.reply(it, prompt))
      case None =>
      case Some(code) =>
        SimulateFacts(w, target, it, items, focus, code);
  }

  lemma IterationFacts(w: World, target: real, it: nat, prev: Option<string>)
    ensures StepFacts(Iteration(w, target, it, prev), it, target)
  {
    match ReportItems(w.report(it, prev))
    case None =>
    case Some(items) =>
      if items != [] {
        AskFacts(w, target, it, items);
      }
  }

  /** Rounds numbered from 1, each well formed, all but the last below the target. */
  predicate Numbered(rounds: seq<Round>, target: real) {
    forall k :: 0 <= k < |rounds| ==>
      rounds[k].iteration == k + 1 && WellFormed(rounds[k])
      && (k < |rounds| - 1 ==> rounds[k].coverage < target)
  }

  /** An outcome whose rounds are numbered and well formed, at most `bound` of them,
      that stops for the target exactly when its last round reached it, and runs out of
      iterations only after `bound` rounds. */
  predicate Settled(o: Outcome, target: real, bound: int) {
    Numbered(o.rounds, target)
    && |o.rounds| <= bound
    && (o.stop == TargetReached <==> o.rounds != [] && o.rounds[|o.rounds| - 1].coverage >= target)
    && (o.stop == MaxIterations ==> |o.rounds| == bound)
  }

  function Max(a: int, b: int): int {
    if a < b then b else a
  }

  /** The loop from iteration `it` keeps the rounds already done and adds at most one per
      remaining iteration, whatever its steps, as long as each step ends as an iteration
      does. */
  lemma {:induction false} RunFromFacts(step: (nat, Option<string>) -> Step, maxIterations: int,
                                        target: real, it: nat, prev: Option<string>, done: seq<Round>)
    requires forall i: nat, p: Option<string> :: StepFacts(step(i, p), i, target)
    requires |done| == it - 1 && 1 <= it
    requires Numbered(done, target)
    requires forall k :: 0 <= k < |done| ==> done[k].coverage < target
    ensures done <= RunFrom(step, maxIterations, it, prev, done).rounds
    ensures Settled(RunFrom(step, maxIterations, it, prev, done), target, Max(|done|, maxIterations))
    decreases if it <= maxIterations then maxIterations - it + 1 else 0
  {
    if it <= maxIterations {
      assert StepFacts(step(it, prev), it, target);
      match step(it, prev)
      case Halt(stop, last) =>
      case Next(r) =>
        RunFromFacts(step, maxIterations, target, it + 1, Some(r.test), done + [r]);
    }
  }

  /** The loop runs at most `max_iterations` rounds, numbered from 1; each prompt holds one
      to three gaps, the first the report lists; it stops for the target exactly when the
      last round reached it, and reports running out of iterations only after running all
      of them. */
  lemma RunFacts(w: World, maxIterations: int, target: real)
    ensures Settled(Run(w, maxIterations, target), target, Max(0, maxIterations))
  {
    forall i: nat, p: Option<string> ensures StepFacts(StepsOf(w, target)(i, p), i, target) {
      IterationFacts(w, target, i, p);
    }
    RunFromFacts(StepsOf(w, target), maxIterations, target, 1, None, []);
  }

  /** In a settled outcome every round but one that met the target stayed below it. */
  lemma BelowTargetUnlessReached(o: Outcome, target: real, bound: int, k: nat)
    requires Settled(o, target, bound) && k < |o.rounds|
    requires o.stop != TargetReached || k < |o.rounds| - 1
    ensures o.rounds[k].coverage < target
  {
  }

  /** A target of zero or less is met by the first test that reaches the simulator. */
  lemma TrivialTargetOneRound(o: Outcome, target: real, bound: int)
    requires Settled(o, target, bound) && target <= 0.0
    ensures |o.rounds| <= 1
  {
    assert |o.rounds| > 1 ==> o.rounds[0].coverage < target;
  }
}
