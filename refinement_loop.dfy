/** The refinement controller `verilog_loop` (auto_create_response.py:160-277).

    Each pass appends the model's reply to the conversation, stops the run when the reply
    holds no module, and otherwise reads the compile log: errors or warnings send a
    corrective message and count a compile retry; a clean compile resets that count and
    reads the coverage report, which ends the run on reaching the target, ends it when
    coverage retries are spent, or sends the uncovered transitions and counts a coverage
    retry. Each pass that gets that far records a checkpoint keyed by the compile-retry
    count.

    The model's reply, the compile log and the coverage report of pass `n` are the
    inputs `rounds(n)`; Python's `float` is the parameter `parse`. */
module Refinement {
  import opened Text
  import opened Conversation
  import CompileLog
  import ModuleBlocks
  import CoverageReport

  /** Compile retries before the run is abandoned. */
  const CompileBudget := 5
  /** Coverage feedback rounds before the run is abandoned. */
  const CoverageBudget := 10
  /** The transition coverage, in percent, that ends the run. */
  const Target: real := 90.0

  /** The source's line continuations leave each line's indentation inside the prompt. */
  const Indent := "                    "

  // The message texts are written as sums of short literals, which keeps the verifier's
  // work on them small; the sums are the texts the source sends.
  const SystemPrompt :=
    "You are an expert in" + " design verification for" + " Verilog code." + Indent
    + " Given a Verilog RTL" + " module, you will write" + " a testbench to simulate"
    + " it and try to cover all" + " the possible state" + " transitions." + Indent
    + " Please follow the below" + " instruction while" + " providing any response:" + Indent
    + " 1. You will not add any" + " timescale command." + Indent
    + " 2. The testbench should" + " start with: module" + " tb();" + Indent
    + "  3. You will add" + " $fsdbDumpfile," + " $fsdbDumpvars commands"
    + " in the tesbench  at the" + " starting of first" + " intital block." + Indent
    + " 4. Please use " + " apply_input() format to" + " apply input sequences." + Indent
    + "5. You should pay" + " attention whether it" + " requires active or high"
    + "  reset from the RTL" + " code provided." + Indent + " 4. Also at the end of"
    + " test patterns add" + " $finish." + Indent + " "

  /** The five status labels a checkpoint ends with, and `NoStatus` for the pass that
      crashes before one is chosen. */
  datatype Status = CompileErrors | CompileWarnings | TargetAchieved | IterationsTimeout
                  | NotYetCovered | NoStatus

  function Label(s: Status): string {
    match s
    case CompileErrors => "Error compiling testbench"
    case CompileWarnings => "Warnings compiling testbench"
    case TargetAchieved => "Target Achieved"
    case IterationsTimeout => "Iterations Timeout"
    case NotYetCovered => "Transitions not yet fully covered"
    case NoStatus => []
  }

  const ErrorHead :=
    "The testbench failed to" + " compile. Please fix the" + " testbench code. The"
    + " output of VCS is as" + " follows:\n"
  const WarningHead :=
    "The testbench compiled" + " with warnings. Please" + " fix the testbench code."
    + " The output of VCS is as" + " follows:\n"
  const CoverageHead :=
    "The current testbench" + " doesn't cover all the" + " transitions. Please"
    + " write a testbench that" + " cover each transitions" + " possible using RTL code"
    + " provided as reference." + " Always improve the" + " testbench obtained in"
    + " previous iteration with" + " more additional" + " testcase, do not delete"
    + " any testcases from the" + " testbench. If required" + " reset to cover certain"
    + " transitions. This is" + " the RTL code:\n"
  const CoverageMiddle := "\n\n" + "This is the list of"
    + " transitions not covered" + " yet:\n"

  function ErrorFeedback(errors: seq<string>): string {
    ErrorHead + Render(errors)
  }

  function WarningFeedback(warnings: seq<string>): string {
    WarningHead + Render(warnings)
  }

  function CoverageFeedback(prompt: string, uncovered: seq<string>): string {
    CoverageHead + prompt + CoverageMiddle + Render(uncovered)
  }

  /** Each error is quoted in the message that reports it: the quoted text unescapes to
      the error itself (`UnescapeEscape`). */
  lemma ErrorFeedbackQuotes(errors: seq<string>, k: nat)
    requires k < |errors|
    ensures Contains(ErrorFeedback(errors), Quote(errors[k]))
  {
    RenderMentions(errors, k);
    ContainsWithin(ErrorHead, Render(errors), [], Quote(errors[k]));
    assert ErrorHead + Render(errors) + [] == ErrorFeedback(errors);
  }

  lemma WarningFeedbackQuotes(warnings: seq<string>, k: nat)
    requires k < |warnings|
    ensures Contains(WarningFeedback(warnings), Quote(warnings[k]))
  {
    RenderMentions(warnings, k);
    ContainsWithin(WarningHead, Render(warnings), [], Quote(warnings[k]));
    assert WarningHead + Render(warnings) + [] == WarningFeedback(warnings);
  }

  /** The coverage message restates the design and quotes every uncovered transition. */
  lemma CoverageFeedbackMentions(prompt: string, uncovered: seq<string>)
    ensures Contains(CoverageFeedback(prompt, uncovered), prompt)
    ensures forall k :: 0 <= k < |uncovered| ==>
              Contains(CoverageFeedback(prompt, uncovered), Quote(uncovered[k]))
  {
    ContainsItself(CoverageHead, prompt, CoverageMiddle + Render(uncovered));
    assert CoverageHead + prompt + (CoverageMiddle + Render(uncovered))
           == CoverageFeedback(prompt, uncovered);
    forall k | 0 <= k < |uncovered|
      ensures Contains(CoverageFeedback(prompt, uncovered), Quote(uncovered[k]))
    {
      RenderMentions(uncovered, k);
      ContainsWithin(CoverageHead + prompt + CoverageMiddle, Render(uncovered), [], Quote(uncovered[k]));
      assert CoverageHead + prompt + CoverageMiddle + Render(uncovered) + []
             == CoverageFeedback(prompt, uncovered);
    }
  }

  // ---------------------------------------------------------------------------
  // One pass
  // ---------------------------------------------------------------------------

  /** What the outside world supplies on one pass: the model's reply, the compile log
      and the lines of the coverage report. */
  datatype Round = Round(response: string, log: string, report: seq<string>)

  /** `Crashed` is the clean compile whose report yields no percent: the comparison
      `float(None) >= 90` raises and the run ends without a checkpoint.
      `NoCodeBlocks` is the exit when a reply holds no module. */
  datatype Phase = Running | Succeeded | TimedOut | NoCodeBlocks | Crashed

  /** What the evaluation of a pass decides. */
  datatype Verdict = Verdict(phase: Phase, feedback: Option<string>, iterations: nat,
                             fsm: nat, status: Status)

  predicate Clean(d: CompileLog.Diagnostics) {
    d.errors == [] && d.warnings == []
  }

  /** The evaluation of one pass, from the compile-retry count `iterations`, the
      coverage-retry count `fsm`, the diagnostics of the log and the reading of the report. */
  function Evaluate(iterations: nat, fsm: nat, d: CompileLog.Diagnostics,
                    report: CoverageReport.ScanState, prompt: string): (v: Verdict)
    // errors take precedence over warnings; either counts a compile retry
    ensures d.errors != [] ==> v.feedback == Some(ErrorFeedback(d.errors)) && v.status == CompileErrors
    ensures d.errors == [] && d.warnings != [] ==>
              v.feedback == Some(WarningFeedback(d.warnings)) && v.status == CompileWarnings
    ensures !Clean(d) ==> v.iterations == iterations + 1 && v.fsm == fsm
                          && (v.phase == TimedOut <==> iterations + 1 >= CompileBudget)
                          && (v.phase == Running <==> iterations + 1 < CompileBudget)
    // a clean compile resets the compile-retry count and never counts down coverage retries
    ensures Clean(d) ==> v.iterations == 0 && fsm <= v.fsm <= fsm + 1
    ensures Clean(d) && report.percent.None? ==> v.phase == Crashed
    ensures Clean(d) && report.percent.Some? ==>
              (v.phase == Succeeded <==> report.percent.value >= Target)
    ensures Clean(d) && report.percent.Some? && report.percent.value < Target ==>
              (v.phase == TimedOut <==> fsm >= CoverageBudget)
              && (v.phase == Running <==>
                    fsm < CoverageBudget && v.fsm == fsm + 1
                    && v.feedback == Some(CoverageFeedback(prompt, report.entries)))
    // a message is sent exactly when the run goes on or a compile failed
    ensures v.feedback.Some? <==> v.phase == Running || !Clean(d)
    ensures v.phase != Crashed ==>
              v.status != NoStatus && (v.status.CompileErrors? || v.status.CompileWarnings? <==> !Clean(d))
    ensures v.phase != NoCodeBlocks
  {
    if !Clean(d) then
      var it := iterations + 1;
      var phase := if it >= CompileBudget then TimedOut else Running;
      if d.errors != [] then Verdict(phase, Some(ErrorFeedback(d.errors)), it, fsm, CompileErrors)
      else Verdict(phase, Some(WarningFeedback(d.warnings)), it, fsm, CompileWarnings)
    else
      match report.percent
      case None => Verdict(Crashed, None, 0, fsm, NoStatus)
      case Some(p) =>
        if p >= Target then Verdict(Succeeded, None, 0, fsm, TargetAchieved)
        else if fsm >= CoverageBudget then Verdict(TimedOut, None, 0, fsm, IterationsTimeout)
        else Verdict(Running, Some(CoverageFeedback(prompt, report.entries)), 0, fsm + 1,
                     NotYetCovered)
  }

  /** The run goes on only with both counts within budget, and a pass that goes on makes
      progress: a coverage retry is counted, or a compile retry is and coverage retries
      are not. */
  lemma EvaluateProgress(iterations: nat, fsm: nat, d: CompileLog.Diagnostics,
                         report: CoverageReport.ScanState, prompt: string)
    requires fsm <= CoverageBudget
    ensures var v := Evaluate(iterations, fsm, d, report, prompt);
            v.phase == Running ==>
              v.iterations < CompileBudget && v.fsm <= CoverageBudget
              && (v.fsm > fsm || (v.fsm == fsm && v.iterations > iterations))
  {
  }

  // ---------------------------------------------------------------------------
  // The run
  // ---------------------------------------------------------------------------

  /** The snapshot written at the end of a pass: `log_iter_<key>.txt` holds the
      transcript and the status. */
  datatype Checkpoint = Checkpoint(key: nat, messages: seq<Message>, status: Status)

  datatype Outcome = Outcome(phase: Phase, messages: seq<Message>, checkpoints: seq<Checkpoint>,
                             passes: nat)

  function Seed(prompt: string): seq<Message> {
    [Message(System, SystemPrompt), Message(User, prompt)]
  }

  /** What a pass learns from its round: the reply, whether the reply holds a module
      (`write_code_blocks_to_file` exits when it holds none), the diagnostics of the
      compile log and the state the report scanner ends in. */
  datatype Observation = Observation(response: string, hasModule: bool,
                                     diagnostics: CompileLog.Diagnostics,
                                     report: CoverageReport.ScanState)

  function Observe(r: Round, parse: string -> Option<real>): (o: Observation)
    ensures o.response == r.response
    ensures o.hasModule <==> ModuleBlocks.FindVerilogModules(r.response) != []
  {
    Observation(r.response, ModuleBlocks.CodeFile(r.response).Some?,
                CompileLog.ExtractDiagnostics(r.log), CoverageReport.ScanLines(r.report, parse))
  }

  /** The observations of every pass of a run. */
  function Observations(rounds: nat -> Round, parse: string -> Option<real>): nat -> Observation {
    (k: nat) => Observe(rounds(k), parse)
  }

  lemma ObservationOf(rounds: nat -> Round, parse: string -> Option<real>, k: nat)
    ensures Observations(rounds, parse)(k).response == rounds(k).response
    ensures Observations(rounds, parse)(k).hasModule == ModuleBlocks.CodeFile(rounds(k).response).Some?
    ensures Observations(rounds, parse)(k).diagnostics == CompileLog.ExtractDiagnostics(rounds(k).log)
    ensures Observations(rounds, parse)(k).report == CoverageReport.ScanLines(rounds(k).report, parse)
  {
  }

  /** The transcript after a pass: the reply, then the feedback if there is one. */
  function Sent(messages: seq<Message>, response: string, feedback: Option<string>): seq<Message> {
    if feedback.Some? then messages + [Message(Assistant, response), Message(User, feedback.value)]
    else messages + [Message(Assistant, response)]
  }

  lemma SentWithFeedback(messages: seq<Message>, response: string, feedback: string)
    ensures messages + [Message(Assistant, response)] + [Message(User, feedback)]
            == Sent(messages, response, Some(feedback))
  {
  }

  /** The passes from pass number `pass` on, with the counts, transcript and checkpoints
      built so far. */
  function RunFrom(prompt: string, obs: nat -> Observation,
                   pass: nat, iterations: nat, fsm: nat,
                   messages: seq<Message>, checkpoints: seq<Checkpoint>): (r: Outcome)
    requires iterations < CompileBudget && fsm <= CoverageBudget
    ensures r.phase != Running
    ensures pass < r.passes
    decreases CoverageBudget - fsm, CompileBudget - iterations
  {
    var round := obs(pass);
    if !round.hasModule then
      Outcome(NoCodeBlocks, messages + [Message(Assistant, round.response)], checkpoints, pass + 1)
    else
      var v := Evaluate(iterations, fsm, round.diagnostics, round.report, prompt);
      var sent := Sent(messages, round.response, v.feedback);
      if v.phase == Crashed then Outcome(Crashed, sent, checkpoints, pass + 1)
      else
        var saved := checkpoints + [Checkpoint(v.iterations, sent, v.status)];
        if v.phase == Running then
          EvaluateProgress(iterations, fsm, round.diagnostics, round.report, prompt);
          RunFrom(prompt, obs, pass + 1, v.iterations, v.fsm, sent, saved)
        else Outcome(v.phase, sent, saved, pass + 1)
  }

  /** `verilog_loop` as a function of its inputs. */
  function Run(prompt: string, rounds: nat -> Round, parse: string -> Option<real>): Outcome {
    RunFrom(prompt, Observations(rounds, parse), 0, 0, 0, Seed(prompt), [])
  }

  /** A pass that finds a module and goes on leaves the run at the next pass, with the
      counts the evaluation gives. */
  lemma RunFromContinues(prompt: string, obs: nat -> Observation,
                         pass: nat, iterations: nat, fsm: nat,
                         messages: seq<Message>, checkpoints: seq<Checkpoint>, v: Verdict)
    requires iterations < CompileBudget && fsm <= CoverageBudget
    requires obs(pass).hasModule
    requires v == Evaluate(iterations, fsm, obs(pass).diagnostics, obs(pass).report, prompt)
    requires v.phase == Running
    ensures v.iterations < CompileBudget && v.fsm <= CoverageBudget
    ensures RunFrom(prompt, obs, pass, iterations, fsm, messages, checkpoints)
            == RunFrom(prompt, obs, pass + 1, v.iterations, v.fsm,
                       Sent(messages, obs(pass).response, v.feedback),
                       checkpoints + [Checkpoint(v.iterations,
                                                 Sent(messages, obs(pass).response, v.feedback),
                                                 v.status)])
  {
    EvaluateProgress(iterations, fsm, obs(pass).diagnostics, obs(pass).report, prompt);
  }

  /** A pass that finds a module and ends the run with success or a timeout. */
  lemma RunFromEnds(prompt: string, obs: nat -> Observation,
                    pass: nat, iterations: nat, fsm: nat,
                    messages: seq<Message>, checkpoints: seq<Checkpoint>, v: Verdict)
    requires iterations < CompileBudget && fsm <= CoverageBudget
    requires obs(pass).hasModule
    requires v == Evaluate(iterations, fsm, obs(pass).diagnostics, obs(pass).report, prompt)
    requires v.phase == Succeeded || v.phase == TimedOut
    ensures RunFrom(prompt, obs, pass, iterations, fsm, messages, checkpoints)
            == Outcome(v.phase, Sent(messages, obs(pass).response, v.feedback),
                       checkpoints + [Checkpoint(v.iterations,
                                                 Sent(messages, obs(pass).response, v.feedback),
                                                 v.status)],
                       pass + 1)
  {
  }

  /** The transcript after the evaluation of a pass: the feedback, if any, is appended. */
  function WithFeedback(messages: seq<Message>, feedback: Option<string>): seq<Message> {
    if feedback.Some? then messages + [Message(User, feedback.value)] else messages
  }

  lemma SentIsReplyThenFeedback(messages: seq<Message>, response: string, feedback: Option<string>)
    ensures WithFeedback(messages + [Message(Assistant, response)], feedback)
            == Sent(messages, response, feedback)
  {
  }

  /** The body of `verilog_loop` after the reply has been logged and its module written:
      compile, send the diagnostics or read the coverage report, and set the flags.
      `crashed` is the comparison with an unparsed percent. */
  method EvaluatePass(conv: Transcript, prompt: string, round: Round,
                      parse: string -> Option<real>, iterations: nat, iterationsFsm: nat)
    returns (status: Status, iterations': nat, iterationsFsm': nat,
             success: bool, timeout: bool, crashed: bool)
    requires iterations < CompileBudget && iterationsFsm <= CoverageBudget
    modifies conv
    ensures var v := Evaluate(iterations, iterationsFsm, CompileLog.ExtractDiagnostics(round.log),
                              CoverageReport.ScanLines(round.report, parse), prompt);
            && conv.messages == WithFeedback(old(conv.messages), v.feedback)
            && (crashed <==> v.phase == Crashed)
            && (success <==> v.phase == Succeeded)
            && (timeout <==> v.phase == TimedOut)
            && (!crashed ==> status == v.status && iterations' == v.iterations
                             && iterationsFsm' == v.fsm)
  {
    iterations', iterationsFsm' := iterations, iterationsFsm;
    crashed := false;
    var diagnostics := CompileLog.ExtractDiagnostics(round.log);
    var compiled := false;
    var message: string;
    if diagnostics.errors != [] {
      status := CompileErrors;
      message := ErrorFeedback(diagnostics.errors);
    } else if diagnostics.warnings != [] {
      status := CompileWarnings;
      message := WarningFeedback(diagnostics.warnings);
    } else {
      compiled := true;
    }

    timeout := false;
    if !compiled {
      conv.AddMessage(User, message);
      iterations' := iterations' + 1;
    }
    if iterations' >= CompileBudget {
      timeout := true;
    }
    success := false;

    if compiled {
      iterations' := 0;
      var percent, uncovered := CoverageReport.ExtractInfo(round.report, parse);
      if percent.None? {
        crashed := true;
        status := NoStatus;
        return;
      }
      if percent.value >= Target {
        status := TargetAchieved;
        success := true;
      } else if iterationsFsm' >= CoverageBudget {
        status := IterationsTimeout;
        timeout := true;
      } else {
        status := NotYetCovered;
        conv.AddMessage(User, CoverageFeedback(prompt, uncovered));
        iterationsFsm' := iterationsFsm' + 1;
      }
    }
  }

  /** `verilog_loop`: the loop over passes, on a conversation object. */
  method VerilogLoop(prompt: string, rounds: nat -> Round, parse: string -> Option<real>)
    returns (phase: Phase, conv: Transcript, checkpoints: seq<Checkpoint>, passes: nat)
    ensures fresh(conv)
    ensures Outcome(phase, conv.messages, checkpoints, passes) == Run(prompt, rounds, parse)
  {
    conv := new Transcript();
    conv.AddMessage(System, SystemPrompt);
    conv.AddMessage(User, prompt);

    var success := false;
    var timeout := false;
    var iterations: nat := 0;
    var iterationsFsm: nat := 0;
    checkpoints := [];
    passes := 0;
    ghost var goal := Run(prompt, rounds, parse);
    ghost var obs := Observations(rounds, parse);
    assert conv.messages == Seed(prompt);

    while !(success || timeout)
      invariant !(success && timeout)
      invariant iterations <= CompileBudget && iterationsFsm <= CoverageBudget
      invariant !(success || timeout) ==> iterations < CompileBudget
      invariant !(success || timeout) ==>
                  RunFrom(prompt, obs, passes, iterations, iterationsFsm,
                          conv.messages, checkpoints) == goal
      invariant success || timeout ==>
                  Outcome(if success then Succeeded else TimedOut, conv.messages,
                          checkpoints, passes) == goal
      decreases if success || timeout then 0 else 1,
                CoverageBudget - iterationsFsm, CompileBudget - iterations
    {
      ghost var before := conv.messages;
      ghost var it0, fsm0, cps0 := iterations, iterationsFsm, checkpoints;
      var round := rounds(passes);
      ObservationOf(rounds, parse, passes);
      conv.AddMessage(Assistant, round.response);
      passes := passes + 1;

      if ModuleBlocks.CodeFile(round.response).None? {
        phase := NoCodeBlocks;
        return;
      }

      var status: Status;
      var crashed: bool;
      status, iterations, iterationsFsm, success, timeout, crashed :=
        EvaluatePass(conv, prompt, round, parse, iterations, iterationsFsm);
      ghost var v := Evaluate(it0, fsm0, obs(passes - 1).diagnostics, obs(passes - 1).report, prompt);
      SentIsReplyThenFeedback(before, round.response, v.feedback);
      if crashed {
        phase := Crashed;
        return;
      }
      checkpoints := checkpoints + [Checkpoint(iterations, conv.messages, status)];
      if success || timeout {
        RunFromEnds(prompt, obs, passes - 1, it0, fsm0, before, cps0, v);
      } else {
        RunFromContinues(prompt, obs, passes - 1, it0, fsm0, before, cps0, v);
      }
    }
    phase := if success then Succeeded else TimedOut;
  }
}

module RefinementProperties {
  import opened Text
  import opened Conversation
  import CompileLog
  import ModuleBlocks
  import CoverageReport
  import opened Refinement

  // ---------------------------------------------------------------------------
  // Bounds
  // ---------------------------------------------------------------------------

  /** The passes still possible with compile-retry count `iterations` and coverage-retry
      count `fsm`: the compile retries left now, and a full compile budget for each
      coverage retry left. */
  function PassBudget(iterations: nat, fsm: nat): nat
    requires iterations <= CompileBudget && fsm <= CoverageBudget
  {
    (CompileBudget - iterations) + CompileBudget * (CoverageBudget - fsm)
  }

  lemma {:induction false} RunFromPassBound(prompt: string, obs: nat -> Observation,
                                            pass: nat, iterations: nat, fsm: nat,
                                            messages: seq<Message>, checkpoints: seq<Checkpoint>)
    requires iterations < CompileBudget && fsm <= CoverageBudget
    ensures RunFrom(prompt, obs, pass, iterations, fsm, messages, checkpoints).passes
            <= pass + PassBudget(iterations, fsm)
    decreases CoverageBudget - fsm, CompileBudget - iterations
  {
    var round := obs(pass);
    if round.hasModule {
      var v := Evaluate(iterations, fsm, round.diagnostics, round.report, prompt);
      if v.phase == Running {
        RunFromContinues(prompt, obs, pass, iterations, fsm, messages, checkpoints, v);
        var sent := Sent(messages, round.response, v.feedback);
        RunFromPassBound(prompt, obs, pass + 1, v.iterations, v.fsm, sent,
                         checkpoints + [Checkpoint(v.iterations, sent, v.status)]);
      }
    }
  }

  /** Every run ends, after at least one and at most 55 passes: eleven coverage
      evaluations, each after up to four failed compiles, or ten and then five failed
      compiles. */
  lemma RunPassBound(prompt: string, rounds: nat -> Round, parse: string -> Option<real>)
    ensures Run(prompt, rounds, parse).phase != Running
    ensures 1 <= Run(prompt, rounds, parse).passes <= 55
  {
    RunFromPassBound(prompt, Observations(rounds, parse), 0, 0, 0, Seed(prompt), []);
  }

  // ---------------------------------------------------------------------------
  // Checkpoints
  // ---------------------------------------------------------------------------

  predicate IsCompileFailure(status: Status) {
    status.CompileErrors? || status.CompileWarnings?
  }

  /** Checkpoints of failed compiles carry the compile-retry count, 1 to 5; those of
      clean compiles carry 0; every status is one of the five labels. */
  predicate KeysFit(checkpoints: seq<Checkpoint>) {
    forall k :: 0 <= k < |checkpoints| ==>
      && checkpoints[k].status != NoStatus
      && (IsCompileFailure(checkpoints[k].status) ==> 1 <= checkpoints[k].key <= CompileBudget)
      && (!IsCompileFailure(checkpoints[k].status) ==> checkpoints[k].key == 0)
  }

  /** The number of coverage-feedback checkpoints. */
  function Shortfalls(checkpoints: seq<Checkpoint>): nat {
    if checkpoints == [] then 0
    else Shortfalls(checkpoints[..|checkpoints| - 1])
         + (if checkpoints[|checkpoints| - 1].status == NotYetCovered then 1 else 0)
  }

  lemma ShortfallsAppend(checkpoints: seq<Checkpoint>, c: Checkpoint)
    ensures Shortfalls(checkpoints + [c]) ==
              Shortfalls(checkpoints) + (if c.status == NotYetCovered then 1 else 0)
  {
    assert (checkpoints + [c])[..|checkpoints|] == checkpoints;
  }

  /** Every checkpoint's transcript is a state the final transcript grew from. */
  predicate Snapshots(checkpoints: seq<Checkpoint>, messages: seq<Message>) {
    forall k :: 0 <= k < |checkpoints| ==> Extends(messages, checkpoints[k].messages)
  }

  lemma {:induction false} RunFromKeys(prompt: string, obs: nat -> Observation,
                                       pass: nat, iterations: nat, fsm: nat,
                                       messages: seq<Message>, checkpoints: seq<Checkpoint>)
    requires iterations < CompileBudget && fsm <= CoverageBudget
    requires KeysFit(checkpoints) && Shortfalls(checkpoints) == fsm
    ensures var r := RunFrom(prompt, obs, pass, iterations, fsm, messages, checkpoints);
            KeysFit(r.checkpoints) && Shortfalls(r.checkpoints) <= CoverageBudget
    decreases CoverageBudget - fsm, CompileBudget - iterations
  {
    var round := obs(pass);
    if round.hasModule {
      var v := Evaluate(iterations, fsm, round.diagnostics, round.report, prompt);
      if v.phase != Crashed {
        var sent := Sent(messages, round.response, v.feedback);
        var c := Checkpoint(v.iterations, sent, v.status);
        var saved := checkpoints + [c];
        ShortfallsAppend(checkpoints, c);
        assert KeysFit(saved) by {
          assert forall k :: 0 <= k < |checkpoints| ==> saved[k] == checkpoints[k];
        }
        if v.phase == Running {
          RunFromContinues(prompt, obs, pass, iterations, fsm, messages, checkpoints, v);
          RunFromKeys(prompt, obs, pass + 1, v.iterations, v.fsm, sent, saved);
        } else {
          RunFromEnds(prompt, obs, pass, iterations, fsm, messages, checkpoints, v);
        }
      }
    }
  }

  lemma SnapshotsGrow(checkpoints: seq<Checkpoint>, messages: seq<Message>, more: seq<Message>)
    requires Snapshots(checkpoints, messages)
    ensures Snapshots(checkpoints, messages + more)
  {
    forall k | 0 <= k < |checkpoints| ensures Extends(messages + more, checkpoints[k].messages) {
      assert (messages + more)[..|checkpoints[k].messages|] == messages[..|checkpoints[k].messages|];
    }
  }

  lemma SnapshotsSave(checkpoints: seq<Checkpoint>, messages: seq<Message>, c: Checkpoint)
    requires Snapshots(checkpoints, messages) && c.messages == messages
    ensures Snapshots(checkpoints + [c], messages)
  {
    assert forall k :: 0 <= k < |checkpoints| ==> (checkpoints + [c])[k] == checkpoints[k];
    assert messages[..|messages|] == messages;
  }

  lemma ExtendsTrans(a: seq<Message>, b: seq<Message>, c: seq<Message>)
    requires Extends(a, b) && Extends(b, c)
    ensures Extends(a, c)
  {
    assert a[..|b|][..|c|] == a[..|c|];
  }

  lemma {:induction false} RunFromSnapshots(prompt: string, obs: nat -> Observation,
                                            pass: nat, iterations: nat, fsm: nat,
                                            messages: seq<Message>, checkpoints: seq<Checkpoint>)
    requires iterations < CompileBudget && fsm <= CoverageBudget
    requires Snapshots(checkpoints, messages)
    ensures var r := RunFrom(prompt, obs, pass, iterations, fsm, messages, checkpoints);
            Extends(r.messages, messages) && Snapshots(r.checkpoints, r.messages)
    decreases CoverageBudget - fsm, CompileBudget - iterations
  {
    var round := obs(pass);
    if !round.hasModule {
      SnapshotsGrow(checkpoints, messages, [Message(Assistant, round.response)]);
      return;
    }
    var v := Evaluate(iterations, fsm, round.diagnostics, round.report, prompt);
    var sent := Sent(messages, round.response, v.feedback);
    SnapshotsGrow(checkpoints, messages, sent[|messages|..]);
    assert messages + sent[|messages|..] == sent;
    if v.phase != Crashed {
      var saved := checkpoints + [Checkpoint(v.iterations, sent, v.status)];
      SnapshotsSave(checkpoints, sent, Checkpoint(v.iterations, sent, v.status));
      if v.phase == Running {
        RunFromContinues(prompt, obs, pass, iterations, fsm, messages, checkpoints, v);
        RunFromSnapshots(prompt, obs, pass + 1, v.iterations, v.fsm, sent, saved);
        ExtendsTrans(RunFrom(prompt, obs, pass + 1, v.iterations, v.fsm, sent, saved).messages,
                     sent, messages);
      } else {
        RunFromEnds(prompt, obs, pass, iterations, fsm, messages, checkpoints, v);
      }
    }
  }

  /** Over a whole run: the checkpoint keys and labels fit the compile outcome, at most ten
      coverage messages are sent, and every checkpoint is a snapshot of the transcript. */
  lemma RunCheckpoints(prompt: string, rounds: nat -> Round, parse: string -> Option<real>)
    ensures KeysFit(Run(prompt, rounds, parse).checkpoints)
    ensures Shortfalls(Run(prompt, rounds, parse).checkpoints) <= CoverageBudget
    ensures Snapshots(Run(prompt, rounds, parse).checkpoints, Run(prompt, rounds, parse).messages)
    ensures Extends(Run(prompt, rounds, parse).messages, Seed(prompt))
  {
    RunFromKeys(prompt, Observations(rounds, parse), 0, 0, 0, Seed(prompt), []);
    RunFromSnapshots(prompt, Observations(rounds, parse), 0, 0, 0, Seed(prompt), []);
  }

  // ---------------------------------------------------------------------------
  // The transcript
  // ---------------------------------------------------------------------------

  /** After the seed come only replies and feedback, and each feedback message directly
      follows a reply. */
  predicate Alternates(messages: seq<Message>) {
    forall k :: 2 <= k < |messages| ==>
      messages[k].role != System && (messages[k].role == User ==> messages[k - 1].role == Assistant)
  }

  /** The number of model replies in a transcript. */
  function Replies(messages: seq<Message>): nat {
    if messages == [] then 0
    else Replies(messages[..|messages| - 1])
         + (if messages[|messages| - 1].role == Assistant then 1 else 0)
  }

  lemma RepliesAppend(messages: seq<Message>, m: Message)
    ensures Replies(messages + [m]) == Replies(messages) + (if m.role == Assistant then 1 else 0)
  {
    assert (messages + [m])[..|messages|] == messages;
  }

  lemma SentShape(messages: seq<Message>, response: string, feedback: Option<string>)
    requires |messages| >= 2 && messages[1].role == User && Alternates(messages)
    ensures Alternates(Sent(messages, response, feedback))
    ensures Replies(Sent(messages, response, feedback)) == Replies(messages) + 1
  {
    var replied := messages + [Message(Assistant, response)];
    RepliesAppend(messages, Message(Assistant, response));
    if feedback.Some? {
      RepliesAppend(replied, Message(User, feedback.value));
      assert Sent(messages, response, feedback) == replied + [Message(User, feedback.value)];
    }
  }

  lemma {:induction false} RunFromShape(prompt: string, obs: nat -> Observation,
                                        pass: nat, iterations: nat, fsm: nat,
                                        messages: seq<Message>, checkpoints: seq<Checkpoint>)
    requires iterations < CompileBudget && fsm <= CoverageBudget
    requires |messages| >= 2 && messages[1].role == User && Alternates(messages)
    ensures var r := RunFrom(prompt, obs, pass, iterations, fsm, messages, checkpoints);
            Alternates(r.messages) && Replies(r.messages) == Replies(messages) + (r.passes - pass)
    decreases CoverageBudget - fsm, CompileBudget - iterations
  {
    var round := obs(pass);
    if !round.hasModule {
      SentShape(messages, round.response, None);
      return;
    }
    var v := Evaluate(iterations, fsm, round.diagnostics, round.report, prompt);
    var sent := Sent(messages, round.response, v.feedback);
    SentShape(messages, round.response, v.feedback);
    if v.phase == Running {
      RunFromContinues(prompt, obs, pass, iterations, fsm, messages, checkpoints, v);
      RunFromShape(prompt, obs, pass + 1, v.iterations, v.fsm, sent,
                   checkpoints + [Checkpoint(v.iterations, sent, v.status)]);
    } else if v.phase != Crashed {
      RunFromEnds(prompt, obs, pass, iterations, fsm, messages, checkpoints, v);
    }
  }

  /** The transcript opens with the system message and the design, holds exactly one
      reply per pass, and every other message is feedback that directly follows a reply. */
  lemma RunTranscript(prompt: string, rounds: nat -> Round, parse: string -> Option<real>)
    ensures |Run(prompt, rounds, parse).messages| >= 2
    ensures Run(prompt, rounds, parse).messages[..2]
            == [Message(System, SystemPrompt), Message(User, prompt)]
    ensures Alternates(Run(prompt, rounds, parse).messages)
    ensures Replies(Run(prompt, rounds, parse).messages) == Run(prompt, rounds, parse).passes
  {
    RunFromShape(prompt, Observations(rounds, parse), 0, 0, 0, Seed(prompt), []);
    RunFromSnapshots(prompt, Observations(rounds, parse), 0, 0, 0, Seed(prompt), []);
    assert Replies(Seed(prompt)) == 0 by {
      RepliesAppend([], Message(System, SystemPrompt));
      RepliesAppend([Message(System, SystemPrompt)], Message(User, prompt));
      assert [] + [Message(System, SystemPrompt)] == [Message(System, SystemPrompt)];
      assert [Message(System, SystemPrompt)] + [Message(User, prompt)] == Seed(prompt);
    }
  }

  // ---------------------------------------------------------------------------
  // Scenarios
  // ---------------------------------------------------------------------------

  /** The uncovered transitions the scanner lists for a round's report. */
  function ReadReport(r: Round, parse: string -> Option<real>): seq<string> {
    CoverageReport.ScanLines(r.report, parse).entries
  }

  /** The percent the scanner reads from a round's report; by
      `CoverageReport.PercentIsFirstReading` it is the first reading that parses. */
  function ReadPercent(r: Round, parse: string -> Option<real>): Option<real> {
    CoverageReport.ScanLines(r.report, parse).percent
  }

  /** A pass whose reply holds a module and whose log has no diagnostics. */
  predicate CleanPass(r: Round) {
    && ModuleBlocks.CodeFile(r.response).Some?
    && !Contains(r.log, CompileLog.ErrorMarker) && !Contains(r.log, CompileLog.WarningMarker)
  }

  lemma CleanPassIsClean(r: Round)
    requires CleanPass(r)
    ensures Clean(CompileLog.ExtractDiagnostics(r.log))
  {
  }

  /** A clean first pass whose report reaches the target ends the run with success after
      that one pass, checkpointed with key 0. */
  lemma ScenarioFirstPassSucceeds(prompt: string, rounds: nat -> Round,
                                  parse: string -> Option<real>, p: real)
    requires CleanPass(rounds(0))
    requires CoverageReport.FirstPercent(rounds(0).report, parse) == Some(p) && p >= Target
    ensures var reply := Seed(prompt) + [Message(Assistant, rounds(0).response)];
            Run(prompt, rounds, parse) == Outcome(Succeeded, reply, [Checkpoint(0, reply, TargetAchieved)], 1)
  {
    var obs := Observations(rounds, parse);
    assert obs(0) == Observe(rounds(0), parse);
    CoverageReport.PercentIsFirstReading(rounds(0).report, parse);
    CleanPassIsClean(rounds(0));
    var v := Evaluate(0, 0, obs(0).diagnostics, obs(0).report, prompt);
    RunFromEnds(prompt, obs, 0, 0, 0, Seed(prompt), [], v);
  }

  /** From compile-retry count `iterations`, passes that all fail with errors end the run
      once the budget is spent: each sends one reply and one error message and
      checkpoints the growing count, and coverage is never read. */
  lemma {:induction false} ErrorsUntilTimeout(prompt: string, obs: nat -> Observation,
                                              pass: nat, iterations: nat, fsm: nat,
                                              messages: seq<Message>, checkpoints: seq<Checkpoint>)
    requires iterations < CompileBudget && fsm <= CoverageBudget
    requires forall k :: pass <= k < pass + CompileBudget - iterations ==>
               obs(k).hasModule && obs(k).diagnostics.errors != []
    ensures var r := RunFrom(prompt, obs, pass, iterations, fsm, messages, checkpoints);
            && r.phase == TimedOut && r.passes == pass + CompileBudget - iterations
            && |r.messages| == |messages| + 2 * (CompileBudget - iterations)
            && |r.checkpoints| == |checkpoints| + CompileBudget - iterations
            && r.checkpoints[..|checkpoints|] == checkpoints
            && (forall j :: |checkpoints| <= j < |r.checkpoints| ==>
                  r.checkpoints[j].status == CompileErrors
                  && r.checkpoints[j].key == iterations + 1 + j - |checkpoints|)
    decreases CompileBudget - iterations
  {
    var round := obs(pass);
    var v := Evaluate(iterations, fsm, round.diagnostics, round.report, prompt);
    var sent := Sent(messages, round.response, v.feedback);
    var saved := checkpoints + [Checkpoint(v.iterations, sent, v.status)];
    if v.phase == Running {
      RunFromContinues(prompt, obs, pass, iterations, fsm, messages, checkpoints, v);
      ErrorsUntilTimeout(prompt, obs, pass + 1, iterations + 1, fsm, sent, saved);
      var r := RunFrom(prompt, obs, pass + 1, iterations + 1, fsm, sent, saved);
      assert r.checkpoints[..|checkpoints|] == saved[..|checkpoints|];
      assert r.checkpoints[|checkpoints|] == saved[|checkpoints|];
    } else {
      RunFromEnds(prompt, obs, pass, iterations, fsm, messages, checkpoints, v);
    }
  }

  /** Five passes in a row that fail to compile with errors time the run out on the fifth,
      with five error messages sent and five checkpoints keyed 1 to 5. */
  lemma ScenarioCompileTimeout(prompt: string, rounds: nat -> Round, parse: string -> Option<real>)
    requires forall k :: 0 <= k < CompileBudget ==>
               ModuleBlocks.FindVerilogModules(rounds(k).response) != []
               && CompileLog.ExtractDiagnostics(rounds(k).log).errors != []
    ensures var r := Run(prompt, rounds, parse);
            && r.phase == TimedOut && r.passes == 5 && |r.messages| == 12 && |r.checkpoints| == 5
            && (forall j :: 0 <= j < 5 ==>
                  r.checkpoints[j].status == CompileErrors && r.checkpoints[j].key == j + 1)
  {
    var obs := Observations(rounds, parse);
    forall k | 0 <= k < CompileBudget
      ensures obs(k).hasModule && obs(k).diagnostics.errors != []
    {
      assert obs(k) == Observe(rounds(k), parse);
    }
    CompileTimeoutFrom(prompt, obs);
  }

  lemma CompileTimeoutFrom(prompt: string, obs: nat -> Observation)
    requires forall k :: 0 <= k < CompileBudget ==>
               obs(k).hasModule && obs(k).diagnostics.errors != []
    ensures var r := RunFrom(prompt, obs, 0, 0, 0, Seed(prompt), []);
            && r.phase == TimedOut && r.passes == 5 && |r.messages| == 12 && |r.checkpoints| == 5
            && (forall j :: 0 <= j < 5 ==>
                  r.checkpoints[j].status == CompileErrors && r.checkpoints[j].key == j + 1)
  {
    var r := RunFrom(prompt, obs, 0, 0, 0, Seed(prompt), []);
    ErrorsUntilTimeout(prompt, obs, 0, 0, 0, Seed(prompt), []);
    assert |r.checkpoints| == 5;
    assert forall j :: 0 <= j < 5 ==>
             r.checkpoints[j].status == CompileErrors && r.checkpoints[j].key == j + 1;
  }

  /** A clean pass whose report is short of the target, within the coverage budget,
      whatever compile failures came before it: the clean compile resets their count. */
  lemma CoverageShortfall(prompt: string, obs: nat -> Observation, pass: nat, it: nat, fsm: nat,
                          messages: seq<Message>, checkpoints: seq<Checkpoint>)
    requires it < CompileBudget && fsm < CoverageBudget
    requires obs(pass).hasModule && Clean(obs(pass).diagnostics)
    requires obs(pass).report.percent.Some? && obs(pass).report.percent.value < Target
    ensures var sent := messages + [Message(Assistant, obs(pass).response),
                                    Message(User, CoverageFeedback(prompt, obs(pass).report.entries))];
            RunFrom(prompt, obs, pass, it, fsm, messages, checkpoints)
            == RunFrom(prompt, obs, pass + 1, 0, fsm + 1, sent,
                       checkpoints + [Checkpoint(0, sent, NotYetCovered)])
  {
    var v := Evaluate(it, fsm, obs(pass).diagnostics, obs(pass).report, prompt);
    RunFromContinues(prompt, obs, pass, it, fsm, messages, checkpoints, v);
  }

  /** A clean pass whose report reaches the target, after any number of compile
      failures within the budget. */
  lemma CoverageReached(prompt: string, obs: nat -> Observation, pass: nat, it: nat, fsm: nat,
                        messages: seq<Message>, checkpoints: seq<Checkpoint>)
    requires it < CompileBudget && fsm <= CoverageBudget
    requires obs(pass).hasModule && Clean(obs(pass).diagnostics)
    requires obs(pass).report.percent.Some? && obs(pass).report.percent.value >= Target
    ensures var sent := messages + [Message(Assistant, obs(pass).response)];
            RunFrom(prompt, obs, pass, it, fsm, messages, checkpoints)
            == Outcome(Succeeded, sent, checkpoints + [Checkpoint(0, sent, TargetAchieved)], pass + 1)
  {
    var v := Evaluate(it, fsm, obs(pass).diagnostics, obs(pass).report, prompt);
    RunFromEnds(prompt, obs, pass, it, fsm, messages, checkpoints, v);
  }

  /** What a clean round with a readable report is observed as. */
  lemma CleanObservation(rounds: nat -> Round, parse: string -> Option<real>, k: nat, p: real)
    requires CleanPass(rounds(k))
    requires ReadPercent(rounds(k), parse) == Some(p)
    ensures Observations(rounds, parse)(k).hasModule
    ensures Clean(Observations(rounds, parse)(k).diagnostics)
    ensures Observations(rounds, parse)(k).report.percent == Some(p)
    ensures Observations(rounds, parse)(k).response == rounds(k).response
    ensures Observations(rounds, parse)(k).report.entries == ReadReport(rounds(k), parse)
  {
    ObservationOf(rounds, parse, k);
    CleanPassIsClean(rounds(k));
  }

  /** Clean compiles with coverage 40%, 60%, 80% and then 92%: the run succeeds on the
      fourth pass after exactly three coverage messages. */
  lemma ScenarioCoverageClimbs(prompt: string, rounds: nat -> Round, parse: string -> Option<real>)
    requires forall k :: 0 <= k < 4 ==> CleanPass(rounds(k))
    requires ReadPercent(rounds(0), parse) == Some(40.0)
    requires ReadPercent(rounds(1), parse) == Some(60.0)
    requires ReadPercent(rounds(2), parse) == Some(80.0)
    requires ReadPercent(rounds(3), parse) == Some(92.0)
    ensures var r := Run(prompt, rounds, parse);
            && r.phase == Succeeded && r.passes == 4 && |r.checkpoints| == 4
            && r.checkpoints[0].status == NotYetCovered && r.checkpoints[1].status == NotYetCovered
            && r.checkpoints[2].status == NotYetCovered && r.checkpoints[3].status == TargetAchieved
  {
    CleanObservation(rounds, parse, 0, 40.0);
    CleanObservation(rounds, parse, 1, 60.0);
    CleanObservation(rounds, parse, 2, 80.0);
    CleanObservation(rounds, parse, 3, 92.0);
    CoverageClimbsFrom(prompt, Observations(rounds, parse),
                       rounds(0).response, rounds(1).response, rounds(2).response, rounds(3).response,
                       ReadReport(rounds(0), parse), ReadReport(rounds(1), parse),
                       ReadReport(rounds(2), parse));
  }

  lemma ScenarioCoverageFeedback(prompt: string, rounds: nat -> Round, parse: string -> Option<real>)
    requires forall k :: 0 <= k < 4 ==> CleanPass(rounds(k))
    requires ReadPercent(rounds(0), parse) == Some(40.0)
    requires ReadPercent(rounds(1), parse) == Some(60.0)
    requires ReadPercent(rounds(2), parse) == Some(80.0)
    requires ReadPercent(rounds(3), parse) == Some(92.0)
    ensures Run(prompt, rounds, parse).messages == Seed(prompt)
              + [Message(Assistant, rounds(0).response),
                 Message(User, CoverageFeedback(prompt, ReadReport(rounds(0), parse)))]
              + [Message(Assistant, rounds(1).response),
                 Message(User, CoverageFeedback(prompt, ReadReport(rounds(1), parse)))]
              + [Message(Assistant, rounds(2).response),
                 Message(User, CoverageFeedback(prompt, ReadReport(rounds(2), parse)))]
              + [Message(Assistant, rounds(3).response)]
  {
    CleanObservation(rounds, parse, 0, 40.0);
    CleanObservation(rounds, parse, 1, 60.0);
    CleanObservation(rounds, parse, 2, 80.0);
    CleanObservation(rounds, parse, 3, 92.0);
    CoverageClimbsFrom(prompt, Observations(rounds, parse),
                       rounds(0).response, rounds(1).response, rounds(2).response, rounds(3).response,
                       ReadReport(rounds(0), parse), ReadReport(rounds(1), parse),
                       ReadReport(rounds(2), parse));
  }

  lemma CoverageClimbsFrom(prompt: string, obs: nat -> Observation,
                           r0: string, r1: string, r2: string, r3: string,
                           e0: seq<string>, e1: seq<string>, e2: seq<string>)
    requires forall k :: 0 <= k < 4 ==> obs(k).hasModule && Clean(obs(k).diagnostics)
    requires obs(0).report.percent == Some(40.0) && obs(1).report.percent == Some(60.0)
    requires obs(2).report.percent == Some(80.0) && obs(3).report.percent == Some(92.0)
    requires obs(0).response == r0 && obs(1).response == r1
    requires obs(2).response == r2 && obs(3).response == r3
    requires obs(0).report.entries == e0 && obs(1).report.entries == e1
    requires obs(2).report.entries == e2
    ensures var r := RunFrom(prompt, obs, 0, 0, 0, Seed(prompt), []);
            && r.phase == Succeeded && r.passes == 4
            && r.messages == Seed(prompt)
                 + [Message(Assistant, r0), Message(User, CoverageFeedback(prompt, e0))]
                 + [Message(Assistant, r1), Message(User, CoverageFeedback(prompt, e1))]
                 + [Message(Assistant, r2), Message(User, CoverageFeedback(prompt, e2))]
                 + [Message(Assistant, r3)]
            && |r.checkpoints| == 4
            && r.checkpoints[0].status == NotYetCovered && r.checkpoints[1].status == NotYetCovered
            && r.checkpoints[2].status == NotYetCovered && r.checkpoints[3].status == TargetAchieved
  {
    var m1 := Seed(prompt) + [Message(Assistant, r0), Message(User, CoverageFeedback(prompt, e0))];
    var m2 := m1 + [Message(Assistant, r1), Message(User, CoverageFeedback(prompt, e1))];
    var m3 := m2 + [Message(Assistant, r2), Message(User, CoverageFeedback(prompt, e2))];
    var x1, x2, x3 := Checkpoint(0, m1, NotYetCovered), Checkpoint(0, m2, NotYetCovered),
                      Checkpoint(0, m3, NotYetCovered);
    CoverageShortfall(prompt, obs, 0, 0, 0, Seed(prompt), []);
    assert [] + [x1] == [x1];
    CoverageShortfall(prompt, obs, 1, 0, 1, m1, [x1]);
    assert [x1] + [x2] == [x1, x2];
    CoverageShortfall(prompt, obs, 2, 0, 2, m2, [x1, x2]);
    assert [x1, x2] + [x3] == [x1, x2, x3];
    CoverageReached(prompt, obs, 3, 0, 3, m3, [x1, x2, x3]);
  }
}
