# LLM-aided testbench generation for FSMs: a Dafny model of the refinement core

This project models the deterministic core of a Python tool that asks a language model
for a Verilog testbench, then compiles and simulates it, and keeps asking until the
design's state transitions are covered. The model covers three scripts.

- `auto_create_response.py` has the closed refinement loop `verilog_loop` and the text
  scanners it relies on:
  - errors and warnings mined from the compile log;
  - Verilog modules located in the model's reply;
  - the coverage-report scanner;
  - the `module tb();` span finder.
- `testbench_generation.py` is the single-shot generator. It parses the DUT header,
  cleans the model's reply, checks that it looks like a testbench, retries once, falls
  back to a fixed scaffold, and cuts the text after the last `endmodule`.
- `llm_coverage_pipeline.py` is the coverage-closure prototype. It parses the
  `[Not Covered]` lines, builds the annotated prompt, reads the total coverage, takes the
  test out of the reply, and runs the bounded loop with its stopping rules.

The model and everything outside the program are inputs:
- the language model's replies;
- the compile log;
- the coverage reports;
- the source files' lines;
- Python's `float`.

Each scanner is a hand-written Dafny function that follows the regular expression it
replaces, branch for branch. Each is proved against an independent statement of what the
pattern means: the leftmost match, the first terminator, the longest prefix that lets
the rest match, no overlap, nothing missed.

The loops the source writes imperatively are Dafny methods proved equal to a functional
specification:
- `verilog_loop`;
- `extract_info_from_file`;
- `parse_vcs_coverage`;
- `build_prompt`;
- the `main` loop of the coverage pipeline;
- the retry sequence of the generator's `main`.

The properties of those specifications are then proved as lemmas.

Modules and files:

| module | file | models |
|---|---|---|
| `Text` | `text.dfy` | Python string built-ins used by the scripts: `find`, `in`, `split`, `splitlines`, `strip`, `join`, `str(int)`, `str(list)`, regex `\b` |
| `Conversation` | `conversation.dfy` | the append-only conversation object |
| `CompileLog` | `compile_log.dfy` | `extract_errors_from_log` |
| `ModuleBlocks` | `module_blocks.dfy` | `find_verilog_modules`, `write_code_blocks_to_file`, `extract_module_content` |
| `CoverageReport` | `coverage_report.dfy` | `extract_info_from_file` |
| `Refinement`, `RefinementProperties` | `refinement_loop.dfy` | `verilog_loop` and its properties |
| `TbGeneration` | `tb_generation.dfy` | `testbench_generation.py` |
| `CoveragePipeline` | `coverage_pipeline.dfy` | `CoverageItem`, `parse_vcs_coverage`, `read_file_lines`, `build_prompt` |
| `CoverageLoop` | `coverage_loop.dfy` | `compute_total_coverage`, the code-block extraction and the loop of `main` |

Two behaviours of the code are modelled as written:
- A clean compile whose report yields no transition percent makes `float(None)` raise
  at auto_create_response.py:262. The model ends such a run in the phase `Crashed`,
  with no checkpoint for that pass. It does not treat the pass as a coverage shortfall.
- The line-range separator in the `[Not Covered]` pattern and in the prompt headers is
  the non-breaking hyphen U+2011, as written in the code (llm_coverage_pipeline.py:112,
  153). An ASCII `-` range is not recognised.

## Model

| member | source | states |
|---|---|---|
| CompileLog.TerminatorFrom | auto_create_response.py:19 | the lazy `.*?^\s*?\n` stops at the first whitespace-only line starting at or after the position; no earlier position starts one |
| CompileLog.NextMatch | auto_create_response.py:19 | a search finds a marker followed by a blank line, at or after the position, with no marker before it |
| CompileLog.NoNextMatch | auto_create_response.py:19 | when the search fails, no marker from the position on has a blank line after it |
| CompileLog.MatchesAreMatches | auto_create_response.py:23 | every `findall` result is a match of the pattern, at or after the scan's start |
| CompileLog.MatchesApart | auto_create_response.py:23 | consecutive matches do not overlap and come in text order |
| CompileLog.MatchesFirst | auto_create_response.py:23 | no marker stands before the first match |
| CompileLog.MatchesLeftmost | auto_create_response.py:23 | no marker stands between two consecutive matches |
| CompileLog.MatchesComplete | auto_create_response.py:23 | after the last match, no marker is followed by a blank line: nothing is missed |
| CompileLog.TextsWellFormed | auto_create_response.py:19-23 | every matched text opens with its marker and ends with the newline of a blank line |
| CompileLog.KeepWarnings | auto_create_response.py:27-28 | the kept warnings are an order-preserving subsequence; a warning is kept iff it does not contain `LCA_FEATURES_ENABLED`, and then as many times as it occurs (multiset equality), an excluded one never |
| CompileLog.KeepWarningsAppend | auto_create_response.py:27-28 | the filter works warning by warning: two stretches keep the first's warnings, then the second's |
| CompileLog.Found | auto_create_response.py:23-25 | one well-formed text per match; none when the marker is absent |
| CompileLog.ExtractDiagnostics | auto_create_response.py:13-30 | errors open with `Error-[`; warnings open with `Warning-[` and are never excluded ones; warnings are a subsequence of all matches and hold each non-excluded match as many times as it was found, and no excluded one; both lists are empty when their marker is absent |
| CompileLog.MarkerWithBlankLineIsReported | auto_create_response.py:19-23 | an `Error-[` followed somewhere by a blank line always yields at least one error |
| Conversation.Transcript.constructor | auto_create_response.py:165 | a new conversation is empty |
| Conversation.Transcript.AddMessage | auto_create_response.py:197 | `add_message` appends exactly one message and changes nothing else |
| ModuleBlocks.SignatureHead | auto_create_response.py:36 | `\bmodule\b\s+\w+\s*` matches only where `module` stands, and ends after it |
| ModuleBlocks.EndFrom | auto_create_response.py:36 | `.*?endmodule\b` ends just after an `endmodule` followed by a word boundary |
| ModuleBlocks.EndFromFirst | auto_create_response.py:36 | the lazy body stops at the first `endmodule\b`; none starts earlier |
| ModuleBlocks.MatchAt | auto_create_response.py:36-38 | a match of either signature form ends after `module`, a name and `endmodule` |
| ModuleBlocks.NextBlock | auto_create_response.py:40-42 | a search returns a match at or after the position |
| ModuleBlocks.NextBlockLeftmost | auto_create_response.py:40-42 | no match starts before the one found, nor anywhere when none is found |
| ModuleBlocks.ScanAreMatches | auto_create_response.py:40-42 | every block `findall` returns is a match at or after the start |
| ModuleBlocks.ScanApart | auto_create_response.py:40-42 | found blocks do not overlap and come in text order |
| ModuleBlocks.ScanFirst | auto_create_response.py:40-42 | no match lies before the first block, nor anywhere when none is found |
| ModuleBlocks.ScanSkipsNothing | auto_create_response.py:40-42 | no match is skipped between blocks or after the last one |
| ModuleBlocks.BlocksAreModules | auto_create_response.py:36-42 | every found block reads `module … endmodule` |
| ModuleBlocks.FormTexts | auto_create_response.py:40-42 | the texts of one form all read `module … endmodule`; the list is empty iff that form matches nowhere |
| ModuleBlocks.FindVerilogModules | auto_create_response.py:34-49 | all plain-signature blocks followed by all parameterised ones (concatenated, not merged); each reads `module … endmodule`; `[]` iff neither form matches anywhere |
| ModuleBlocks.CodeFile | auto_create_response.py:62-78 | the run exits iff no block is found; otherwise the file ends with a newline and contains every block |
| ModuleBlocks.LinesContains | auto_create_response.py:76-78 | every block written appears in the file |
| ModuleBlocks.NoEndInHeader | auto_create_response.py:135 | no `endmodule` starts inside `module tb();` |
| ModuleBlocks.ContentHasShape | auto_create_response.py:128-142 | the span from the header opens with it, holds no `endmodule` before its end, and closes with `endmodule` or runs to the end of a text with none after the header |
| ModuleBlocks.ExtractModuleContent | auto_create_response.py:128-142 | `"No module found"` iff `module tb();` is absent; otherwise the span from its first occurrence through the first `endmodule` after it, or to the end of the text |
| CoverageReport.Step | auto_create_response.py:95-121 | one line never overwrites a set percent, only sets an unset one; it adds at most one entry, and only for a transition line |
| CoverageReport.ScanLinesNext | auto_create_response.py:95 | the state after one more line is one more step |
| CoverageReport.ExtractInfo | auto_create_response.py:83-123 | the loop's percent is the reading of the first `Transitions` line whose reading parses, and its entries are exactly the lines the reference definition emits, in order |
| CoverageReport.FirstReadable | auto_create_response.py:97-102 | the first `Transitions` line whose last token parses after stripping `%` |
| CoverageReport.FirstReadableLeast | auto_create_response.py:97-102 | no earlier line has a reading that parses |
| CoverageReport.StepPercent | auto_create_response.py:97-105 | after a line, the percent stays if set, else becomes that line's reading if it parses, else stays unset |
| CoverageReport.PercentIsFirstReading | auto_create_response.py:97-105 | the scanner's percent is the reading of the first readable line: later lines never overwrite it, and a failed reading is passed over |
| CoverageReport.EntriesAreCandidates | auto_create_response.py:116-121 | the entries are transition lines of the report, rendered, in report order (a subsequence) |
| CoverageReport.NoSectionNoEntries | auto_create_response.py:108-116 | with no start marker in the report, capture stays off and nothing is emitted |
| CoverageReport.LineInSectionEmits | auto_create_response.py:108-121 | a transition line inside the section, or opening it, is emitted and keeps capture on |
| CoverageReport.SectionEndEmitsNothing | auto_create_response.py:108-116 | a line with the end marker and no start marker emits nothing (the `elif` order) |
| CoverageReport.ClosedEmitsNothing | auto_create_response.py:108-121 | a line after which the section is closed emits nothing |
| CoverageReport.AbandonedLineSkipped | auto_create_response.py:97-104 | a line whose reading fails (`continue`) changes neither the flag nor the entries |
| CoverageReport.OpenAfterNext | auto_create_response.py:107-113 | the reference flag after one more line: on if that line opens the section, off if it closes it, unchanged otherwise |
| CoverageReport.ScanIsReference | auto_create_response.py:95-121 | after any prefix of the report, the scanner's flag is the reference flag and its entries are the emitted lines of that prefix |
| CoverageReport.EntriesAreEmitted | auto_create_response.py:95-123 | the entries are exactly the transition lines, not skipped by a failed reading, after which the section is open: some line opened it and none since closed it |
| Text.SplitNonEmpty | auto_create_response.py:97-99 | a line holding `Transitions` always splits into at least one token |
| Text.RenderMentions | auto_create_response.py:229 | every element of a list shows up quoted in `str(list)` |
| Text.UnescapeEscape | auto_create_response.py:229 | the quoting in `str(list)` loses nothing: unescaping gives the element back |
| Refinement.ErrorFeedbackQuotes | auto_create_response.py:229 | the error message quotes every error |
| Refinement.WarningFeedbackQuotes | auto_create_response.py:233 | the warning message quotes every warning |
| Refinement.CoverageFeedbackMentions | auto_create_response.py:270 | the coverage message restates the design prompt and quotes every uncovered transition |
| Refinement.Evaluate | auto_create_response.py:224-272 | errors take precedence over warnings; a failed compile sends one message, counts a compile retry and times out at 5; a clean compile resets that count; an unset percent crashes; percent ≥ 90 succeeds; otherwise the run times out at 10 coverage retries or sends the coverage message and counts one; a message is sent iff the run goes on or the compile failed |
| Refinement.EvaluateProgress | auto_create_response.py:240-272 | a pass that goes on keeps both counts in budget and strictly advances (coverage count, compile count) lexicographically |
| Refinement.Observe | auto_create_response.py:202-254 | a pass sees the reply as is, and sees a module iff `find_verilog_modules` finds one |
| Refinement.ObservationOf | auto_create_response.py:202-254 | each pass's observation is the reply, the `write_code_blocks_to_file` exit test, the log's diagnostics and the report scanner's state |
| Refinement.RunFrom | auto_create_response.py:191-277 | the run from a pass ends in a final phase after that pass |
| Refinement.RunFromContinues | auto_create_response.py:191-277 | a pass that goes on appends reply and feedback, checkpoints, and resumes with the evaluated counts |
| Refinement.RunFromEnds | auto_create_response.py:191-277 | a pass that succeeds or times out ends the run with its reply, feedback and checkpoint |
| Refinement.EvaluatePass | auto_create_response.py:224-272 | the method's flags, counts, status and appended message are those `Evaluate` gives |
| Refinement.VerilogLoop | auto_create_response.py:160-280 | the loop over a conversation object ends with the phase, transcript, checkpoints and pass count of the functional run |
| RefinementProperties.RunPassBound | auto_create_response.py:191-272 | every run ends, after between 1 and 55 passes |
| RefinementProperties.RunFromPassBound | auto_create_response.py:191-272 | the passes left are bounded by the compile retries left plus a full compile budget per coverage retry left |
| RefinementProperties.RunCheckpoints | auto_create_response.py:243-277 | checkpoint keys are 1 to 5 after failed compiles and 0 after clean ones; every status is one of the five labels; at most 10 coverage messages are sent; every checkpoint is a snapshot of the growing transcript |
| RefinementProperties.RunFromKeys | auto_create_response.py:243-277 | the checkpoint keys fit the compile outcome, and coverage messages stay within budget |
| RefinementProperties.RunFromSnapshots | auto_create_response.py:275-277 | the transcript only grows, and every checkpoint holds an earlier state of it |
| RefinementProperties.RunTranscript | auto_create_response.py:168-197 | the transcript opens with the system message and the design prompt, holds exactly one reply per pass, and every other message is feedback directly after a reply |
| RefinementProperties.RunFromShape | auto_create_response.py:197-271 | each pass adds one reply and at most one feedback message right after it |
| RefinementProperties.SentShape | auto_create_response.py:197-242 | one pass keeps the reply/feedback alternation and adds one reply |
| RefinementProperties.ScenarioFirstPassSucceeds | auto_create_response.py:250-264 | a clean first pass at ≥ 90% succeeds after one pass, checkpointed with key 0 and `Target Achieved` |
| RefinementProperties.ErrorsUntilTimeout | auto_create_response.py:240-246 | passes that all fail with errors time out once the budget is spent, each sending one reply and one error message, with keys counting up |
| RefinementProperties.ScenarioCompileTimeout | auto_create_response.py:240-246 | five error passes in a row time out on the fifth, with 12 messages and checkpoints keyed 1 to 5 |
| RefinementProperties.CoverageShortfall | auto_create_response.py:248-272 | a clean pass below target, after any compile failures within their budget and within the coverage budget, sends the coverage message, counts a coverage retry and resets the compile count |
| RefinementProperties.CoverageReached | auto_create_response.py:248-264 | a clean pass at target, after any compile failures within their budget, ends the run with success, no feedback and a key-0 `Target Achieved` checkpoint |
| RefinementProperties.ScenarioCoverageClimbs | auto_create_response.py:250-272 | clean passes at 40, 60, 80 and 92% succeed on the fourth, after three `Transitions not yet fully covered` checkpoints |
| RefinementProperties.ScenarioCoverageFeedback | auto_create_response.py:250-272 | in that run the transcript is the seed, then each reply followed by its coverage message, then the final reply |
| TbGeneration.PortClose | testbench_generation.py:46 | the lazy `(.*?)\)\s*;` stops at the first `)` that `\s*;` follows |
| TbGeneration.PortCloseSkips | testbench_generation.py:46 | the port search passes over text without `)` |
| TbGeneration.PortCloseFirst | testbench_generation.py:46 | the lazy port group `(.*?)` stops at the first `)` that `\s*;` follows: no earlier one does |
| TbGeneration.PortList | testbench_generation.py:46 | `\s*\((.*?)\)\s*;` from a position: the group lies after it, a `)` that `\s*;` follows closes it, and no earlier `)` would |
| TbGeneration.ParamClose | testbench_generation.py:46 | the parameter block ends at a `)` after which the port list matches |
| TbGeneration.ParamCloseStopsAtSemicolon | testbench_generation.py:46 | the parameter block `[^;]*?` never runs over a `;` |
| TbGeneration.ParamBlockFree | testbench_generation.py:46 | the parameter block from `#` through the `)` found holds no `;` |
| TbGeneration.ParamBlockShape | testbench_generation.py:46 | such a block runs from `#` to `)` with no `;` inside |
| TbGeneration.AfterName | testbench_generation.py:46 | after the name: the port group is closed by a `)` that `\s*;` follows, no earlier `)` would close it, and a non-empty parameter block has the `#…)` shape |
| TbGeneration.DeclAt | testbench_generation.py:46 | a match's name group is an identifier `[A-Za-z_]\w*`; its parameter group is empty or has the `#…)` shape, and its port group stands in the text right before its closing `)` |
| TbGeneration.NameStart | testbench_generation.py:46 | the name after `module` and whitespace starts with a letter or `_` |
| TbGeneration.FirstDecl | testbench_generation.py:53 | the search returns a position where the declaration matches |
| TbGeneration.FirstDeclLeftmost | testbench_generation.py:53 | no declaration starts earlier, nor anywhere when none is found |
| TbGeneration.HeaderOpens | testbench_generation.py:60 | the rebuilt header opens with `module`, the name and one space, even without parameters |
| TbGeneration.ParseDutInfo | testbench_generation.py:48-61 | `None` iff no declaration matches; otherwise the identifier of the leftmost declaration and the header `module NAME PARAMS(PORTS);` rebuilt from that match's three groups |
| TbGeneration.HeaderReparses | testbench_generation.py:48-61 | a rebuilt parameterless header parses back to the same name and header |
| TbGeneration.FenceAt | testbench_generation.py:45 | a fenced body lies between the tag and the next fence and holds no fence |
| TbGeneration.FencedCode | testbench_generation.py:45 | the first fenced body holds no fence |
| TbGeneration.FencedCodeLeftmost | testbench_generation.py:68-70 | the fenced block that starts first, with none before it, is the one returned |
| TbGeneration.FencedCodeNone | testbench_generation.py:68-70 | no block is returned iff no fenced block starts anywhere |
| TbGeneration.DropProse | testbench_generation.py:73-76 | the kept lines are an order-preserving subsequence; a line is kept iff it is not prose, and then as many times as it occurs (multiset equality) |
| TbGeneration.DropProseAppend | testbench_generation.py:73-76 | lines are judged one at a time: two stretches keep the first's lines, then the second's |
| TbGeneration.AllProseDropped | testbench_generation.py:73-76 | all-prose lines are all dropped |
| TbGeneration.FirstModuleLine | testbench_generation.py:79 | the first line found holds `module` as a whole word |
| TbGeneration.StripIsStripped | testbench_generation.py:70 | a stripped text has no whitespace at either end |
| TbGeneration.ExtractVerilogOnly | testbench_generation.py:63-83 | the result is stripped; with a fence it is the first fenced body, stripped, and holds no fence; without a fence, when a line holds `module`, the result holds it |
| TbGeneration.ModuleLineKept | testbench_generation.py:79-81 | the text from a `module` line on keeps `module` through the strip |
| TbGeneration.AllProseYieldsNothing | testbench_generation.py:73-83 | a reply with no fence and only prose lines yields the empty text |
| TbGeneration.HasTbDeclIff | testbench_generation.py:88 | the `module tb (` search succeeds iff the pattern matches somewhere |
| TbGeneration.HasInstanceIff | testbench_generation.py:93-94 | the instance search succeeds iff the instance pattern matches somewhere |
| TbGeneration.TbDeclAfter | testbench_generation.py:88 | `module tb();` after a non-word character matches the `module tb(` pattern |
| TbGeneration.ScaffoldLooksLikeTb | testbench_generation.py:173-184 | with no DUT name to check, the scaffold passes: it is non-empty, has the `module tb(` opener and the three system calls |
| TbGeneration.InstanceCall | testbench_generation.py:93 | in a text without `#`, an instance of a name continues, past whitespace, at an identifier followed by `(` |
| TbGeneration.CallEnd | testbench_generation.py:93 | such a call site runs over word and space characters only up to its `(` |
| TbGeneration.ScaffoldBodyNoCall | testbench_generation.py:177-183 | the scaffold after `module tb();` holds no identifier-then-`(` after whitespace |
| TbGeneration.OpenerCallSite | testbench_generation.py:175-176 | in the scaffold's text the only such call site is `tb(` of the opener |
| TbGeneration.OpenerInstance | testbench_generation.py:91-94 | so the only identifier the instance pattern finds there is `module` |
| TbGeneration.OpenerInstanceOfModule | testbench_generation.py:93 | and `module tb(` does read as an instance of a design called `module` |
| TbGeneration.ScaffoldInstances | testbench_generation.py:91-94 | for an identifier as DUT name, the scaffold holds an instance of it iff the name is `module` |
| TbGeneration.ScaffoldFailsCheck | testbench_generation.py:91-97 | the scaffold fails `looks_like_tb` for `<UNKNOWN_DUT>` and for every identifier but `module`: it instantiates no design |
| TbGeneration.EndMatches | testbench_generation.py:188 | `finditer` yields only whole-word `endmodule` positions, in order |
| TbGeneration.EndModuleApart | testbench_generation.py:188 | two whole-word `endmodule`s never overlap |
| TbGeneration.EndMatchesNone | testbench_generation.py:188 | no match means no whole-word `endmodule` |
| TbGeneration.LastMatchIsLast | testbench_generation.py:188 | nothing after the last match is a whole-word `endmodule` |
| TbGeneration.LastEnd | testbench_generation.py:188-189 | the cut point is just after a whole-word `endmodule` |
| TbGeneration.LastEndIsLast | testbench_generation.py:188-189 | no whole-word `endmodule` starts after the one the cut uses |
| TbGeneration.CutEndsWithEndModule | testbench_generation.py:190 | cutting after `endmodule` and stripping leaves a stripped text ending in `endmodule` |
| TbGeneration.FinalizeEnds | testbench_generation.py:188-190 | a text without `endmodule` is kept as is; otherwise the result is stripped and ends exactly with `endmodule` |
| TbGeneration.ScaffoldEnding | testbench_generation.py:174-184 | the scaffold ends with `endmodule` on a line of its own |
| TbGeneration.FinalizeDropsNewline | testbench_generation.py:188-190 | such a text loses only its final newline in the clean-up |
| TbGeneration.ScaffoldWritten | testbench_generation.py:174-190 | the scaffold is written as is, less its final newline |
| TbGeneration.DutShown | testbench_generation.py:100-103 | the parsed name and header, or `<UNKNOWN_DUT>` and the fallback note; the name is never empty |
| TbGeneration.BuildMessages | testbench_generation.py:99-118 | a system message then the filled user prompt, plus a third user message iff the extra text is non-empty; the returned name is the one shown |
| TbGeneration.UserPromptQuotes | testbench_generation.py:105-110 | the user prompt carries the DUT name and the whole RTL verbatim |
| TbGeneration.ChosenPassesOrScaffold | testbench_generation.py:163-184 | what is chosen either passes the check or is the scaffold |
| TbGeneration.FirstPassIsKept | testbench_generation.py:163 | a first reply that passes is kept, whatever the retry would say |
| TbGeneration.ScaffoldOnlyOnFailure | testbench_generation.py:173 | the scaffold is used only when neither reply passes |
| TbGeneration.ScaffoldMeansBothFailed | testbench_generation.py:163-173 | for the name `build_messages` gives, unless the pattern reads the design's name as `module`, choosing the scaffold means both the first reply and the retry failed the check |
| TbGeneration.GenerateTestbench | testbench_generation.py:138-190 | exit 1 for a missing file, 2 for an API error, 3 for no choices; otherwise the written text is the clean-up of the chosen candidate; exactly one retry message is appended iff the first candidate fails |
| TbGeneration.UnknownDutBlocks | testbench_generation.py:91-96 | with the name `<UNKNOWN_DUT>`, a text without `<` always fails the check |
| TbGeneration.UnparsedDutGetsScaffold | testbench_generation.py:101-102 | as written: for RTL without a declaration, replies without `<` are replaced by the scaffold |
| TbGeneration.InstanceName | testbench_generation.py:91-96 | no name is checked exactly when the declaration was not parsed |
| TbGeneration.UnparsedDutNotBlocked | testbench_generation.py:91-96 | as intended: an unparsed DUT does not block; a text passes iff it is non-empty and has the opener and the three calls, and the scaffold passes |
| CoveragePipeline.SpaceLen | llm_coverage_pipeline.py:112 | a greedy `\s*` stops at the first non-space |
| CoveragePipeline.DigitLen | llm_coverage_pipeline.py:112 | a greedy `\d+` takes only digits and stops at the first non-digit |
| CoveragePipeline.DotLen | llm_coverage_pipeline.py:112 | a greedy `.*` stops at the first line feed |
| CoveragePipeline.FileLen | llm_coverage_pipeline.py:112 | the `\S+` file group ends within the leading token, where `\s*line:\d` follows |
| CoveragePipeline.FileLenGreatest | llm_coverage_pipeline.py:112 | no longer file group lets the rest match: the greedy group backtracks only as far as needed |
| CoveragePipeline.Description | llm_coverage_pipeline.py:121 | the note is never empty |
| CoveragePipeline.Fields | llm_coverage_pipeline.py:112-121 | the item keeps the file group and has a non-empty note |
| CoveragePipeline.MatchHere | llm_coverage_pipeline.py:112 | a match opens with `[Not Covered]` and gives a non-empty space-free file and a non-empty note |
| CoveragePipeline.ParseLine | llm_coverage_pipeline.py:115-121 | a parsed item has a non-empty space-free file and a non-empty note |
| CoveragePipeline.NoteReads | llm_coverage_pipeline.py:121 | a stripped one-line note reads back as itself |
| CoveragePipeline.NumeralReads | llm_coverage_pipeline.py:119 | a numeral followed by a non-digit is read whole |
| CoveragePipeline.NoRangeReads | llm_coverage_pipeline.py:120 | without a range, the end line is the start line |
| CoveragePipeline.RangeReads | llm_coverage_pipeline.py:112-120 | a U+2011 range gives the end line after the dash |
| CoveragePipeline.TailReads | llm_coverage_pipeline.py:112-121 | the line key, both line numbers and the note read back from a formatted tail |
| CoveragePipeline.FileReads | llm_coverage_pipeline.py:112 | the file group stops right before the formatted tail |
| CoveragePipeline.HeadReads | llm_coverage_pipeline.py:112 | the fixed head of a report line leads to the file group |
| CoveragePipeline.MatchReads | llm_coverage_pipeline.py:111-121 | the pattern reads a formatted line back as its item |
| CoveragePipeline.ParseFormatted | llm_coverage_pipeline.py:111-122 | round trip: a formatted report line parses back to the item it states |
| CoveragePipeline.UntaggedLineSkipped | llm_coverage_pipeline.py:115-117 | a line without `[Not Covered]` yields no item |
| CoveragePipeline.CollectAppend | llm_coverage_pipeline.py:114-122 | lines are read independently: two stretches yield the first's items then the second's |
| CoveragePipeline.CollectSkips | llm_coverage_pipeline.py:116-117 | a line that does not match contributes nothing, wherever it stands |
| CoveragePipeline.CollectEach | llm_coverage_pipeline.py:114-122 | lines each yielding one item yield exactly those items, in order |
| CoveragePipeline.ReportRoundTrip | llm_coverage_pipeline.py:110-123 | a report formatted from items parses back to exactly those items |
| CoveragePipeline.ParseVcsCoverage | llm_coverage_pipeline.py:99-123 | the loop yields the items of every matching line, in order, or `None` for a missing report |
| CoveragePipeline.SliceBound | llm_coverage_pipeline.py:82 | a Python slice bound always lands within the list |
| CoveragePipeline.ReadFileLinesInRange | llm_coverage_pipeline.py:78-83 | for start ≥ 1, the text is exactly lines start..min(end, #lines), 1-based and inclusive, concatenated |
| CoveragePipeline.ExcerptBounded | llm_coverage_pipeline.py:151 | an excerpt holds at most `max_lines_each + 1` lines and none past the item's range, for every start line including `line:0`, where the slice starts at -1 |
| CoveragePipeline.Annotate | llm_coverage_pipeline.py:152 | a snippet without a newline is unchanged; otherwise exactly one note line is added |
| CoveragePipeline.AnnotateAfterFirstLine | llm_coverage_pipeline.py:152 | the note goes right after the first line and nothing else changes |
| CoveragePipeline.FileName | llm_coverage_pipeline.py:153 | the name is a tail of the path holding no `/`; a `/` stands right before it, or the path has none and the name is the whole path |
| CoveragePipeline.Blocks | llm_coverage_pipeline.py:149-155 | one excerpt per item |
| CoveragePipeline.BuildPrompt | llm_coverage_pipeline.py:147-156 | the loop yields the prompt of the functional specification, or `None` where opening a file raises |
| CoveragePipeline.BlocksStep | llm_coverage_pipeline.py:150-155 | one more item whose file opens adds its excerpt at the end |
| CoveragePipeline.BlocksMissing | llm_coverage_pipeline.py:151 | a file that cannot be opened stops the whole prompt |
| CoveragePipeline.BlocksEach | llm_coverage_pipeline.py:150-155 | block k is the excerpt of item k |
| CoveragePipeline.PromptExistsIff | llm_coverage_pipeline.py:147-156 | the prompt exists iff every item's file opens |
| CoveragePipeline.BlocksExistIff | llm_coverage_pipeline.py:149-155 | the excerpts exist iff every item's file opens |
| CoveragePipeline.PromptShowsEveryItem | llm_coverage_pipeline.py:153-156 | the prompt contains every item's fenced excerpt |
| CoveragePipeline.PromptShowsEveryHeader | llm_coverage_pipeline.py:153-156 | the prompt contains every item's header, with its file name and line range |
| CoveragePipeline.PromptShowsBlock | llm_coverage_pipeline.py:156 | every joined block appears in the filled template |
| CoveragePipeline.BlockShowsHeader | llm_coverage_pipeline.py:153-154 | each excerpt opens with its header |
| CoveragePipeline.BlockNotesItem | llm_coverage_pipeline.py:151-154 | in an excerpt spanning a line break, the item's note follows the first line |
| CoverageLoop.DigitsBelow | llm_coverage_pipeline.py:219 | a numeral of n digits is below 10^n |
| CoverageLoop.Fraction | llm_coverage_pipeline.py:219-220 | the digits after the point are worth less than one |
| CoverageLoop.DecimalValue | llm_coverage_pipeline.py:219-220 | the value of `whole.frac` lies in [whole, whole + 1) |
| CoverageLoop.PercentHere | llm_coverage_pipeline.py:219 | a percent read is never negative |
| CoverageLoop.TotalHere | llm_coverage_pipeline.py:219 | a total line opens with `TOTAL` and gives a non-negative value |
| CoverageLoop.TotalCoverage | llm_coverage_pipeline.py:214-220 | the total is never negative |
| CoverageLoop.TotalLeftmost | llm_coverage_pipeline.py:219-220 | the total line that starts first, with none before it, is the one read: `re.search`'s leftmost match |
| CoverageLoop.NoMatchIsZero | llm_coverage_pipeline.py:216-220 | a summary where the pattern matches nowhere, or a missing one, gives 0 |
| CoverageLoop.PercentReads | llm_coverage_pipeline.py:219 | `whole.frac%` reads back as its decimal value |
| CoverageLoop.KeysRead | llm_coverage_pipeline.py:219 | `TOTAL coverage: ` leads to the numeral |
| CoverageLoop.TotalReads | llm_coverage_pipeline.py:219-220 | a summary holding a total line reads back as whole + fraction |
| CoverageLoop.TotalAtStart | llm_coverage_pipeline.py:219-220 | a total line at the start of the summary is the one read |
| CoverageLoop.NoTotalIsZero | llm_coverage_pipeline.py:219-220 | a summary without `TOTAL` gives 0 |
| CoverageLoop.SvBlock | llm_coverage_pipeline.py:259-264 | the extracted block holds no fence |
| CoverageLoop.SvBlockExistsIff | llm_coverage_pipeline.py:259-260 | a block is found iff an opening is followed somewhere by a fence |
| CoverageLoop.SvBlockReads | llm_coverage_pipeline.py:259-264 | a reply holding one block, with no backquote before its end, gives back that block's body |
| CoverageLoop.SvBlockAt | llm_coverage_pipeline.py:259-264 | the body lies between the first opening and the next fence |
| CoverageLoop.CoverageClosure | llm_coverage_pipeline.py:241-277 | the loop ends with the outcome of the functional run |
| CoverageLoop.IterationFacts | llm_coverage_pipeline.py:250-275 | an iteration adds at most one well-formed round, numbered by the iteration, and stops for the target iff that round reached it |
| CoverageLoop.AskFacts | llm_coverage_pipeline.py:256-264 | the prompt shows one to three gaps, the first ones listed, and the test holds no fence |
| CoverageLoop.SimulateFacts | llm_coverage_pipeline.py:264-275 | the simulated round stops the loop iff its coverage meets the target |
| CoverageLoop.RunFromFacts | llm_coverage_pipeline.py:242-277 | the loop keeps the rounds done and adds at most one per remaining iteration |
| CoverageLoop.RunFacts | llm_coverage_pipeline.py:241-277 | at most `max_iterations` rounds, numbered from 1; each prompt holds one to three gaps, the first listed; the loop stops for the target iff the last round reached it; it reports running out only after all iterations |
| CoverageLoop.BelowTargetUnlessReached | llm_coverage_pipeline.py:273-275 | every round but one that ended the loop for the target stayed below it |
| CoverageLoop.TrivialTargetOneRound | llm_coverage_pipeline.py:273-275 | a target of 0 or less is met by the first simulated test |

## Left out

- The language models and their dispatch are replaced by per-pass inputs:
  - `generate_verilog`, together with the unbound `model` for an unknown tag;
  - `call_openai` and its temperatures;
  - `LLMClient`.
- The compile and simulation step is replaced by the compile log and report of each pass:
  - `run.sh` and VCS;
  - the 100-second timeout and `terminate`;
  - `sh`, `run_simulation` and its dry-run mode.
- Reading and writing files is out of scope; contents are inputs and outputs of the
  model:
  - log and report files;
  - `tb.v` and `<stem>_tb.v`;
  - `gen_test_<it>.sv`.

  The `log_iter_<key>.txt` checkpoints are modelled as records of the key, the
  transcript and the status. The model keeps every checkpoint in order. On disk each
  write overwrites the file of its key, so only the last checkpoint for each key
  survives there.
- The `conversation` module's source is not part of this model. It is modelled as an
  append-only transcript, and its logging to a file is left out.
- Argument parsing, `rich` printing and console output are left out.
- Python's `float` on the report's last token is the parameter `parse`, because parsing
  floating point is outside the model.
- CoverageLoop.TotalCoverage: reads `\d+\.\d+` as an exact decimal `real`, with no
  binary rounding.
- Regex classes are ASCII only: `\d`, `\w` and IGNORECASE. `\s` and `str.split` use
  Python's whitespace set.
- Text.Render: `str(list)` always quotes with `'`, and escapes only `\\`, `'`, `\n`,
  `\r` and `\t`. Python's switch to `"` and its `\x` escapes are not modelled.
- CoveragePipeline.FileName: `Path(...).resolve()` is not modelled. The file is kept as
  the text the report gives, and the name is the text after its last `/`.
- CoveragePipeline.ReadFileLinesInRange: requires `end >= 0`. A negative end, which
  Python counts from the end of the list, is handled by the function `ReadFileLines`
  but not stated by this lemma.
- CoveragePipeline.ExcerptBounded: requires `max_lines_each >= 0`. The source's only
  call uses the default 20.
- TbGeneration.ExtractVerilogOnly: without a fence, the contract states only that the
  word `module` survives. The exact text is given by the function body, not by the
  contract.
- Refinement.VerilogLoop: the reply's module blocks are checked for existence, because
  that decides the exit. The text written to `tb.v` is not carried into the compile
  log, which is an input.
- The report and summary of the coverage pipeline are functions of the iteration and
  of the previous test. This stands in for simulating the test in a work directory.

## Findings

| source | as written | input that shows it | evidently intended | confidence | as-written member | corrected member |
|---|---|---|---|---|---|---|
| testbench_generation.py:101-102 | an unparsed DUT name becomes `<UNKNOWN_DUT>`, which is truthy, so `looks_like_tb` demands an instance of `<UNKNOWN_DUT>` | RTL with no module declaration, and a reply `module tb(); initial begin $fsdbDumpfile("w"); $fsdbDumpvars; $finish; end endmodule` | the comment at testbench_generation.py:96 says an unknown DUT must not block the check, so this reply would be kept | not executed | TbGeneration.UnparsedDutGetsScaffold | TbGeneration.UnparsedDutNotBlocked |
