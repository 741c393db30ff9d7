# Zest core, modelled in Dafny

Zest is a small testing library for Horizon worlds. Here is how it works:

- A test is created under a name.
- The world's code calls the test: it records expected events, started events, data lines and value checks.
- Once per frame, `finishFrame` runs. A test that changed since the last frame replays its whole instruction log into a coloured transcript and a status (running, pass, fail, cancel). It then hands the result to its listeners.
- A store (or runner) keeps the tests by name, tracks a "current" test and drives every test's frame.

Around this sit three helpers:

- A character grid with a movable selection, rendered as Horizon rich text.
- Greedy word wrapping into `<br>`-separated lines.
- A legend of the status marks.

The older engine (`src/Zest/ZTestImpl.ts`, `src/GridData.ts`) is modelled next to the newer one.

Everything is a pure function over immutable datatypes. An operation that mutates an object in the source returns the new object here. Listeners are numbers, and every listener call is appended to a delivery (or notice) log, so "who was told what, in which order" is part of the state.

Modules:

| module | models |
|---|---|
| `Strings` | the first-occurrence search inside `split`, `split`/`join`, global `replace` of a literal pattern, JavaScript's `length` in UTF-16 code units, decimal printing |
| `Wrappers` | `Option` |
| `Durations` | the `seconds` argument of `finishTestWithDelay`: an exact count of milliseconds and its printed decimal form |
| `TestKeys` | `src/Zest/ZTestUtils.ts`: the `###` name/key joint |
| `Transcript` | colour tags and the merge of consecutive same-coloured lines (shared by both engines, palette as a parameter) |
| `Replay`, `ReplayLemmas` | `InstructionsManager` of `src/Zest/ZTest.ts`: the instruction log and its replay |
| `Lifecycle` | `ZTestImpl` of `src/Zest/ZTest.ts`: one test's calls, frames and result delivery |
| `Registry`, `RegistryLemmas` | `ZTestsStoreImpl` (`src/Zest/ZTest.ts`) and `ZTestsRunnerImpl` (`src/Zest/ZTestsRunnerImpl.ts`), one datatype with a `Kind` |
| `LegacyReplay`, `LegacyTest` | `ExpectationsManager` and `ZTestImpl` of `src/Zest/ZTestImpl.ts` |
| `Grid`, `LegacyGrid` | `src/HorizonUtils/GridData.ts` and `src/GridData.ts` |
| `WrapText`, `DisplayLegend` | `src/HorizonUtils/WrapText.ts` and `src/HorizonUtils/DisplayLegend.ts` |

## Model

| member | source | states |
|---|---|---|
| TestKeys.JoinTestNamePlusKey | src/Zest/ZTestUtils.ts:6-28 | the joined key starts with the name followed by `###`, ends with the key, and has exactly their combined length |
| TestKeys.SplitTestNamePlusKey | src/Zest/ZTestUtils.ts:8-24 | an accepted split has a non-empty key; neither part contains `###`; and the input starts with name, `###`, key |
| TestKeys.SplitAccepts | src/Zest/ZTestUtils.ts:8-24 | the split succeeds exactly when the text holds `###` and what follows the first `###` is neither empty nor starts with another `###` |
| TestKeys.SplitJoinRoundTrip | src/Zest/ZTestUtils.ts:8-28 | joining then splitting gives back the name and the key, for a non-empty key, parts free of `###` and a name not ending in `#` |
| TestKeys.TrailingHashBreaksRoundTrip | src/Zest/ZTestUtils.ts:8-28 | the name `A#` with key `B` comes back as name `A` and key `#B`, so the round trip really needs the name not to end in `#` |
| TestKeys.ExtraPiecesDropped | src/Zest/ZTestUtils.ts:13-23 | anything after a second `###` is ignored: only the first two pieces are returned |
| TestKeys.ExampleWellFormed | src/Zest/ZTestUtils.ts:29-43 | the file's own examples: `AAA###BBB` splits into `AAA` and `BBB`; `AAA` with `VVV` joins to `AAA###VVV` |
| TestKeys.ExampleMissingKey | src/Zest/ZTestUtils.ts:35-40 | `AAA###` and `AAA` are refused, as the file's examples log |
| TestKeys.ExampleShortDelimiter | src/Zest/ZTestUtils.ts:32-34 | `AAA##BBB` (two hashes) is refused |
| Strings.IndexOf | src/Zest/ZTestUtils.ts:17 | the search for the delimiter inside `String.prototype.split`: a found position really holds the pattern |
| Strings.IndexOfIsFirst | src/Zest/ZTestUtils.ts:17 | a found position is the first occurrence, and "not found" means no occurrence anywhere |
| Strings.IndexOfAt | src/Zest/ZTestUtils.ts:17 | conversely, the first occurrence is the position returned |
| Strings.Split | src/Zest/ZTestUtils.ts:17 | splitting always yields at least one piece |
| Strings.SplitPiecesFree | src/Zest/ZTestUtils.ts:17 | no piece contains the separator |
| Strings.JoinSplit | src/Zest/ZTestUtils.ts:17 | joining the pieces with the separator gives back the original text |
| Strings.SplitFirstTwo | src/Zest/ZTestUtils.ts:17-20 | with two or more pieces, the text starts with piece 0, the separator, then piece 1 |
| Strings.ReplaceCharIsExpand | src/HorizonUtils/WrapText.ts:61-64 | replacing every occurrence of a one-character pattern equals expanding that character in place |
| Strings.ExpandCharRemoves | src/HorizonUtils/WrapText.ts:61-64 | after expansion the character is gone (if the replacement lacks it), and a text without it is unchanged |
| Strings.JsLength | src/HorizonUtils/GridData.ts:52 | JavaScript's `length` lies between the character count and twice it, and equals the character count exactly when no character lies above U+FFFF |
| Strings.JsLengthAppend | src/HorizonUtils/WrapText.ts:74-83 | the `length` of a concatenation is the sum of the lengths |
| Strings.JsLengthOne | src/HorizonUtils/GridData.ts:52 | `length === 1` holds exactly for one character at or below U+FFFF |
| Strings.JsLengthExamples | src/HorizonUtils/GridData.ts:52 | `x` has length 1, the emoji U+1F600 has length 2, and `a` followed by it has length 3 |
| Strings.NatToStringRoundTrip | src/Zest/ZTest.ts:540-547 | the decimal digits printed for a frame number read back as that number |
| Durations.SecondsText | src/Zest/ZTest.ts:618-636 | the printed duration starts with the whole seconds, has a decimal point exactly when there is a fractional part, and then does not end in `0` (JavaScript's shortest form) |
| Durations.SecondsRoundTrip | src/Zest/ZTest.ts:618-636 | the printed duration reads back as the same number of milliseconds |
| Durations.CallerValues | src/WebOnly/ZTestExamples.ts:31 | the values the callers pass print as in JavaScript: 0.8 as `0.8`, 1 as `1`, 1.25 as `1.25` |
| Transcript.WrapColorTags | src/Zest/ZTest.ts:208-224 | empty text stays empty; the default colour adds no tag; other colours wrap the text in `<color=…>` … `</color>` |
| Transcript.Groups | src/Zest/ZTest.ts:493-518 | the lines are cut into groups that flatten back to the lines, are each one colour, and whose neighbours differ in colour |
| Transcript.MergeByColor | src/Zest/ZTest.ts:493-518 | the one-pass merge with a running colour and buffer equals rendering each maximal same-coloured group inside one colour tag |
| Transcript.RenderOpensWith | src/Zest/ZTest.ts:493-518 | a transcript whose first line is coloured and not empty opens with that colour's tag followed by the line's text |
| Replay.FrameHeader | src/Zest/ZTest.ts:540-547 | the header is grey, starts with `<br>` exactly when the frame is not 0, and ends with `--- FRAME n ---` |
| Replay.LineForIsExpected | src/Zest/ZTest.ts:748-759 | green with ` \| OK` exactly when expected; otherwise yellow ` \| WARN` for a warning and red ` \| FAIL` for an expectation; the line starts with the given text |
| Replay.StepLines | src/Zest/ZTest.ts:570-759 | each instruction prints one line, except a finish while the test runs with events still expected, which prints its line, the grey header and one line per expected event; the first line is coloured exactly for `startEvent` and the three value checks |
| Replay.StepAcc | src/Zest/ZTest.ts:570-759 | `expectEvent` appends its name to the queue, `startEvent` removes the head when there is one, and nothing else touches the queue; the status only ever becomes a running FAIL or, on a finish or cancel, a done verdict; the other instructions change nothing |
| Replay.Run | src/Zest/ZTest.ts:528-552 | after the replay, the frame last seen is the last instruction's (-1 for an empty log) |
| Replay.StatusLine | src/Zest/ZTest.ts:554-565 | the status line reads `TEST STATUS: X<br>`; it is green exactly for PASS, red exactly for FAIL, and never uncoloured |
| Replay.ParseLines | src/Zest/ZTest.ts:528-568 | the status line, for the replay's final status, comes first and the replayed lines follow unchanged |
| Replay.HorizonString | src/Zest/ZTest.ts:493-518 | the status returned is the replay's, and the transcript opens with the status line in its colour |
| Replay.GetHorizonString | src/Zest/ZTest.ts:493-518 | the one-pass merge in the source gives the same text and status as the recursive definition `HorizonString` (groups rendered one by one) |
| ReplayLemmas.FrameHeaderOnChange | src/Zest/ZTest.ts:540-547 | an instruction whose frame differs from the previous one's is preceded by that frame's header |
| ReplayLemmas.NoFrameHeaderWithinFrame | src/Zest/ZTest.ts:540-547 | an instruction in the same frame as the previous one adds only its own lines |
| ReplayLemmas.RunOpensWithFrame | src/Zest/ZTest.ts:536-552 | every instruction adds at least one line, and a non-empty log's lines open with its first frame's header |
| ReplayLemmas.QueueIsSuffix | src/Zest/ZTest.ts:582-616 | the outstanding expected events are always the newest declared names, in declaration order, and at most one is removed per `startEvent`: matching is first-in first-out |
| ReplayLemmas.StartEventOutcome | src/Zest/ZTest.ts:591-616 | `startEvent` against an empty queue, the right head, or a wrong head gives the red line ending `EXPECT: No startEvent()`, the green line ending `OK: expectEvent("name")`, or the red line ending `EXPECT:  expectEvent("head")`; a non-empty queue always loses its head; only the right head keeps the status, the other two cases fail the test |
| ReplayLemmas.FinishOutcome | src/Zest/ZTest.ts:624-656 | a first finish with events still expected fails the test and ends with one red line per event in order; otherwise the status becomes done, RUNNING turning into PASS and FAIL or CANCEL kept; the queue is kept either way |
| ReplayLemmas.RunStatusWellFormed | src/Zest/ZTest.ts:554-565 | every replay ends with a status that is not INVALID, and a done status is never RUNNING |
| ReplayLemmas.CancelIsFinal | src/Zest/ZTest.ts:657-663 | a cancel makes the status done and cancelled, and a later finish keeps it cancelled |
| ReplayLemmas.EqualityOutcome | src/Zest/ZTest.ts:690-697 | an equality check's line is green/OK when it holds, else yellow/WARN or red/FAIL; only a failed non-warning check changes the status, to running-and-failed |
| ReplayLemmas.NotEmptyOutcome | src/Zest/ZTest.ts:699-718 | a non-empty value gives a green line and keeps the status; an empty one gives yellow or red and fails the test (a warning fails it too) |
| ReplayLemmas.NotEmptyExamples | src/Zest/ZTest.ts:699-718 | 0, "" and "0" and the zero vector are empty; 7, "a" and a non-zero vector are not |
| ReplayLemmas.RunAccIsAccAfter | src/Zest/ZTest.ts:528-568 | the status and queue of the replay depend only on the instructions, not on the lines printed along the way |
| ReplayLemmas.InOrderPasses | src/Zest/ZTest.ts:582-656 | expecting A then B, seeing A then B and finishing gives a done pass |
| ReplayLemmas.OutOfOrderFails | src/Zest/ZTest.ts:582-656 | expecting A then B but seeing B first fails the test |
| ReplayLemmas.DoneIsNotFinal | src/Zest/ZTest.ts:591-616 | a finished, passing test that later sees an unexpected event becomes running-and-failed again |
| Lifecycle.NewTest | src/Zest/ZTest.ts:238-246 | a new test is at frame 0, dirty, not cancelled, has no listeners, and its log holds just `startTest` at frame 0 |
| Lifecycle.NewTestRunning | src/Zest/ZTest.ts:238-246 | a new test reports a running status |
| Lifecycle.Record | src/Zest/ZTest.ts:250-337 | a recorded call appends one instruction stamped with the current frame, marks the test dirty and changes nothing else |
| Lifecycle.ResultOf | src/Zest/ZTest.ts:393-401 | the result carries the test's name and id and the replay's status, which is always well formed |
| Lifecycle.Send | src/Zest/ZTest.ts:408-416 | sending delivers the current result once to each listener in registration order and clears the dirty flag |
| Lifecycle.Cancel | src/Zest/ZTest.ts:341-347 | cancelling sets the cancelled flag and logs a cancel, but neither marks the test dirty nor notifies anyone; name, id, frame and listeners are unchanged |
| Lifecycle.CancelReportsCancel | src/Zest/ZTest.ts:341-347 | after a cancel the result's status is done and cancelled |
| Lifecycle.FinishTest | src/Zest/ZTest.ts:349-357 | finishing logs a finish and at once sends the result of the new log, which is done, to every listener in order; the test is left clean and nothing else changes |
| Lifecycle.FinishTestWithDelay | src/Zest/ZTest.ts:359-381 | the delayed finish logs its request with the given duration, marks the test dirty, tells nobody, and schedules a callback after `seconds * 1000` ms; nothing else changes |
| Lifecycle.Fire | src/Zest/ZTest.ts:359-381 | when the timer fires, a cancelled test is left untouched and silent; otherwise the callback is logged and the result of the new log, which is done, goes to every listener in order, leaving the test clean |
| Lifecycle.FinishFrame | src/Zest/ZTest.ts:383-389 | a frame advances the frame counter by one and sends the current result exactly when the test was dirty, leaving it clean; the cancelled flag, name, id, log and listeners are unchanged |
| Lifecycle.AddResultListener | src/Zest/ZTest.ts:403-406 | the listener is appended and the test is marked dirty, so the new listener hears at the next frame; nothing else about the test changes |
| Lifecycle.FrameCountsFinishFrames | src/Zest/ZTest.ts:383-389 | after any sequence of calls the frame counter has advanced by exactly the number of frames |
| Lifecycle.RunKeepsValid | src/Zest/ZTest.ts:238-389 | every log starts with `startTest` at frame 0 and its frame stamps never decrease nor run ahead of the test's frame |
| Lifecycle.QuietFramesSendNothing | src/Zest/ZTest.ts:383-389 | a clean test that only sees frames and calls that do not dirty it sends nothing |
| Lifecycle.SecondFrameSilent | src/Zest/ZTest.ts:383-389 | two frames in a row never both send: the second is always silent |
| Lifecycle.CancelledStaysCancelled | src/Zest/ZTest.ts:341-381 | once cancelled, a test stays cancelled whatever happens, and its delayed finish never fires |
| Registry.FanOut | src/Zest/ZTest.ts:188-199 | every all-results listener gets the result with whether it is the current test's; the current-only listeners get it only when it is the current test's |
| Registry.Notify | src/Zest/ZTest.ts:188-199 | a sent result appends exactly its fan-out to the notices; no result leaves everything unchanged |
| Registry.StartTest | src/Zest/ZTest.ts:125-138 | the name now maps to a fresh id; a first registration is appended to the order; the first test becomes current; nothing else changes |
| Registry.StartTestInv | src/Zest/ZTest.ts:125-138 | starting a test keeps the registry consistent: distinct names in order, one id per name, every id known |
| Registry.GetCurrentTest | src/Zest/ZTest.ts:156-159 | there is a current test exactly when a current name is set, is not empty, and is registered; it is that name's test |
| Registry.GetTest | src/Zest/ZTest.ts:140-142 | a test is found exactly when the name is registered, and it is that name's test |
| Registry.SetCurrentTest | src/Zest/ZTest.ts:144-154 | it returns what `getTest` finds; a found test becomes current, so `getCurrentTest` then finds it (none for the empty name) and its results count as current; an unknown name changes nothing |
| Registry.GetTestResult | src/Zest/ZTest.ts:176-178 | an unregistered name throws a `TypeError`; a registered one gives its test's result, with that test's id, name and replayed status |
| Registry.AddCurrentResultListener | src/Zest/ZTest.ts:180-182 | the listener is appended to the current-only list and consistency is kept |
| Registry.AddResultListener | src/Zest/ZTest.ts:184-186 | the listener is appended to the all-results list (the store only) and consistency is kept |
| Registry.TestCall | src/Zest/ZTest.ts:188-199 | a call on a held test updates that test only, and a result it sends is fanned out to the registry's listeners; the name map, order, current test, listener lists and id counter are unchanged |
| Registry.FrameStep | src/Zest/ZTest.ts:163-172 | one test's frame runs; the step returns its result exactly when that test sent one and is the current test; its fan-out is appended to the notices exactly when the test was dirty |
| Registry.FrameNames | src/Zest/ZTest.ts:163-172 | the loop over any registered names changes only the tests and the notices |
| Registry.FinishFrame | src/Zest/ZTest.ts:163-172 | a registry frame changes only the tests and the notices, and keeps the registry consistent |
| Registry.FinishFrameLoop | src/Zest/ZTest.ts:163-172 | the loop over the registered names computes the same registry and result as the recursive definition `FinishFrame` (one `FrameStep` per name in order) |
| Registry.EmptyInv | src/Zest/ZTest.ts:116-119 | an empty store or runner is consistent |
| RegistryLemmas.RestartReplacesTest | src/Zest/ZTest.ts:125-138 | restarting a name gives it a new id; the store cancels the old test without notifying; the runner leaves it alone |
| RegistryLemmas.FrameVisitsEachOnce | src/Zest/ZTest.ts:163-172 | a registry frame runs exactly one frame on every registered test and leaves replaced tests untouched |
| RegistryLemmas.FrameNamesResult | src/Zest/ZTest.ts:163-172 | over distinct names, the frame returns a result exactly when the current test is among them and dirty, and it is that test's result |
| RegistryLemmas.FrameReturnsCurrent | src/Zest/ZTest.ts:163-172 | the registry frame returns the current test's result exactly when that test is registered and dirty |
| RegistryLemmas.FrameResultReadsBack | src/Zest/ZTest.ts:163-178 | the result a frame returns is what `getTestResult` gives for the current name afterwards, while that name still belongs to the current test |
| RegistryLemmas.StartedTestIsFound | src/Zest/ZTest.ts:125-142 | a started test is found under its name, and `getTestResult` gives a result carrying that name and the new id |
| RegistryLemmas.FrameNamesNotices | src/Zest/ZTest.ts:163-172 | the loop appends, in visiting order, the fan-out of each dirty test's result; clean tests add nothing |
| RegistryLemmas.FinishFrameNotices | src/Zest/ZTest.ts:163-199 | a registry frame appends the fan-outs of the dirty registered tests in registration order |
| RegistryLemmas.SecondFrameSilent | src/Zest/ZTest.ts:163-172 | a second registry frame in a row returns nothing and notifies nobody |
| RegistryLemmas.SetCurrentRoutesResult | src/Zest/ZTest.ts:144-172 | after choosing a test as current, the next frame returns that test's result exactly when it is dirty, and a non-empty name reads back as current |
| RegistryLemmas.RunnerNotifiesOnlyCurrent | src/Zest/ZTestsRunnerImpl.ts:69-80 | the runner forwards a result only to its current-only listeners, and only when it is the current test's |
| RegistryLemmas.ReplacedIdUnregistered | src/Zest/ZTest.ts:125-138 | after a restart no name maps to the replaced id any more |
| RegistryLemmas.RestartLeavesStaleCurrent | src/Zest/ZTest.ts:125-172 | restarting the current test keeps the old id as current: the new test reads back as current, but frames never return its result |
| LegacyReplay.NewManager | src/Zest/ZTestImpl.ts:51-57 | a new manager's log is one `startTest` at frame 0, and its transcript is frame 0's header and that line |
| LegacyReplay.StepLines | src/Zest/ZTestImpl.ts:125-179 | each instruction prints one line, except `finishTest` with expectations left, which adds the grey header and one line per expectation; only `startEvent`'s line is coloured |
| LegacyReplay.Run | src/Zest/ZTestImpl.ts:113-124 | after the replay, the frame last seen is the last instruction's (-1 for an empty log) |
| LegacyReplay.RunOpensWithFrame | src/Zest/ZTestImpl.ts:113-124 | every instruction adds at least one line, and a non-empty log's lines open with its first frame's header |
| LegacyReplay.HorizonString | src/Zest/ZTestImpl.ts:59-80 | a non-empty log's transcript opens with the grey tag and its first frame's header |
| LegacyReplay.Push | src/Zest/ZTestImpl.ts:84-101 | pushing appends one instruction, and the replay of the longer log is one more step of the shorter one's |
| LegacyReplay.GetHorizonString | src/Zest/ZTestImpl.ts:59-80 | the one-pass merge equals rendering the maximal same-coloured groups in the older colours |
| LegacyReplay.StartEventOutcome | src/Zest/ZTestImpl.ts:139-161 | the older `startEvent` always pops the oldest expectation: green OK on the same name, red mismatch on another, red "no startEvent" on an empty queue |
| LegacyReplay.FinishOutcome | src/Zest/ZTestImpl.ts:162-179 | the older finish prints `finishTest()`, the grey header exactly when expectations remain, then one red line per remaining expectation in order |
| LegacyReplay.FrameHeaderOnChange | src/Zest/ZTestImpl.ts:113-138 | a frame header is emitted exactly when the frame differs from the previous instruction's |
| LegacyTest.NewTest | src/Zest/ZTestImpl.ts:205-208 | a new test has one `startTest`, no listener, and waits for its first update without being dirty |
| LegacyTest.ResultOf | src/Zest/ZTestImpl.ts:214-219 | the result carries the manager's test name, and its text opens with the grey header of the first frame |
| LegacyTest.AddResultListener | src/Zest/ZTestImpl.ts:210-212 | the single listener is replaced, and nothing else changes |
| LegacyTest.StartEvent | src/Zest/ZTestImpl.ts:223-226 | `startEvent` is logged at the current frame and marks the test dirty |
| LegacyTest.AppendData | src/Zest/ZTestImpl.ts:228-230 | `appendData` marks the test dirty but records nothing, so the result is unchanged |
| LegacyTest.ExpectEventOnce | src/Zest/ZTestImpl.ts:265-271 | `expectEventOnce` is logged at the current frame and does not mark the test dirty |
| LegacyTest.FinishTest | src/Zest/ZTestImpl.ts:232-238 | finishing logs a finish, marks the test dirty and sends the new result to the listener at once |
| LegacyTest.FinishFrame | src/Zest/ZTestImpl.ts:240-261 | a frame advances the counter and reports exactly when the test is dirty or not yet reported; it clears only the first-update flag |
| LegacyTest.ReportsAtMostFrames | src/Zest/ZTestImpl.ts:240-261 | a test reports at most once per frame |
| LegacyTest.DirtyStaysDirty | src/Zest/ZTestImpl.ts:240-261 | a dirty test is never cleaned, so it reports at every frame from then on |
| LegacyTest.QuietTestReportsOnce | src/Zest/ZTestImpl.ts:240-261 | a clean test that only sees frames and quiet calls reports once, at its first frame, and never again |
| LegacyTest.FirstFrameReports | src/Zest/ZTestImpl.ts:240-261 | a new test's first frame reports its result; the second frame is silent |
| LegacyTest.ColorExpectationsNotZero | src/Zest/ZTestImpl.ts:356-373 | a pass is green `key : actual`, a failure red `EXPECTED key : expected`, each after its tag and closed by `</color>` |
| LegacyTest.ColorWarnNotZero | src/Zest/ZTestImpl.ts:375-392 | a pass is green `key : actual`, a failure yellow `WARN EXPECTED key : expected` |
| LegacyTest.ColorExpectationsNotEqual | src/Zest/ZTestImpl.ts:394-411 | a pass is green `key : actual`, a failure red `EXPECTED key : expected<br>ACTUAL key : actual`; either way the line ends with the key and the actual value |
| LegacyTest.ColorWarnNotEqual | src/Zest/ZTestImpl.ts:413-430 | a pass is green `key : actual`, a failure yellow `WARN EXPECTED key : expected<br>ACTUAL key : actual`; either way the line ends with the key and the actual value |
| LegacyTest.PassingLinesAgree | src/Zest/ZTestImpl.ts:356-430 | the four builders print the same line for a pass, whatever the expected value |
| LegacyTest.WarnIsYellowExpectation | src/Zest/ZTestImpl.ts:356-430 | a failing warning is the failing expectation's line, in yellow with `WARN ` in front |
| LegacyTest.NotEqualAddsActual | src/Zest/ZTestImpl.ts:356-411 | the not-equal line is the not-zero line with the key and actual value added, and the not-zero line ignores the actual value |
| Grid.NewGrid | src/HorizonUtils/GridData.ts:33-37 | a new grid has the given size, every cell holds `-`, and the top-left cell is selected |
| Grid.JsRem | src/HorizonUtils/GridData.ts:96-117 | JavaScript's `%` agrees with Dafny's on non-negative operands and is at most zero on negative ones |
| Grid.PosForDirection | src/HorizonUtils/GridData.ts:96-117 | a move from a cell inside the grid stays inside; up and down keep the column, down goes to the next row and from the last row to the first, up to the previous row and from the first to the last |
| Grid.Move | src/HorizonUtils/GridData.ts:47-49 | a move changes only the selection, and keeps it inside the grid |
| Grid.Select | src/HorizonUtils/GridData.ts:43-45 | selecting changes only the selection, to the given cell |
| Grid.RightIsNextInReadingOrder | src/HorizonUtils/GridData.ts:96-117 | moving right selects the next cell in reading order, wrapping from the last cell to the first |
| Grid.LeftIsPreviousInReadingOrder | src/HorizonUtils/GridData.ts:96-117 | moving left selects the previous cell in reading order, wrapping from the first cell to the last |
| Grid.MovesUndo | src/HorizonUtils/GridData.ts:96-117 | right then left, left then right, down then up and up then down each return to the starting cell |
| Grid.SetCharAt | src/HorizonUtils/GridData.ts:51-59 | only a text of JavaScript length one, a single character at or below U+FFFF, is written; anything else, an emoji included, is logged and leaves the grid; a bad row raises a type error |
| Grid.SetCharAtWritesOneCell | src/HorizonUtils/GridData.ts:51-59 | a write changes exactly the addressed cell and no other |
| Grid.CharLabelForRow | src/HorizonUtils/GridData.ts:19-21 | row n is labelled with the character n places after `A` |
| Grid.CharLabelForColumn | src/HorizonUtils/GridData.ts:23-25 | columns 0 to 17 are labelled from `a` and later columns from `A` onwards by their own number |
| Grid.ColumnLabelsRepeatAt32 | src/HorizonUtils/GridData.ts:23-25 | the first 32 column labels are distinct, and column 32 is labelled `a` again, like column 0 |
| Grid.SelectRedrawsTwoRows | src/HorizonUtils/GridData.ts:61-94 | changing the selection changes the text of no row except the old and the new selected rows |
| Grid.ColumnHeadersLoop | src/HorizonUtils/GridData.ts:127-138 | the header loop computes the column labels line of the recursive definition `ColumnHeaders` |
| Grid.RowLoop | src/HorizonUtils/GridData.ts:61-94 | the row loop computes one row's text: the row label, then the cells, with the selected cell highlighted |
| Grid.GetText | src/HorizonUtils/GridData.ts:61-94 | the nested loops compute the recursive definition `Text` of the whole grid: header, then one line per row |
| LegacyGrid.SetCharAtAsWritten | src/GridData.ts:62-70 | the older guard writes only texts of JavaScript length above one, a lone emoji included; the empty text or one character at or below U+FFFF is logged and not written |
| LegacyGrid.SingleCharacterRefused | src/GridData.ts:62-70 | `x` is refused and `xy` and the emoji U+1F600 are written by the older grid, the reverse of the newer one |
| LegacyGrid.CorrectedKeepsSingleCharacters | src/HorizonUtils/GridData.ts:51-59 | with the corrected guard, a grid whose cells all have JavaScript length one keeps that property |
| LegacyGrid.LowercaseLetter | src/GridData.ts:109-111 | n maps to the letter n places after `a` |
| LegacyGrid.UppercaseLetter | src/GridData.ts:113-115 | n maps to the letter n places after `A` |
| LegacyGrid.LettersDistinct | src/GridData.ts:109-115 | different numbers give different letters |
| LegacyGrid.ColumnLettersInOrder | src/GridData.ts:101-107 | the older header has one letter per column, `a`, `b`, … in order |
| LegacyGrid.UnselectedRowIsPlain | src/GridData.ts:72-91 | a row other than the selected one prints its cells as they are |
| WrapText.WordStep | src/HorizonUtils/WrapText.ts:74-84 | an empty word changes nothing; otherwise the word is placed after a separator chosen by the line's count of UTF-16 code units; a word at least the width long resets the count to 0, a word moved to a new line starts it at its own length, and a word placed on the current line adds its length; the count never exceeds the width |
| WrapText.NoWidthOnlyBreaksLines | src/HorizonUtils/WrapText.ts:56-59 | with a width below 1, only newlines turn into `<br>`; the output has no newline; text without newlines comes back unchanged |
| WrapText.NormalizedHasNoNewlinesOrTabs | src/HorizonUtils/WrapText.ts:61-64 | after normalisation no newline or tab remains |
| WrapText.OutputEndsWithBreak | src/HorizonUtils/WrapText.ts:66-91 | with a positive width the wrapped text always ends with `<br>` |
| WrapText.WordsKeptInOrder | src/HorizonUtils/WrapText.ts:70-88 | the output is the non-empty words in order, each preceded by nothing, a space or `<br>`, and a word at least the width long always starts a new line |
| WrapText.FitsOnOneLine | src/HorizonUtils/WrapText.ts:70-88 | short words whose letters fit in the width are joined by single spaces on one line |
| WrapText.SpacesNotCounted | src/HorizonUtils/WrapText.ts:70-88 | the line count counts letters only: `aa aa` fits a width of 4 although it is 5 characters long |
| WrapText.AstralCountsTwice | src/HorizonUtils/WrapText.ts:74-83 | words are measured in UTF-16 code units: at width 2 a lone emoji is too long and gets a line of its own, while a letter is placed with count 1 |
| WrapText.WrapWordsLoop | src/HorizonUtils/WrapText.ts:70-88 | the word loop computes the recursive definition `WrapWords`, one `WordStep` per word |
| WrapText.WrapTextLoop | src/HorizonUtils/WrapText.ts:56-91 | the whole function's loops compute the recursive definition `WrapTextWithWidth`: normalise, split into segments, wrap each |
| DisplayLegend.WrapTags | src/HorizonUtils/DisplayLegend.ts:6-8 | the mark sits between the fixed-width opening tag and the dash-closing tag, unchanged |
| DisplayLegend.Entries | src/HorizonUtils/DisplayLegend.ts:9-14 | the legend has six entries, one per status |
| DisplayLegend.LegendOneStatusPerLine | src/HorizonUtils/DisplayLegend.ts:9-16 | with newline-free marks, the legend with breaks is the entries joined by `<br>` after the alignment tag |

## Left out

- Console output, `setTimeout` and the clock are left out. The delayed finish is split into `Lifecycle.FinishTestWithDelay`, which schedules, and `Lifecycle.Fire`, which the caller applies when the timer fires.
- Test ids come from `Math.random` in the source. Here they come from a counter in the registry, which is all the code relies on: ids are distinct.
- Listeners are JavaScript closures in the source. Here they are numbers, and each call is recorded in a log. The store's own listener on each test (`Registry.Forwarder`) is modelled by `Registry.TestCall` forwarding the sent result.
- `Vec3` has floating-point components in the source. Here it has integer ones; equality stays component-wise.
- `Object.entries` visits integer-like keys first in JavaScript. Here tests are visited in first-registration order, which is JavaScript's order for every other name.
- `CreateZTest` is imported by `src/Zest/ZTestsRunnerImpl.ts` and is not part of this model. The runner is modelled as creating the same test as the store.
- `CharForPassStatus` is not part of this model. The legend's five status marks are a parameter.
- The demonstration code is left out: the sample call of `src/HorizonUtils/WrapText.ts:5-50` and the example logs of `src/Zest/ZTestUtils.ts:29-43`. Their outcomes are stated as lemmas instead.
- The value checks of `src/Zest/ZTestImpl.ts:275-343` have commented-out bodies, so they do nothing and are not modelled. The four `_color*` builders they would have used are modelled.
- Characters are UTF-16 code units in JavaScript and Unicode scalar values in Dafny. Every `length` the source tests is modelled by `Strings.JsLength`, which counts two units for a character above U+FFFF. Strings holding a lone surrogate, which JavaScript allows, cannot be written here. The label functions require codes below 0xD800, where the two agree.
- `Grid.PosForDirection`: a grid with zero rows or columns (where JavaScript's `%` gives NaN) and fractional sizes are not modelled. Moves require a non-empty grid.
- `Grid.SetCharAt`: a write to a column outside a valid row extends the JavaScript array. Here it leaves the row unchanged, because a rendered row only shows its first `colCount` cells.
- `Grid.GetText` and the rendering functions require labelled sizes (codes below 0xD800). They do not model the `gridData` array being shorter than the stated size.
- `Lifecycle.Cancel`: the source's cancel neither marks the test dirty nor notifies listeners. The model follows that, so listeners only see the cancelled status at a later send.
- Lifecycle.FinishTestWithDelay: the duration is a non-negative number of whole milliseconds, i.e. at most three decimal places. Negative, NaN, infinite and finer values are not modelled, nor exponent forms such as `1e-7`, which JavaScript prints differently. The callers pass `0.8` and `1`. `setTimeout` rounding a fractional millisecond count is not modelled either.
- Lifecycle.Fire: takes the same durations as `Lifecycle.FinishTestWithDelay`, with the same limits.
- Registry.GetTest: test names are looked up in a plain JavaScript object in the source. Names of `Object.prototype` members are not modelled. `startTest("toString")` throws when it calls the inherited function's `cancelTest`. `getTest("constructor")` finds the inherited function, so `setCurrentTest("constructor")` records an undefined test id. `startTest("__proto__")` replaces the prototype, and the test is never visited by `finishFrame`. Here every name is an ordinary key.
- Grid.Select: `selectCellPosition` keeps the caller's position object by reference, in both grids, so a later change to that object by the caller moves the selection. Here positions are values, and the selection changes only through the grid's own operations.
- WrapText.WrapTextWithWidth: the width is an integer. JavaScript takes any number. A fractional width `w` acts like `ceil(w)` in the too-long test and like `floor(w)` in the fits test, so it matches no integer width. A `NaN` or `Infinity` width fails the `< 1` test and then never breaks a line. Neither case is modelled.
- `TestKeys.SplitJoinRoundTrip` requires a test name that does not end in `#`. Without that requirement the round trip fails, as `TestKeys.TrailingHashBreaksRoundTrip` shows.

## Findings

| source | as written | input that shows it | evidently intended | confidence | as-written member | corrected member |
|---|---|---|---|---|---|---|
| src/GridData.ts:62-70 | `setCharAt` writes only when `char.length > 1`, and logs "expected 1 char value" otherwise | a single character `x` is refused, while the two-character `xy` and a lone emoji U+1F600 (`length` 2) are written | write exactly when `char.length === 1`, as the newer `src/HorizonUtils/GridData.ts:51-59` does | not executed | LegacyGrid.SetCharAtAsWritten (shown by LegacyGrid.SingleCharacterRefused) | Grid.SetCharAt (single-character cells kept, LegacyGrid.CorrectedKeepsSingleCharacters) |
