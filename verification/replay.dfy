/**
 * The instruction log of one test and its replay (`InstructionsManager` in
 * `src/Zest/ZTest.ts`): every call on a test is recorded as a tagged
 * instruction stamped with its frame, and the whole log is replayed in one
 * pass into coloured transcript lines and a test status.
 */
module Replay {
  import opened Wrappers
  import opened Strings
  import opened Transcript
  import opened Durations

  datatype PassStatus = Running | Pass | Fail | Invalid | Cancel

  datatype Status = Status(done: bool, passStatus: PassStatus)

  /** A vector with integer components; equality is structural. */
  datatype Vec3 = Vec3(x: int, y: int, z: int)

  const ZeroVec: Vec3 := Vec3(0, 0, 0)

  /** What `expectNotEmpty` may be given: a number, a string or a vector. */
  datatype Value = Num(n: int) | Str(s: string) | Vec(v: Vec3)

  datatype Op =
    | StartTest(testName: string)
    | ExpectEvent(eventName: string)
    | StartEvent(eventName: string)
    | AppendData(str1: string, str2: Option<string>, str3: Option<string>)
    | AppendDataKeyValue(key: string, value: string)
    | ExpectEqual(key: string, value: string, expectedVal: string, isWarn: bool)
    | ExpectNotEqual(key: string, value: string, expectedVal: string, isWarn: bool)
    | ExpectNotEmpty(key: string, item: Value, isWarn: bool)
    | FinishTest
    | FinishTestWithDelay(seconds: Seconds)
    | FinishTestWithDelayCallback(seconds: Seconds)
    | CancelTest

  /** One recorded call, with the frame that was current when it was made. */
  datatype Instruction = Instruction(op: Op, frame: nat)

  /** What the replay carries from one instruction to the next: the status and the outstanding expected events, oldest first. */
  datatype Acc = Acc(status: Status, expects: seq<string>)

  const InitialAcc: Acc := Acc(Status(false, Running), [])

  function Quote(s: string): string {
    "\"" + s + "\""
  }

  /** A JavaScript optional string is truthy when present and non-empty. */
  predicate Truthy(o: Option<string>) {
    o.Some? && o.value != ""
  }

  /** `${o}` for an optional string: an absent one prints as `undefined`. */
  function OptText(o: Option<string>): string {
    o.GetOr("undefined")
  }

  /** The frame separator: grey `--- FRAME n ---`, with `<br>` in front for every frame but 0. */
  function FrameHeader(n: nat): (l: Line)
    ensures l.color == Grey
    ensures n != 0 <==> StartsWith(l.text, "<br>")
    ensures EndsWith(l.text, "--- FRAME " + NatToString(n) + " ---")
  {
    var core := "--- FRAME " + NatToString(n) + " ---";
    if n != 0 then
      assert ("<br>" + core)[..4] == "<br>";
      assert ("<br>" + core)[4..] == core;
      Line("<br>" + core, Grey)
    else
      assert core[..4] != "<br>" by { assert core[0] == '-'; }
      Line(core, Grey)
  }

  /**
   * `_lineForIsExpected`: green and `OK` when the check holds, otherwise yellow
   * and `WARN` for a warning check or red and `FAIL` for a hard one.
   */
  function LineForIsExpected(isExpected: bool, isWarn: bool, text: string): (l: Line)
    ensures l.color == Green <==> isExpected
    ensures l.color == Yellow <==> !isExpected && isWarn
    ensures l.color == Red <==> !isExpected && !isWarn
    ensures isExpected ==> EndsWith(l.text, " | OK")
    ensures !isExpected && isWarn ==> EndsWith(l.text, " | WARN")
    ensures !isExpected && !isWarn ==> EndsWith(l.text, " | FAIL")
    ensures StartsWith(l.text, text)
  {
    var suffix := if isExpected then " | OK" else if isWarn then " | WARN" else " | FAIL";
    var t := text + suffix;
    assert t[..|text|] == text && t[|t| - |suffix|..] == suffix;
    Line(t, if isExpected then Green else if isWarn then Yellow else Red)
  }

  /** `expectNotEmpty`'s test: a non-zero number, a string other than "" and "0", a vector other than zero. */
  predicate IsNotEmpty(v: Value) {
    match v
    case Num(n) => n != 0
    case Str(s) => s != "" && s != "0"
    case Vec(w) => w != ZeroVec
  }

  /** The line `startEvent(name)` produces against the outstanding expectations `expects`. */
  function MatchEventLine(name: string, expects: seq<string>): Line {
    var head := "startEvent(" + Quote(name) + ")<br>| ";
    if |expects| > 0 then
      if name == expects[0] then Line(head + "OK: expectEvent(" + Quote(expects[0]) + ")", Green)
      else Line(head + "EXPECT:  expectEvent(" + Quote(expects[0]) + ")", Red)
    else Line(head + "EXPECT: No startEvent()", Red)
  }

  /** The red line reporting an expectation still outstanding at finish. */
  function UnfulfilledLine(name: string): Line {
    Line("expectEvent(" + Quote(name) + ")<br>| GOT: No startEvent(" + Quote(name) + ")", Red)
  }

  /** A finish lists the outstanding expectations only while the test is running and some remain. */
  predicate ReportsUnfulfilled(acc: Acc) {
    !acc.status.done && |acc.expects| > 0
  }

  /** The lines of `finishTest` or of the delayed-finish callback, after its own first line. */
  function FinishLines(first: Line, acc: Acc): seq<Line> {
    if ReportsUnfulfilled(acc) then
      [first, Line("<br>Finished with unfulfilled expects:", Grey)]
        + seq(|acc.expects|, k requires 0 <= k < |acc.expects| => UnfulfilledLine(acc.expects[k]))
    else [first]
  }

  /**
   * The status after a finish: a running test with outstanding expectations
   * fails; otherwise RUNNING turns into PASS and any other verdict is kept.
   */
  function FinishStatus(acc: Acc): Status {
    if ReportsUnfulfilled(acc) then Status(true, Fail)
    else Status(true, if acc.status.passStatus == Running then Pass else acc.status.passStatus)
  }

  /** `appendData` prints as many arguments as the truthiness of the third and second one call for. */
  function AppendDataText(str1: string, str2: Option<string>, str3: Option<string>): string {
    if Truthy(str3) then
      "appendData(" + Quote(str1) + ", " + Quote(OptText(str2)) + ", " + Quote(OptText(str3)) + ")"
    else if Truthy(str2) then
      "appendData(" + Quote(str1) + ", " + Quote(OptText(str2)) + ")"
    else
      "appendData(" + Quote(str1) + ")"
  }

  /** Whether an equality check holds: exact string identity, negated for `expectNotEqual`. */
  predicate EqualityHolds(isEqualWanted: bool, value: string, expectedVal: string) {
    if isEqualWanted then value == expectedVal else value != expectedVal
  }

  /** `_lineForEquality`. */
  function LineForEquality(fn: string, key: string, value: string, expectedVal: string, isEqualWanted: bool, isWarn: bool): Line {
    LineForIsExpected(EqualityHolds(isEqualWanted, value, expectedVal), isWarn,
      fn + "(" + Quote(key) + ", " + Quote(value) + ", " + Quote(expectedVal) + ")")
  }

  /** `parseLinesForInstruction`, part one: the lines one instruction contributes. */
  function StepLines(op: Op, acc: Acc): (ls: seq<Line>)
    ensures (op.FinishTest? || op.FinishTestWithDelayCallback?) && ReportsUnfulfilled(acc) ==> |ls| == |acc.expects| + 2
    ensures !((op.FinishTest? || op.FinishTestWithDelayCallback?) && ReportsUnfulfilled(acc)) ==> |ls| == 1
    ensures ls[0].color != Default <==> op.StartEvent? || op.ExpectEqual? || op.ExpectNotEqual? || op.ExpectNotEmpty?
  {
    match op
    case StartTest(name) => [Line("startTest(" + Quote(name) + ")", Default)]
    case ExpectEvent(name) => [Line("expectEvent(" + Quote(name) + ")", Default)]
    case StartEvent(name) => [MatchEventLine(name, acc.expects)]
    case FinishTestWithDelay(sec) => [Line("finishTestWithDelay(" + SecondsText(sec) + ")", Default)]
    case FinishTest => FinishLines(Line("finishTest()", Default), acc)
    case FinishTestWithDelayCallback(sec) =>
      FinishLines(Line("finishTestWithDelay(" + SecondsText(sec) + ") --> Delay Done", Default), acc)
    case CancelTest => [Line("cancelTest()", Default)]
    case AppendData(s1, s2, s3) => [Line(AppendDataText(s1, s2, s3), Default)]
    case AppendDataKeyValue(k, v) => [Line("appendData(" + Quote(k) + ", " + Quote(v) + ")", Default)]
    case ExpectEqual(k, v, e, w) => [LineForEquality("expectEqual", k, v, e, true, w)]
    case ExpectNotEqual(k, v, e, w) => [LineForEquality("expectNotEqual", k, v, e, false, w)]
    case ExpectNotEmpty(k, item, w) => [LineForIsExpected(IsNotEmpty(item), w, "expectNotEmpty(" + Quote(k) + ", value)")]
  }

  /** The instructions that can change the status or the queue of outstanding expectations. */
  predicate TouchesAcc(op: Op) {
    || op.ExpectEvent? || op.StartEvent? || op.FinishTest? || op.FinishTestWithDelayCallback? || op.CancelTest?
    || op.ExpectEqual? || op.ExpectNotEqual? || op.ExpectNotEmpty?
  }

  /**
   * `parseLinesForInstruction`, part two: the instruction's effect on the
   * status and on the queue of outstanding expectations.
   */
  function StepAcc(op: Op, acc: Acc): (a: Acc)
    ensures a.expects == if op.ExpectEvent? then acc.expects + [op.eventName]
      else if op.StartEvent? && |acc.expects| > 0 then acc.expects[1..]
      else acc.expects
    ensures a.status == acc.status || a.status == Status(false, Fail)
      || (a.status.done && (op.FinishTest? || op.FinishTestWithDelayCallback? || op.CancelTest?))
    ensures !TouchesAcc(op) ==> a == acc
  {
    match op
    case ExpectEvent(name) => acc.(expects := acc.expects + [name])
    case StartEvent(name) =>
      if |acc.expects| > 0 then
        if name == acc.expects[0] then acc.(expects := acc.expects[1..])
        else Acc(Status(false, Fail), acc.expects[1..])
      else acc.(status := Status(false, Fail))
    case FinishTest => acc.(status := FinishStatus(acc))
    case FinishTestWithDelayCallback(_) => acc.(status := FinishStatus(acc))
    case CancelTest => acc.(status := Status(true, Cancel))
    case ExpectEqual(k, v, e, w) =>
      if LineForEquality("expectEqual", k, v, e, true, w).color == Red then acc.(status := Status(false, Fail)) else acc
    case ExpectNotEqual(k, v, e, w) =>
      if LineForEquality("expectNotEqual", k, v, e, false, w).color == Red then acc.(status := Status(false, Fail)) else acc
    case ExpectNotEmpty(_, item, _) => if IsNotEmpty(item) then acc else acc.(status := Status(false, Fail))
    case _ => acc
  }

  /** The replay so far: the lines produced, the accumulator, and the frame of the last instruction (-1 before any). */
  datatype ReplayState = ReplayState(lines: seq<Line>, acc: Acc, frame: int)

  /** One instruction of the replay: a frame header when its frame differs from the previous one, then its own lines. */
  function Advance(st: ReplayState, instr: Instruction): ReplayState {
    var header := if st.frame != instr.frame then [FrameHeader(instr.frame)] else [];
    ReplayState(st.lines + header + StepLines(instr.op, st.acc), StepAcc(instr.op, st.acc), instr.frame)
  }

  /** The replay of a whole log, one instruction after the other. */
  function Run(log: seq<Instruction>): (st: ReplayState)
    ensures st.frame == if |log| == 0 then -1 else log[|log| - 1].frame
    decreases |log|
  {
    if |log| == 0 then ReplayState([], InitialAcc, -1)
    else Advance(Run(log[..|log| - 1]), log[|log| - 1])
  }

  function PassStatusName(p: PassStatus): string {
    match p
    case Running => "RUNNING"
    case Pass => "PASS"
    case Fail => "FAIL"
    case Invalid => "INVALID"
    case Cancel => "CANCEL"
  }

  /** The status line put in front of the transcript: green for PASS, red for FAIL, grey otherwise. */
  function StatusLine(s: Status): (l: Line)
    ensures l.color == Green <==> s.passStatus == Pass
    ensures l.color == Red <==> s.passStatus == Fail
    ensures l.color != Default
    ensures l.text == "TEST STATUS: " + PassStatusName(s.passStatus) + "<br>"
  {
    Line("TEST STATUS: " + PassStatusName(s.passStatus) + "<br>",
         if s.passStatus == Pass then Green else if s.passStatus == Fail then Red else Grey)
  }

  /** `parseLinesForInstructions`: the status line, then the replayed lines; and the final status. */
  function ParseLines(log: seq<Instruction>): (r: (seq<Line>, Status))
    ensures r.1 == Run(log).acc.status
    ensures |r.0| == |Run(log).lines| + 1 && r.0[0] == StatusLine(r.1) && r.0[1..] == Run(log).lines
  {
    var st := Run(log);
    ([StatusLine(st.acc.status)] + st.lines, st.acc.status)
  }

  /** `getHorizonString`: the rendered transcript and the status. */
  function HorizonString(log: seq<Instruction>): (r: (string, Status))
    ensures r.1 == Run(log).acc.status
    ensures StartsWith(r.0, StatusOpening(r.1))
  {
    var pl := ParseLines(log);
    StatusOpensTranscript(pl.0, pl.1);
    (Render(CurrentPalette, pl.0), pl.1)
  }

  /** How a transcript reporting status `s` begins: the status line's colour tag and its text. */
  function StatusOpening(s: Status): string {
    "<color=" + ColorCode(CurrentPalette, StatusLine(s).color) + ">" + StatusLine(s).text
  }

  lemma StatusOpensTranscript(lines: seq<Line>, s: Status)
    requires |lines| > 0 && lines[0] == StatusLine(s)
    ensures StartsWith(Render(CurrentPalette, lines), StatusOpening(s))
  {
    assert lines[0].text[0] == 'T';
    RenderOpensWith(CurrentPalette, lines);
  }

  /**
   * `getHorizonString` as the source computes it: replay the log, then merge
   * the lines by colour in one pass.
   */
  method GetHorizonString(log: seq<Instruction>) returns (text: string, status: Status)
    ensures (text, status) == HorizonString(log)
  {
    var (lines, st) := ParseLines(log);
    text := MergeByColor(CurrentPalette, lines);
    status := st;
  }
}
