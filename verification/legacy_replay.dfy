/**
 * The older engine's instruction log (`ExpectationsManager` in
 * `src/Zest/ZTestImpl.ts`): four kinds of instruction, a first-in first-out
 * queue of `expectEventOnce` names, and a transcript without a status. The
 * frame header and the colour merge are the ones the newer engine uses; only
 * the palette differs.
 */
module LegacyReplay {
  import opened Strings
  import opened Transcript
  import Replay

  datatype Op =
    | StartTest
    | FinishTest
    | ExpectEventOnce(eventName: string)
    | StartEvent(eventName: string)

  datatype Instruction = Instruction(op: Op, frame: nat)

  /** An `ExpectationsManager`: the test name it prints and its log. */
  datatype Manager = Manager(testName: string, log: seq<Instruction>)

  /** The replay so far: lines, outstanding expectations (oldest first), and the last frame seen (-1 before any). */
  datatype State = State(lines: seq<Line>, expects: seq<string>, frame: int)

  /** `startEvent`'s line against the outstanding expectations. */
  function MatchEventLine(name: string, expects: seq<string>): Line {
    var head := "startEvent(" + Replay.Quote(name) + ") | ";
    if |expects| > 0 then
      if name == expects[0] then Line(head + "OK: expectEventOnce(" + Replay.Quote(expects[0]) + ")", Green)
      else Line(head + "EXPECT:  expectEventOnce(" + Replay.Quote(expects[0]) + ")", Red)
    else Line(head + "EXPECT: No startEvent()", Red)
  }

  /** The red line for an expectation still outstanding at `finishTest`. */
  function UnfulfilledLine(name: string): Line {
    Line(".... expectEventOnce(" + Replay.Quote(name) + ") | GOT: No startEvent()", Red)
  }

  /** The lines of one instruction; `startTest` prints the manager's name. */
  function StepLines(testName: string, op: Op, expects: seq<string>): (ls: seq<Line>)
    ensures op.FinishTest? ==> |ls| == (if |expects| > 0 then |expects| + 2 else 1)
    ensures !op.FinishTest? ==> |ls| == 1
    ensures ls[0].color != Default <==> op.StartEvent?
  {
    match op
    case StartTest => [Line("startTest(" + Replay.Quote(testName) + ")", Default)]
    case ExpectEventOnce(name) => [Line("expectEventOnce(" + Replay.Quote(name) + ")", Default)]
    case StartEvent(name) => [MatchEventLine(name, expects)]
    case FinishTest =>
      [Line("finishTest()", Default)]
        + (if |expects| > 0 then [Line(".. UNFULFILLED EXPECTS:", Grey)] else [])
        + seq(|expects|, k requires 0 <= k < |expects| => UnfulfilledLine(expects[k]))
  }

  /** The queue after one instruction: `expectEventOnce` adds at the back, `startEvent` takes from the front. */
  function StepExpects(op: Op, expects: seq<string>): seq<string> {
    match op
    case ExpectEventOnce(name) => expects + [name]
    case StartEvent(_) => if |expects| > 0 then expects[1..] else expects
    case _ => expects
  }

  function Advance(testName: string, st: State, instr: Instruction): State {
    var header := if st.frame != instr.frame then [Replay.FrameHeader(instr.frame)] else [];
    State(st.lines + header + StepLines(testName, instr.op, st.expects), StepExpects(instr.op, st.expects), instr.frame)
  }

  /** `parseTextResults`: the log replayed one instruction after the other. */
  function Run(testName: string, log: seq<Instruction>): (st: State)
    ensures st.frame == if |log| == 0 then -1 else log[|log| - 1].frame
    decreases |log|
  {
    if |log| == 0 then State([], [], -1)
    else Advance(testName, Run(testName, log[..|log| - 1]), log[|log| - 1])
  }

  /** The constructor: the log holds exactly one `startTest`, at frame 0, so the transcript is frame 0's header and that line. */
  function NewManager(testName: string): (m: Manager)
    ensures m.testName == testName
    ensures m.log == [Instruction(StartTest, 0)]
    ensures Run(testName, m.log).lines == [Replay.FrameHeader(0), Line("startTest(" + Replay.Quote(testName) + ")", Default)]
  {
    var m := Manager(testName, [Instruction(StartTest, 0)]);
    assert m.log[..0] == [];
    m
  }

  /** `push`, `startEvent` and `finishTest` of the manager: one instruction appended to the log. */
  function Push(m: Manager, instr: Instruction): (r: Manager)
    ensures r.testName == m.testName && r.log == m.log + [instr]
    ensures Run(r.testName, r.log) == Advance(m.testName, Run(m.testName, m.log), instr)
  {
    var r := Manager(m.testName, m.log + [instr]);
    assert r.log[..|r.log| - 1] == m.log;
    r
  }

  /** `getHorizonString`: the merged transcript, in the older engine's colours. */
  function HorizonString(m: Manager): (r: string)
    ensures |m.log| > 0 ==> StartsWith(r, FrameOpening(m.log[0].frame))
  {
    var lines := Run(m.testName, m.log).lines;
    if |m.log| == 0 then Render(LegacyPalette, lines)
    else
      RunOpensWithFrame(m.testName, m.log);
      FrameOpensTranscript(lines, m.log[0].frame);
      Render(LegacyPalette, lines)
  }

  /** How a transcript whose first instruction ran in frame `n` begins: the grey tag and that frame's header. */
  function FrameOpening(n: nat): string {
    "<color=" + LegacyPalette.grey + ">" + Replay.FrameHeader(n).text
  }

  lemma FrameOpensTranscript(lines: seq<Line>, n: nat)
    requires |lines| > 0 && lines[0] == Replay.FrameHeader(n)
    ensures StartsWith(Render(LegacyPalette, lines), FrameOpening(n))
  {
    assert lines[0].text != "" by {
      assert EndsWith(lines[0].text, "--- FRAME " + NatToString(n) + " ---");
    }
    RenderOpensWith(LegacyPalette, lines);
  }

  /**
   * Every instruction contributes at least one line, and a non-empty log's
   * transcript opens with the header of its first instruction's frame.
   */
  lemma {:induction false} RunOpensWithFrame(testName: string, log: seq<Instruction>)
    ensures |Run(testName, log).lines| >= |log|
    ensures |log| > 0 ==> Run(testName, log).lines[0] == Replay.FrameHeader(log[0].frame)
    decreases |log|
  {
    if |log| > 0 {
      var init := log[..|log| - 1];
      RunOpensWithFrame(testName, init);
      if |init| > 0 {
        assert init[0] == log[0];
      }
    }
  }

  /** `getHorizonString` as the source computes it, merging in one pass. */
  method GetHorizonString(m: Manager) returns (text: string)
    ensures text == HorizonString(m)
  {
    text := MergeByColor(LegacyPalette, Run(m.testName, m.log).lines);
  }

  /**
   * The older `startEvent` pops the oldest expectation whatever its name: the
   * same name gives a green OK line naming it, a different one a red EXPECT
   * line naming the popped expectation, an empty queue a red "No
   * startEvent()" line.
   */
  lemma StartEventOutcome(m: Manager, name: string, f: nat)
    ensures var before := Run(m.testName, m.log); var after := Run(m.testName, Push(m, Instruction(StartEvent(name), f)).log);
      var last := after.lines[|after.lines| - 1];
      && |after.lines| > 0
      && (|before.expects| == 0 ==>
            after.expects == [] && last.color == Red && EndsWith(last.text, "EXPECT: No startEvent()"))
      && (|before.expects| > 0 ==> after.expects == before.expects[1..])
      && (|before.expects| > 0 && before.expects[0] == name ==>
            last.color == Green && EndsWith(last.text, "OK: expectEventOnce(" + Replay.Quote(before.expects[0]) + ")"))
      && (|before.expects| > 0 && before.expects[0] != name ==>
            last.color == Red && EndsWith(last.text, "EXPECT:  expectEventOnce(" + Replay.Quote(before.expects[0]) + ")"))
  {
    var before := Run(m.testName, m.log);
    var r := Push(m, Instruction(StartEvent(name), f));
    AdvanceLastLine(m.testName, before, Instruction(StartEvent(name), f));
    MatchEventFacts(name, before.expects);
  }

  /** The last line after an instruction with one line of its own is that line. */
  lemma AdvanceLastLine(testName: string, st: State, instr: Instruction)
    requires |StepLines(testName, instr.op, st.expects)| == 1
    ensures var after := Advance(testName, st, instr);
      |after.lines| > 0 && after.lines[|after.lines| - 1] == StepLines(testName, instr.op, st.expects)[0]
  {
  }

  /** The colour and ending of `startEvent`'s line against the queue `q`. */
  lemma MatchEventFacts(name: string, q: seq<string>)
    ensures var last := MatchEventLine(name, q);
      && (|q| == 0 ==> last.color == Red && EndsWith(last.text, "EXPECT: No startEvent()"))
      && (|q| > 0 && q[0] == name ==>
            last.color == Green && EndsWith(last.text, "OK: expectEventOnce(" + Replay.Quote(q[0]) + ")"))
      && (|q| > 0 && q[0] != name ==>
            last.color == Red && EndsWith(last.text, "EXPECT:  expectEventOnce(" + Replay.Quote(q[0]) + ")"))
  {
    var head := "startEvent(" + Replay.Quote(name) + ") | ";
    if |q| == 0 {
      EndsWithAppend(head, "EXPECT: No startEvent()");
    } else {
      EndsWithAppend(head, "OK: expectEventOnce(" + Replay.Quote(q[0]) + ")");
      EndsWithAppend(head, "EXPECT:  expectEventOnce(" + Replay.Quote(q[0]) + ")");
    }
  }

  /**
   * The older `finishTest` prints `finishTest()`, then the grey
   * `.. UNFULFILLED EXPECTS:` header exactly when expectations remain, then
   * one red line per remaining expectation in declaration order; the queue
   * is kept.
   */
  lemma FinishOutcome(m: Manager, f: nat)
    ensures var before := Run(m.testName, m.log); var after := Run(m.testName, Push(m, Instruction(FinishTest, f)).log);
      var header := if before.frame != f then [Replay.FrameHeader(f)] else [];
      && after.expects == before.expects
      && |after.lines| >= |before.lines| + |header|
      && FinishShape(after.lines[|before.lines| + |header|..], before.expects)
  {
    var before := Run(m.testName, m.log);
    var header := if before.frame != f then [Replay.FrameHeader(f)] else [];
    var after := Run(m.testName, Push(m, Instruction(FinishTest, f)).log);
    var lines := StepLines(m.testName, FinishTest, before.expects);
    assert after.lines == before.lines + header + lines;
    assert after.lines[|before.lines| + |header|..] == lines;
    FinishLinesShape(m.testName, before.expects);
  }

  /** The shape of `finishTest`'s own lines for the queue `q`. */
  ghost predicate FinishShape(own: seq<Line>, q: seq<string>) {
    && |own| == (if |q| > 0 then 2 + |q| else 1)
    && own[0] == Line("finishTest()", Default)
    && (|q| > 0 <==> |own| > 1 && own[1] == Line(".. UNFULFILLED EXPECTS:", Grey))
    && forall k :: 0 <= k < |q| ==> own[2 + k] == UnfulfilledLine(q[k])
  }

  lemma FinishLinesShape(testName: string, q: seq<string>)
    ensures FinishShape(StepLines(testName, FinishTest, q), q)
  {
    var own := StepLines(testName, FinishTest, q);
    if |q| > 0 {
      assert own[1] == Line(".. UNFULFILLED EXPECTS:", Grey);
      forall k | 0 <= k < |q|
        ensures own[2 + k] == UnfulfilledLine(q[k])
      {
      }
    } else {
      assert |own| == 1;
    }
  }

  /** A header is emitted before an instruction exactly when its frame differs from the previous instruction's. */
  lemma FrameHeaderOnChange(m: Manager, instr: Instruction)
    ensures var before := Run(m.testName, m.log); var after := Run(m.testName, Push(m, instr).log);
      var changed := |m.log| == 0 || m.log[|m.log| - 1].frame != instr.frame;
      && (changed ==> after.lines == before.lines + [Replay.FrameHeader(instr.frame)] + StepLines(m.testName, instr.op, before.expects))
      && (!changed ==> after.lines == before.lines + StepLines(m.testName, instr.op, before.expects))
  {
    var before := Run(m.testName, m.log);
    RunFrame(m.testName, m.log);
    if |m.log| == 0 || m.log[|m.log| - 1].frame != instr.frame {
      AdvanceNewFrame(m.testName, before, instr);
    } else {
      AdvanceSameFrame(m.testName, before, instr);
    }
  }

  lemma RunFrame(testName: string, log: seq<Instruction>)
    ensures Run(testName, log).frame == if |log| == 0 then -1 else log[|log| - 1].frame
  {
  }

  lemma AdvanceNewFrame(testName: string, st: State, instr: Instruction)
    requires st.frame != instr.frame
    ensures Advance(testName, st, instr).lines == st.lines + [Replay.FrameHeader(instr.frame)] + StepLines(testName, instr.op, st.expects)
  {
  }

  lemma AdvanceSameFrame(testName: string, st: State, instr: Instruction)
    requires st.frame == instr.frame
    ensures Advance(testName, st, instr).lines == st.lines + StepLines(testName, instr.op, st.expects)
  {
    assert st.lines + [] == st.lines;
  }
}
