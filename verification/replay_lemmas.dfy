/** What the replay of a test's log promises (`src/Zest/ZTest.ts`, `InstructionsManager`). */
module ReplayLemmas {
  import opened Wrappers
  import opened Strings
  import opened Transcript
  import opened Replay

  /** Replaying one more instruction is one more `Advance` on the replay of the log. */
  lemma RunSnoc(log: seq<Instruction>, instr: Instruction)
    ensures Run(log + [instr]) == Advance(Run(log), instr)
    ensures Run(log + [instr]).acc == StepAcc(instr.op, Run(log).acc)
  {
    assert (log + [instr])[..|log|] == log;
  }

  /**
   * Every instruction contributes at least one line, and a non-empty log's
   * transcript opens with the header of its first instruction's frame.
   */
  lemma {:induction false} RunOpensWithFrame(log: seq<Instruction>)
    ensures |Run(log).lines| >= |log|
    ensures |log| > 0 ==> Run(log).lines[0] == FrameHeader(log[0].frame)
    decreases |log|
  {
    if |log| > 0 {
      var init := log[..|log| - 1];
      RunOpensWithFrame(init);
      if |init| > 0 {
        assert init[0] == log[0];
      }
    }
  }

  /** The accumulator after two more instructions. */
  lemma AccSnoc2(log: seq<Instruction>, a: Instruction, b: Instruction)
    ensures Run(log + [a, b]).acc == StepAcc(b.op, StepAcc(a.op, Run(log).acc))
  {
    assert log + [a, b] == (log + [a]) + [b];
    RunSnoc(log, a);
    RunSnoc(log + [a], b);
  }

  /** The replay remembers the frame of the last instruction, or -1 for an empty log. */
  lemma RunFrame(log: seq<Instruction>)
    ensures Run(log).frame == if |log| == 0 then -1 else log[|log| - 1].frame
  {
  }

  /** A grey frame header is emitted before an instruction whose frame differs from the previous instruction's, and always before the first one. */
  lemma FrameHeaderOnChange(log: seq<Instruction>, instr: Instruction)
    requires |log| == 0 || log[|log| - 1].frame != instr.frame
    ensures Run(log + [instr]).lines == Run(log).lines + [FrameHeader(instr.frame)] + StepLines(instr.op, Run(log).acc)
  {
    var st := Run(log);
    assert st.frame != instr.frame;
    RunSnoc(log, instr);
    AdvanceNewFrame(st, instr);
  }

  lemma AdvanceNewFrame(st: ReplayState, instr: Instruction)
    requires st.frame != instr.frame
    ensures Advance(st, instr).lines == st.lines + [FrameHeader(instr.frame)] + StepLines(instr.op, st.acc)
  {
  }

  /** No header is emitted between two instructions of the same frame. */
  lemma NoFrameHeaderWithinFrame(log: seq<Instruction>, instr: Instruction)
    requires |log| > 0 && log[|log| - 1].frame == instr.frame
    ensures Run(log + [instr]).lines == Run(log).lines + StepLines(instr.op, Run(log).acc)
  {
    var st := Run(log);
    assert st.frame == instr.frame;
    RunSnoc(log, instr);
    AdvanceSameFrame(st, instr);
  }

  lemma AdvanceSameFrame(st: ReplayState, instr: Instruction)
    requires st.frame == instr.frame
    ensures Advance(st, instr).lines == st.lines + StepLines(instr.op, st.acc)
  {
    assert st.lines + [] == st.lines;
  }

  /** The names of the `expectEvent` instructions, in log order. */
  function ExpectedNames(log: seq<Instruction>): seq<string>
    decreases |log|
  {
    if |log| == 0 then []
    else
      var op := log[|log| - 1].op;
      ExpectedNames(log[..|log| - 1]) + (if op.ExpectEvent? then [op.eventName] else [])
  }

  /** How many `startEvent` instructions the log holds. */
  function StartEventCount(log: seq<Instruction>): nat
    decreases |log|
  {
    if |log| == 0 then 0
    else StartEventCount(log[..|log| - 1]) + (if log[|log| - 1].op.StartEvent? then 1 else 0)
  }

  /**
   * First-in first-out matching: the outstanding expectations are always the
   * most recent declared ones, in declaration order (only the oldest are ever
   * removed), and each removal is paid for by one `startEvent`.
   */
  lemma {:induction false} QueueIsSuffix(log: seq<Instruction>)
    ensures QueueInv(Run(log).acc.expects, ExpectedNames(log), StartEventCount(log))
    decreases |log|
  {
    if |log| > 0 {
      var init := log[..|log| - 1];
      var op := log[|log| - 1].op;
      QueueIsSuffix(init);
      var acc := Run(init).acc;
      assert Run(log).acc == StepAcc(op, acc);
      QueueStep(op, acc, ExpectedNames(init), StartEventCount(init));
    }
  }

  /**
   * The queue `q` is the newest part of the declared names `e`, in order, and
   * at most `started` of them have been removed.
   */
  ghost predicate QueueInv(q: seq<string>, e: seq<string>, started: nat) {
    |q| <= |e| && q == e[|e| - |q|..] && |e| - |q| <= started
  }

  /** One instruction keeps the queue invariant. */
  lemma QueueStep(op: Op, acc: Acc, e: seq<string>, started: nat)
    requires QueueInv(acc.expects, e, started)
    ensures QueueInv(StepAcc(op, acc).expects,
      e + (if op.ExpectEvent? then [op.eventName] else []),
      started + (if op.StartEvent? then 1 else 0))
  {
    var q := acc.expects;
    StepAccExpects(op, acc);
    if op.ExpectEvent? {
      SuffixSnoc(e, q, op.eventName);
    } else if op.StartEvent? && |q| > 0 {
      SuffixTail(e, q);
    } else {
      assert e + [] == e;
    }
  }

  /** How each instruction changes the queue of outstanding expectations. */
  lemma StepAccExpects(op: Op, acc: Acc)
    ensures op.ExpectEvent? ==> StepAcc(op, acc).expects == acc.expects + [op.eventName]
    ensures op.StartEvent? && |acc.expects| > 0 ==> StepAcc(op, acc).expects == acc.expects[1..]
    ensures !op.ExpectEvent? && !(op.StartEvent? && |acc.expects| > 0) ==> StepAcc(op, acc).expects == acc.expects
  {
  }

  lemma SuffixSnoc(e: seq<string>, q: seq<string>, x: string)
    requires |q| <= |e| && q == e[|e| - |q|..]
    ensures q + [x] == (e + [x])[|e + [x]| - |q + [x]|..]
  {
  }

  lemma SuffixTail(e: seq<string>, q: seq<string>)
    requires 0 < |q| <= |e| && q == e[|e| - |q|..]
    ensures q[1..] == e[|e| - |q[1..]|..]
  {
  }

  /**
   * `startEvent(name)` pops the oldest outstanding expectation regardless of
   * its name: the same name gives a green line and leaves the status alone, a
   * different name gives a red line and a running FAIL, and an empty queue
   * gives a red "No startEvent()" line and a running FAIL.
   */
  lemma StartEventOutcome(log: seq<Instruction>, name: string, f: nat)
    ensures var before := Run(log).acc; var after := Run(log + [Instruction(StartEvent(name), f)]);
      var last := after.lines[|after.lines| - 1];
      && |after.lines| > 0
      && (|before.expects| == 0 ==>
            after.acc == Acc(Status(false, Fail), []) && last.color == Red
            && EndsWith(last.text, "EXPECT: No startEvent()"))
      && (|before.expects| > 0 && before.expects[0] == name ==>
            after.acc == Acc(before.status, before.expects[1..]) && last.color == Green
            && EndsWith(last.text, "OK: expectEvent(" + Quote(name) + ")"))
      && (|before.expects| > 0 && before.expects[0] != name ==>
            after.acc == Acc(Status(false, Fail), before.expects[1..]) && last.color == Red
            && EndsWith(last.text, "EXPECT:  expectEvent(" + Quote(before.expects[0]) + ")"))
  {
    var instr := Instruction(StartEvent(name), f);
    RunSnoc(log, instr);
    LastLineIsOwn(log, instr);
    MatchEventEnds(name, Run(log).acc.expects);
  }

  /** The colour and ending of `startEvent`'s line against the queue `q`. */
  lemma MatchEventEnds(name: string, q: seq<string>)
    ensures var l := MatchEventLine(name, q);
      && (|q| == 0 ==> l.color == Red && EndsWith(l.text, "EXPECT: No startEvent()"))
      && (|q| > 0 && q[0] == name ==> l.color == Green && EndsWith(l.text, "OK: expectEvent(" + Quote(name) + ")"))
      && (|q| > 0 && q[0] != name ==> l.color == Red && EndsWith(l.text, "EXPECT:  expectEvent(" + Quote(q[0]) + ")"))
  {
    var head := "startEvent(" + Quote(name) + ")<br>| ";
    if |q| == 0 {
      EndsWithAppend(head, "EXPECT: No startEvent()");
    } else {
      EndsWithAppend(head, "OK: expectEvent(" + Quote(q[0]) + ")");
      EndsWithAppend(head, "EXPECT:  expectEvent(" + Quote(q[0]) + ")");
    }
  }

  /** The two finishing instructions: `finishTest` and the fired delayed finish. */
  predicate IsFinish(op: Op) {
    op.FinishTest? || op.FinishTestWithDelayCallback?
  }

  /**
   * Finishing a test that is not done while expectations remain adds one red
   * line per remaining expectation, in declaration order, and makes it a done
   * FAIL; otherwise RUNNING becomes PASS, any other verdict is kept, and the
   * test is done. Outstanding expectations are not cleared.
   */
  lemma FinishOutcome(log: seq<Instruction>, op: Op, f: nat)
    requires IsFinish(op)
    ensures var before := Run(log).acc; var after := Run(log + [Instruction(op, f)]);
      var q := before.expects;
      && after.acc.expects == q
      && (!before.status.done && |q| > 0 ==>
            && after.acc.status == Status(true, Fail)
            && |after.lines| >= |q|
            && forall k :: 0 <= k < |q| ==> after.lines[|after.lines| - |q| + k] == UnfulfilledLine(q[k]))
      && (before.status.done || |q| == 0 ==>
            after.acc.status == Status(true, if before.status.passStatus == Running then Pass else before.status.passStatus))
  {
    var before := Run(log);
    var instr := Instruction(op, f);
    assert Run(log + [instr]).acc == StepAcc(op, before.acc) by {
      RunSnoc(log, instr);
    }
    if ReportsUnfulfilled(before.acc) {
      FinishEndsWithUnfulfilled(log, instr);
    }
  }

  /** A reporting finish leaves the replay ending with one red line per outstanding expectation, in order. */
  lemma FinishEndsWithUnfulfilled(log: seq<Instruction>, instr: Instruction)
    requires IsFinish(instr.op) && ReportsUnfulfilled(Run(log).acc)
    ensures var all := Run(log + [instr]).lines; var q := Run(log).acc.expects;
      |all| >= |q| && forall k :: 0 <= k < |q| ==> all[|all| - |q| + k] == UnfulfilledLine(q[k])
  {
    var acc := Run(log).acc;
    var all := Run(log + [instr]).lines;
    var own := StepLines(instr.op, acc);
    LinesEndWithOwn(log, instr);
    FinishReportsLast(instr.op, acc);
    UnfulfilledSuffix(all, own, acc.expects);
  }

  /** Lines ending with lines that end with the unfulfilled lines of `q` end with them too. */
  lemma UnfulfilledSuffix(all: seq<Line>, own: seq<Line>, q: seq<string>)
    requires |all| >= |own| >= |q| && all[|all| - |own|..] == own
    requires forall k :: 0 <= k < |q| ==> own[|own| - |q| + k] == UnfulfilledLine(q[k])
    ensures forall k :: 0 <= k < |q| ==> all[|all| - |q| + k] == UnfulfilledLine(q[k])
  {
    forall k | 0 <= k < |q|
      ensures all[|all| - |q| + k] == UnfulfilledLine(q[k])
    {
      assert all[|all| - |q| + k] == all[|all| - |own|..][|own| - |q| + k];
    }
  }

  /** The replay's lines end with the last instruction's own lines. */
  lemma LinesEndWithOwn(log: seq<Instruction>, instr: Instruction)
    ensures var all := Run(log + [instr]).lines; var own := StepLines(instr.op, Run(log).acc);
      |all| >= |own| && all[|all| - |own|..] == own
  {
    RunSnoc(log, instr);
  }

  /** The replay's last line is the last instruction's own last line. */
  lemma LastLineIsOwn(log: seq<Instruction>, instr: Instruction)
    requires |StepLines(instr.op, Run(log).acc)| > 0
    ensures var all := Run(log + [instr]).lines; var own := StepLines(instr.op, Run(log).acc);
      |all| > 0 && all[|all| - 1] == own[|own| - 1]
  {
    LinesEndWithOwn(log, instr);
    var all := Run(log + [instr]).lines;
    var own := StepLines(instr.op, Run(log).acc);
    assert all[|all| - 1] == all[|all| - |own|..][|own| - 1];
  }

  /** A reporting finish ends with one red line per outstanding expectation, in order. */
  lemma FinishReportsLast(op: Op, acc: Acc)
    requires IsFinish(op) && ReportsUnfulfilled(acc)
    ensures var own := StepLines(op, acc); var q := acc.expects;
      |own| >= |q| && forall k :: 0 <= k < |q| ==> own[|own| - |q| + k] == UnfulfilledLine(q[k])
  {
  }

  /** After a finishing instruction the test is done. */
  lemma FinishIsDone(log: seq<Instruction>, instr: Instruction)
    requires IsFinish(instr.op)
    ensures Run(log + [instr]).acc.status.done
  {
    RunSnoc(log, instr);
  }

  /** The statuses a replay can reach are those the source's status type allows. */
  predicate WellFormedStatus(s: Status) {
    if s.done then s.passStatus in {Pass, Fail, Cancel} else s.passStatus in {Running, Fail}
  }

  /** Every replay ends in a well-formed status; in particular a done test is never RUNNING. */
  lemma {:induction false} RunStatusWellFormed(log: seq<Instruction>)
    ensures WellFormedStatus(Run(log).acc.status)
    decreases |log|
  {
    if |log| > 0 {
      var init := log[..|log| - 1];
      RunStatusWellFormed(init);
      assert log == init + [log[|log| - 1]];
      RunSnoc(init, log[|log| - 1]);
      StepKeepsWellFormed(log[|log| - 1].op, Run(init).acc);
    }
  }

  /** Each instruction keeps the status well-formed. */
  lemma StepKeepsWellFormed(op: Op, acc: Acc)
    requires WellFormedStatus(acc.status)
    ensures WellFormedStatus(StepAcc(op, acc).status)
  {
  }

  /** Cancelling always gives a done CANCEL, and a later finish keeps it because the test is already done. */
  lemma CancelIsFinal(log: seq<Instruction>, f1: nat, f2: nat)
    ensures Run(log + [Instruction(CancelTest, f1)]).acc.status == Status(true, Cancel)
    ensures Run(log + [Instruction(CancelTest, f1), Instruction(FinishTest, f2)]).acc.status == Status(true, Cancel)
  {
    RunSnoc(log, Instruction(CancelTest, f1));
    AccSnoc2(log, Instruction(CancelTest, f1), Instruction(FinishTest, f2));
  }

  /**
   * `expectEqual` holds iff the strings are identical and `expectNotEqual` iff
   * they differ; the line is green, yellow or red by that and by `isWarn`, and
   * the status becomes a running FAIL only for a red line.
   */
  lemma EqualityOutcome(log: seq<Instruction>, op: Op, f: nat)
    requires op.ExpectEqual? || op.ExpectNotEqual?
    ensures var before := Run(log).acc; var after := Run(log + [Instruction(op, f)]);
      var holds := if op.ExpectEqual? then op.value == op.expectedVal else op.value != op.expectedVal;
      && |after.lines| > 0
      && after.lines[|after.lines| - 1].color == (if holds then Green else if op.isWarn then Yellow else Red)
      && EndsWith(after.lines[|after.lines| - 1].text, if holds then " | OK" else if op.isWarn then " | WARN" else " | FAIL")
      && after.acc.expects == before.expects
      && after.acc.status == (if !holds && !op.isWarn then Status(false, Fail) else before.status)
  {
    RunSnoc(log, Instruction(op, f));
    LastLineIsOwn(log, Instruction(op, f));
    EqualityStep(op, Run(log).acc);
  }

  /** One equality check's own line and its effect on the accumulator. */
  lemma EqualityStep(op: Op, acc: Acc)
    requires op.ExpectEqual? || op.ExpectNotEqual?
    ensures var holds := EqualityHolds(op.ExpectEqual?, op.value, op.expectedVal);
      var own := StepLines(op, acc);
      && |own| == 1
      && own[0].color == (if holds then Green else if op.isWarn then Yellow else Red)
      && EndsWith(own[0].text, if holds then " | OK" else if op.isWarn then " | WARN" else " | FAIL")
      && StepAcc(op, acc) == (if !holds && !op.isWarn then acc.(status := Status(false, Fail)) else acc)
  {
  }

  /**
   * `expectNotEmpty` / `warnNotEmpty`: the line is coloured by the check and
   * `isWarn`, but a failed check makes the status a running FAIL even for the
   * warning form.
   */
  lemma NotEmptyOutcome(log: seq<Instruction>, key: string, v: Value, isWarn: bool, f: nat)
    ensures var before := Run(log).acc; var after := Run(log + [Instruction(ExpectNotEmpty(key, v, isWarn), f)]);
      var last := after.lines[|after.lines| - 1];
      && |after.lines| > 0
      && last.color == (if IsNotEmpty(v) then Green else if isWarn then Yellow else Red)
      && after.acc.status == (if IsNotEmpty(v) then before.status else Status(false, Fail))
  {
    RunSnoc(log, Instruction(ExpectNotEmpty(key, v, isWarn), f));
    LastLineIsOwn(log, Instruction(ExpectNotEmpty(key, v, isWarn), f));
  }

  /** The emptiness test on the values the documentation lists. */
  lemma NotEmptyExamples()
    ensures !IsNotEmpty(Num(0)) && !IsNotEmpty(Str("")) && !IsNotEmpty(Str("0"))
    ensures IsNotEmpty(Num(7)) && IsNotEmpty(Str("a")) && !IsNotEmpty(Vec(Vec3(0, 0, 0))) && IsNotEmpty(Vec(Vec3(0, 1, 0)))
  {
  }

  /**
   * Reference definition of the accumulator: the instructions applied to `acc`
   * from the front of the log (the replay itself extends from the back).
   */
  function AccAfter(acc: Acc, log: seq<Instruction>): Acc
    decreases |log|
  {
    if |log| == 0 then acc else AccAfter(StepAcc(log[0].op, acc), log[1..])
  }

  lemma {:induction false} AccAfterSnoc(acc: Acc, log: seq<Instruction>, instr: Instruction)
    ensures AccAfter(acc, log + [instr]) == StepAcc(instr.op, AccAfter(acc, log))
    decreases |log|
  {
    if |log| == 0 {
      assert [instr][1..] == [];
    } else {
      assert (log + [instr])[1..] == log[1..] + [instr];
      AccAfterSnoc(StepAcc(log[0].op, acc), log[1..], instr);
    }
  }

  /** The replay's status and queue are the front-to-back application of the instructions. */
  lemma {:induction false} RunAccIsAccAfter(log: seq<Instruction>)
    ensures Run(log).acc == AccAfter(InitialAcc, log)
    decreases |log|
  {
    if |log| > 0 {
      var init, last := log[..|log| - 1], log[|log| - 1];
      assert log == init + [last];
      RunAccIsAccAfter(init);
      RunSnoc(init, last);
      AccAfterSnoc(InitialAcc, init, last);
    }
  }

  /** One step of the front-to-back application. */
  lemma AccAfterStep(acc: Acc, log: seq<Instruction>, next: Acc)
    requires |log| > 0 && StepAcc(log[0].op, acc) == next
    ensures AccAfter(acc, log) == AccAfter(next, log[1..])
  {
  }

  /** Events detected in the order they were expected: the test passes. */
  lemma InOrderPasses()
    ensures Run([
      Instruction(StartTest("T"), 0), Instruction(ExpectEvent("A"), 0), Instruction(ExpectEvent("B"), 0),
      Instruction(StartEvent("A"), 1), Instruction(StartEvent("B"), 2), Instruction(FinishTest, 2)
    ]).acc.status == Status(true, Pass)
  {
    var log := [
      Instruction(StartTest("T"), 0), Instruction(ExpectEvent("A"), 0), Instruction(ExpectEvent("B"), 0),
      Instruction(StartEvent("A"), 1), Instruction(StartEvent("B"), 2), Instruction(FinishTest, 2)];
    RunAccIsAccAfter(log);
    AccAfterStep(InitialAcc, log, InitialAcc);
    AccAfterStep(InitialAcc, log[1..], Acc(Status(false, Running), ["A"]));
    AccAfterStep(Acc(Status(false, Running), ["A"]), log[2..], Acc(Status(false, Running), ["A", "B"]));
    AccAfterStep(Acc(Status(false, Running), ["A", "B"]), log[3..], Acc(Status(false, Running), ["B"]));
    AccAfterStep(Acc(Status(false, Running), ["B"]), log[4..], Acc(Status(false, Running), []));
  }

  /** Events detected out of the expected order: the test fails. */
  lemma OutOfOrderFails()
    ensures Run([
      Instruction(StartTest("T"), 0), Instruction(ExpectEvent("A"), 0), Instruction(ExpectEvent("B"), 0),
      Instruction(StartEvent("B"), 1), Instruction(StartEvent("A"), 2), Instruction(FinishTest, 2)
    ]).acc.status == Status(true, Fail)
  {
    var log := [
      Instruction(StartTest("T"), 0), Instruction(ExpectEvent("A"), 0), Instruction(ExpectEvent("B"), 0),
      Instruction(StartEvent("B"), 1), Instruction(StartEvent("A"), 2), Instruction(FinishTest, 2)];
    RunAccIsAccAfter(log);
    AccAfterStep(InitialAcc, log, InitialAcc);
    AccAfterStep(InitialAcc, log[1..], Acc(Status(false, Running), ["A"]));
    AccAfterStep(Acc(Status(false, Running), ["A"]), log[2..], Acc(Status(false, Running), ["A", "B"]));
    AccAfterStep(Acc(Status(false, Running), ["A", "B"]), log[3..], Acc(Status(false, Fail), ["B"]));
    AccAfterStep(Acc(Status(false, Fail), ["B"]), log[4..], Acc(Status(false, Fail), []));
  }

  /** A done status is not final in the source: a `startEvent` after `finishTest` reopens it as a running FAIL. */
  lemma DoneIsNotFinal()
    ensures Run([Instruction(StartTest("T"), 0), Instruction(FinishTest, 0)]).acc.status == Status(true, Pass)
    ensures Run([Instruction(StartTest("T"), 0), Instruction(FinishTest, 0), Instruction(StartEvent("X"), 0)]).acc.status == Status(false, Fail)
  {
    var log := [Instruction(StartTest("T"), 0), Instruction(FinishTest, 0), Instruction(StartEvent("X"), 0)];
    RunAccIsAccAfter(log);
    RunAccIsAccAfter(log[..2]);
    assert log[..2] == [Instruction(StartTest("T"), 0), Instruction(FinishTest, 0)];
    assert AccAfter(InitialAcc, log[..2]) == AccAfter(InitialAcc, log[1..2]);
    assert AccAfter(InitialAcc, log) == AccAfter(InitialAcc, log[1..]);
    assert AccAfter(InitialAcc, log[1..]) == AccAfter(Acc(Status(true, Pass), []), log[2..]);
  }
}
