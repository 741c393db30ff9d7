/**
 * One test's lifecycle (`ZTestImpl` in `src/Zest/ZTest.ts`): the calls a test
 * accepts record instructions at the current frame and mark the test dirty;
 * `finishFrame` advances the frame and sends the replayed result to the
 * listeners only when the test is dirty. Listeners are identified by number
 * and a send appends one delivery per listener to the test's delivery log.
 */
module Lifecycle {
  import opened Wrappers
  import opened Replay
  import opened ReplayLemmas
  import opened Durations

  /** `ZTestResult`; the test id is a natural handed out by whoever creates the test. */
  datatype TestResult = TestResult(testName: string, testId: nat, status: Status, text: string)

  /** One listener called with one result. */
  datatype Delivery = Delivery(listener: nat, result: TestResult)

  datatype Test = Test(
    name: string,
    testId: nat,
    needsUpdate: bool,
    isCancelled: bool,
    frame: nat,
    log: seq<Instruction>,
    listeners: seq<nat>,
    delivered: seq<Delivery>)

  /** What a call leaves behind: the test, and the result it sent to the listeners if it sent one. */
  datatype Outcome = Outcome(test: Test, sent: Option<TestResult>)

  /** The constructor: a dirty, running test at frame 0 whose log holds its `startTest`. */
  function NewTest(name: string, testId: nat): (t: Test)
    ensures t.name == name && t.testId == testId && t.frame == 0
    ensures t.needsUpdate && !t.isCancelled
    ensures t.log == [Instruction(StartTest(name), 0)]
    ensures t.listeners == [] && t.delivered == []
  {
    Test(name, testId, true, false, 0, [Instruction(StartTest(name), 0)], [], [])
  }

  /** A new test reports RUNNING. */
  lemma NewTestRunning(name: string, testId: nat)
    ensures ResultOf(NewTest(name, testId)).status == Status(false, Running)
  {
    var t := NewTest(name, testId);
    assert t.log == [] + [t.log[0]];
    RunSnoc([], t.log[0]);
  }

  /** The instructions the recording calls push: `expectEvent` … `warnNotEmpty` (the equality checks are never warnings here). */
  predicate Recordable(op: Op) {
    || op.ExpectEvent? || op.StartEvent? || op.AppendData? || op.AppendDataKeyValue?
    || (op.ExpectEqual? && !op.isWarn) || (op.ExpectNotEqual? && !op.isWarn)
    || op.ExpectNotEmpty?
  }

  /** A recording call: the instruction is logged at the current frame and the test becomes dirty; nothing is sent. */
  function Record(t: Test, op: Op): (r: Test)
    requires Recordable(op)
    ensures r.needsUpdate
    ensures r.log == t.log + [Instruction(op, t.frame)]
    ensures r.(needsUpdate := t.needsUpdate, log := t.log) == t
  {
    t.(needsUpdate := true, log := t.log + [Instruction(op, t.frame)])
  }

  /** `getTestResult`: the replayed transcript and status under the test's name and id. */
  function ResultOf(t: Test): (r: TestResult)
    ensures r.testName == t.name && r.testId == t.testId
    ensures WellFormedStatus(r.status)
    ensures r.status == Run(t.log).acc.status
  {
    RunStatusWellFormed(t.log);
    var (text, status) := HorizonString(t.log);
    TestResult(t.name, t.testId, status, text)
  }

  /** The deliveries of one result to the listeners, in registration order. */
  function Deliveries(listeners: seq<nat>, r: TestResult): (ds: seq<Delivery>)
    ensures |ds| == |listeners|
    ensures forall i :: 0 <= i < |ds| ==> ds[i] == Delivery(listeners[i], r)
  {
    seq(|listeners|, i requires 0 <= i < |listeners| => Delivery(listeners[i], r))
  }

  /** `sendResultToListeners`: replay, clear the dirty flag, and call every listener once in order with the result. */
  function Send(t: Test): (o: Outcome)
    ensures o.sent == Some(ResultOf(t))
    ensures !o.test.needsUpdate
    ensures o.test.delivered == t.delivered + Deliveries(t.listeners, ResultOf(t))
    ensures o.test.(needsUpdate := t.needsUpdate, delivered := t.delivered) == t
  {
    var r := ResultOf(t);
    Outcome(t.(needsUpdate := false, delivered := t.delivered + Deliveries(t.listeners, r)), Some(r))
  }

  /** `cancelTest`: logs the cancel and marks the test cancelled, but neither dirties it nor sends. */
  function Cancel(t: Test): (r: Test)
    ensures r.isCancelled
    ensures r.log == t.log + [Instruction(Op.CancelTest, t.frame)]
    ensures r.needsUpdate == t.needsUpdate && r.delivered == t.delivered
    ensures r.(isCancelled := t.isCancelled, log := t.log) == t
  {
    t.(isCancelled := true, log := t.log + [Instruction(Op.CancelTest, t.frame)])
  }

  /** A cancelled test reports a done CANCEL, whatever it reported before. */
  lemma CancelReportsCancel(t: Test)
    ensures ResultOf(Cancel(t)).status == Status(true, PassStatus.Cancel)
  {
    RunSnoc(t.log, Instruction(Op.CancelTest, t.frame));
  }

  /** `finishTest`: logs the finish and sends at once, dirty or not; the result it sends is done. */
  function FinishTest(t: Test): (o: Outcome)
    ensures o.test.log == t.log + [Instruction(Op.FinishTest, t.frame)]
    ensures o.sent.Some? && o.sent.value.status.done
    ensures !o.test.needsUpdate
    ensures |o.test.delivered| == |t.delivered| + |t.listeners|
    ensures o.sent == Some(ResultOf(o.test))
    ensures o.test.delivered == t.delivered + Deliveries(t.listeners, o.sent.value)
    ensures o.test.(needsUpdate := t.needsUpdate, log := t.log, delivered := t.delivered) == t
  {
    var t1 := t.(needsUpdate := true, log := t.log + [Instruction(Op.FinishTest, t.frame)]);
    FinishIsDone(t.log, Instruction(Op.FinishTest, t.frame));
    Send(t1)
  }

  /** A delayed finish waiting for its timer: the test and the timeout it asked for, in milliseconds. */
  datatype Scheduled = Scheduled(test: Test, seconds: Seconds, timeoutMs: nat)

  /** `finishTestWithDelay`: logs the request and dirties the test; the callback is left to `Fire`. */
  function FinishTestWithDelay(t: Test, seconds: Seconds): (s: Scheduled)
    ensures s.test.log == t.log + [Instruction(Op.FinishTestWithDelay(seconds), t.frame)]
    ensures s.test.needsUpdate && s.test.delivered == t.delivered
    ensures s.test.(needsUpdate := t.needsUpdate, log := t.log) == t
    ensures s.timeoutMs == seconds.millis && s.seconds == seconds
  {
    var t1 := t.(needsUpdate := true, log := t.log + [Instruction(Op.FinishTestWithDelay(seconds), t.frame)]);
    Scheduled(t1, seconds, seconds.millis)
  }

  /**
   * The timer callback of `finishTestWithDelay`, run against the test as it is
   * when the timer fires: a cancelled test is left alone; otherwise the
   * callback is logged and the result, which is done, is sent.
   */
  function Fire(t: Test, seconds: Seconds): (o: Outcome)
    ensures t.isCancelled ==> o == Outcome(t, None)
    ensures !t.isCancelled ==> o.sent.Some? && o.sent.value.status.done
    ensures !t.isCancelled ==> o.test.log == t.log + [Instruction(FinishTestWithDelayCallback(seconds), t.frame)]
    ensures !t.isCancelled ==> o.sent == Some(ResultOf(o.test))
    ensures !t.isCancelled ==> o.test.delivered == t.delivered + Deliveries(t.listeners, o.sent.value)
    ensures !t.isCancelled ==> !o.test.needsUpdate
    ensures !t.isCancelled ==> o.test.(needsUpdate := t.needsUpdate, log := t.log, delivered := t.delivered) == t
  {
    if t.isCancelled then Outcome(t, None)
    else
      var t1 := t.(needsUpdate := true, log := t.log + [Instruction(FinishTestWithDelayCallback(seconds), t.frame)]);
      FinishIsDone(t.log, Instruction(FinishTestWithDelayCallback(seconds), t.frame));
      Send(t1)
  }

  /** `finishFrame`: always one frame on; a result is sent and returned exactly when the test was dirty. */
  function FinishFrame(t: Test): (o: Outcome)
    ensures o.test.frame == t.frame + 1
    ensures o.test.name == t.name && o.test.testId == t.testId
    ensures o.sent.Some? <==> t.needsUpdate
    ensures !o.test.needsUpdate
    ensures o.test.log == t.log && o.test.listeners == t.listeners
    ensures t.needsUpdate ==> o.sent == Some(ResultOf(t)) && o.test.delivered == t.delivered + Deliveries(t.listeners, ResultOf(t))
    ensures !t.needsUpdate ==> o.test.delivered == t.delivered
    ensures o.test.(frame := t.frame, needsUpdate := t.needsUpdate, delivered := t.delivered) == t
  {
    var t1 := t.(frame := t.frame + 1);
    if t.needsUpdate then Send(t1) else Outcome(t1, None)
  }

  /** `addResultListener`: the listener is appended and the test becomes dirty, so the next frame reaches it. */
  function AddResultListener(t: Test, listener: nat): (r: Test)
    ensures r.listeners == t.listeners + [listener]
    ensures r.needsUpdate
    ensures r.log == t.log && r.delivered == t.delivered && r.frame == t.frame
    ensures r.(needsUpdate := t.needsUpdate, listeners := t.listeners) == t
  {
    t.(needsUpdate := true, listeners := t.listeners + [listener])
  }

  /** Every call a test accepts, with `Fire` standing for its delayed-finish timer going off. */
  datatype Call =
    | RecordCall(op: Op)
    | CancelCall
    | FinishCall
    | FinishWithDelayCall(seconds: Seconds)
    | FireCall(seconds: Seconds)
    | FrameCall
    | ListenCall(listener: nat)

  predicate ValidCall(c: Call) {
    c.RecordCall? ==> Recordable(c.op)
  }

  function Apply(t: Test, c: Call): (o: Outcome)
    requires ValidCall(c)
    ensures o.test.name == t.name && o.test.testId == t.testId
  {
    match c
    case RecordCall(op) => Outcome(Record(t, op), None)
    case CancelCall => Outcome(Cancel(t), None)
    case FinishCall => FinishTest(t)
    case FinishWithDelayCall(sec) => Outcome(FinishTestWithDelay(t, sec).test, None)
    case FireCall(sec) => Fire(t, sec)
    case FrameCall => FinishFrame(t)
    case ListenCall(l) => Outcome(AddResultListener(t, l), None)
  }

  /** A run of calls: the final test and the results sent along the way, in order. */
  function ApplyAll(t: Test, cs: seq<Call>): (Test, seq<TestResult>)
    requires forall i :: 0 <= i < |cs| ==> ValidCall(cs[i])
    decreases |cs|
  {
    if |cs| == 0 then (t, [])
    else
      var o := Apply(t, cs[0]);
      var (t2, rs) := ApplyAll(o.test, cs[1..]);
      (t2, (if o.sent.Some? then [o.sent.value] else []) + rs)
  }

  function CountFrames(cs: seq<Call>): nat
    decreases |cs|
  {
    if |cs| == 0 then 0 else (if cs[0].FrameCall? then 1 else 0) + CountFrames(cs[1..])
  }

  /** The frame counter counts the `finishFrame` calls and nothing else. */
  lemma {:induction false} FrameCountsFinishFrames(t: Test, cs: seq<Call>)
    requires forall i :: 0 <= i < |cs| ==> ValidCall(cs[i])
    ensures ApplyAll(t, cs).0.frame == t.frame + CountFrames(cs)
    decreases |cs|
  {
    if |cs| > 0 {
      FrameCountsFinishFrames(Apply(t, cs[0]).test, cs[1..]);
    }
  }

  /**
   * The shape every test keeps: its log starts with its own `startTest` at
   * frame 0, and the frames stamped on the log never decrease and never pass
   * the current frame.
   */
  ghost predicate ValidTest(t: Test) {
    && |t.log| > 0
    && t.log[0] == Instruction(StartTest(t.name), 0)
    && (forall i :: 0 <= i < |t.log| ==> t.log[i].frame <= t.frame)
    && (forall i, j :: 0 <= i < j < |t.log| ==> t.log[i].frame <= t.log[j].frame)
  }

  lemma StampKeepsValid(t: Test, t1: Test, op: Op)
    requires ValidTest(t)
    requires t1.name == t.name && t1.frame == t.frame
    requires t1.log == t.log + [Instruction(op, t.frame)]
    ensures ValidTest(t1)
  {
  }

  lemma FrameKeepsValid(t: Test, t1: Test)
    requires ValidTest(t)
    requires t1.name == t.name && t1.frame >= t.frame && t1.log == t.log
    ensures ValidTest(t1)
  {
  }

  /** Each call keeps a test valid. */
  lemma ApplyKeepsValid(t: Test, c: Call)
    requires ValidCall(c) && ValidTest(t)
    ensures ValidTest(Apply(t, c).test)
  {
    var r := Apply(t, c).test;
    match c
    case RecordCall(op) => StampKeepsValid(t, r, op);
    case CancelCall => StampKeepsValid(t, r, Op.CancelTest);
    case FinishCall => StampKeepsValid(t, r, Op.FinishTest);
    case FinishWithDelayCall(sec) => StampKeepsValid(t, r, Op.FinishTestWithDelay(sec));
    case FireCall(sec) =>
      if !t.isCancelled {
        StampKeepsValid(t, r, FinishTestWithDelayCallback(sec));
      }
    case FrameCall => FrameKeepsValid(t, r);
    case ListenCall(l) => FrameKeepsValid(t, r);
  }

  /** A new test is valid, and any run of calls keeps it so. */
  lemma {:induction false} RunKeepsValid(t: Test, cs: seq<Call>)
    requires forall i :: 0 <= i < |cs| ==> ValidCall(cs[i])
    requires ValidTest(t)
    ensures ValidTest(ApplyAll(t, cs).0)
    decreases |cs|
  {
    if |cs| > 0 {
      ApplyKeepsValid(t, cs[0]);
      RunKeepsValid(Apply(t, cs[0]).test, cs[1..]);
    }
  }

  lemma NewTestIsValid(name: string, testId: nat)
    ensures ValidTest(NewTest(name, testId))
  {
    var t := NewTest(name, testId);
    assert t.log[0] == Instruction(StartTest(name), 0);
  }

  /** The calls that leave a test's dirty flag as it is: cancels, frames, and timers of a cancelled test. */
  predicate Quiet(c: Call, cancelled: bool) {
    c.CancelCall? || c.FrameCall? || (c.FireCall? && cancelled)
  }

  /**
   * Once a frame has sent, frames keep returning nothing until something
   * dirties the test; in particular a cancel alone is never sent.
   */
  lemma {:induction false} QuietFramesSendNothing(t: Test, cs: seq<Call>)
    requires forall i :: 0 <= i < |cs| ==> ValidCall(cs[i]) && Quiet(cs[i], t.isCancelled || exists j :: 0 <= j < i && cs[j].CancelCall?)
    requires !t.needsUpdate
    ensures ApplyAll(t, cs).1 == []
    ensures !ApplyAll(t, cs).0.needsUpdate
    decreases |cs|
  {
    if |cs| > 0 {
      var t1 := Apply(t, cs[0]).test;
      assert t1.isCancelled == (t.isCancelled || cs[0].CancelCall?);
      forall i | 0 <= i < |cs[1..]|
        ensures ValidCall(cs[1..][i]) && Quiet(cs[1..][i], t1.isCancelled || exists j :: 0 <= j < i && cs[1..][j].CancelCall?)
      {
        var k := i + 1;
        assert cs[1..][i] == cs[k];
        if exists j :: 0 <= j < k && cs[j].CancelCall? {
          var j :| 0 <= j < k && cs[j].CancelCall?;
          if j > 0 {
            assert cs[1..][j - 1] == cs[j];
          }
        }
      }
      QuietFramesSendNothing(t1, cs[1..]);
    }
  }

  /** Two frames in a row: the first sends a dirty test's result, the second sends nothing. */
  lemma SecondFrameSilent(t: Test)
    ensures FinishFrame(FinishFrame(t).test).sent == None
    ensures FinishFrame(FinishFrame(t).test).test.frame == t.frame + 2
  {
  }

  /** A cancelled test's pending delayed finish does nothing when it fires, even after further calls. */
  lemma {:induction false} CancelledStaysCancelled(t: Test, cs: seq<Call>)
    requires forall i :: 0 <= i < |cs| ==> ValidCall(cs[i])
    requires t.isCancelled
    ensures ApplyAll(t, cs).0.isCancelled
    ensures forall sec: Seconds :: Fire(ApplyAll(t, cs).0, sec) == Outcome(ApplyAll(t, cs).0, None)
    decreases |cs|
  {
    if |cs| > 0 {
      CancelledStaysCancelled(Apply(t, cs[0]).test, cs[1..]);
    }
  }
}
