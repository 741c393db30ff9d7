/**
 * The older test class (`ZTestImpl` in `src/Zest/ZTestImpl.ts`): one optional
 * result listener, a `needsFirstUpdate` flag that makes the first frame report
 * even when nothing was recorded, and a `needsUpdate` flag that is set but
 * never cleared. Also the four `_color*` line builders of that class.
 */
module LegacyTest {
  import opened Wrappers
  import opened Strings
  import LR = LegacyReplay

  /** The older `TestResult`: a name and the transcript string. */
  datatype TestResult = TestResult(testName: string, text: string)

  /** A result handed to the listener with this id. */
  datatype Delivery = Delivery(listener: nat, result: TestResult)

  datatype Test = Test(
    manager: LR.Manager,
    needsFirstUpdate: bool,
    needsUpdate: bool,
    listener: Option<nat>,
    frame: nat,
    delivered: seq<Delivery>)

  /** The constructor: a fresh manager, frame 0, no listener, waiting for its first update. */
  function NewTest(name: string): (t: Test)
    ensures t.manager.testName == name && t.manager.log == [LR.Instruction(LR.StartTest, 0)]
    ensures t.needsFirstUpdate && !t.needsUpdate
    ensures t.frame == 0 && t.listener == None && t.delivered == []
  {
    Test(LR.NewManager(name), true, false, None, 0, [])
  }

  /** The `testResult` getter. */
  function ResultOf(t: Test): (r: TestResult)
    ensures r.testName == t.manager.testName
    ensures |t.manager.log| > 0 ==> StartsWith(r.text, LR.FrameOpening(t.manager.log[0].frame))
  {
    TestResult(t.manager.testName, LR.HorizonString(t.manager))
  }

  /** Hands `r` to the listener, when there is one. */
  function Send(t: Test, r: TestResult): seq<Delivery> {
    t.delivered + (if t.listener.Some? then [Delivery(t.listener.value, r)] else [])
  }

  /** `addResultListener`: replaces any earlier listener; the test is not dirtied. */
  function AddResultListener(t: Test, listener: nat): (r: Test)
    ensures r.listener == Some(listener)
    ensures r.needsUpdate == t.needsUpdate && r.needsFirstUpdate == t.needsFirstUpdate
    ensures r.manager == t.manager && r.frame == t.frame && r.delivered == t.delivered
  {
    t.(listener := Some(listener))
  }

  /** `startEvent`: dirties the test and logs the event at the current frame. */
  function StartEvent(t: Test, name: string): (r: Test)
    ensures r.needsUpdate && r.needsFirstUpdate == t.needsFirstUpdate
    ensures r.manager == LR.Push(t.manager, LR.Instruction(LR.StartEvent(name), t.frame))
    ensures r.frame == t.frame && r.listener == t.listener && r.delivered == t.delivered
  {
    t.(needsUpdate := true, manager := LR.Push(t.manager, LR.Instruction(LR.StartEvent(name), t.frame)))
  }

  /** `appendData`: dirties the test and records nothing, so the transcript does not change. */
  function AppendData(t: Test, key: string, value: string): (r: Test)
    ensures r.needsUpdate && r.manager == t.manager && ResultOf(r) == ResultOf(t)
    ensures r.needsFirstUpdate == t.needsFirstUpdate && r.frame == t.frame && r.listener == t.listener
    ensures r.delivered == t.delivered
  {
    t.(needsUpdate := true)
  }

  /** `expectEventOnce`: logs the expectation without dirtying the test. */
  function ExpectEventOnce(t: Test, name: string): (r: Test)
    ensures r.needsUpdate == t.needsUpdate && r.needsFirstUpdate == t.needsFirstUpdate
    ensures r.manager == LR.Push(t.manager, LR.Instruction(LR.ExpectEventOnce(name), t.frame))
    ensures r.frame == t.frame && r.listener == t.listener && r.delivered == t.delivered
  {
    t.(manager := LR.Push(t.manager, LR.Instruction(LR.ExpectEventOnce(name), t.frame)))
  }

  /**
   * `finishTest`: dirties the test, logs the finish, hands the result to the
   * listener if any and returns it. The result's transcript ends with the
   * finish lines.
   */
  function FinishTest(t: Test): (r: (Test, TestResult))
    ensures r.0.needsUpdate && r.0.needsFirstUpdate == t.needsFirstUpdate
    ensures r.0.manager == LR.Push(t.manager, LR.Instruction(LR.FinishTest, t.frame))
    ensures r.1 == ResultOf(r.0) && r.1.testName == t.manager.testName
    ensures r.0.delivered == Send(t, r.1) && r.0.frame == t.frame && r.0.listener == t.listener
  {
    var t1 := t.(needsUpdate := true, manager := LR.Push(t.manager, LR.Instruction(LR.FinishTest, t.frame)));
    var res := ResultOf(t1);
    (t1.(delivered := Send(t1, res)), res)
  }

  /**
   * `finishFrame`: always one frame on; it reports, to the listener and to the
   * caller, exactly when the test is dirty or has never reported, and it
   * clears only the first-update flag.
   */
  function FinishFrame(t: Test): (r: (Test, Option<TestResult>))
    ensures r.0.frame == t.frame + 1
    ensures r.1.Some? <==> t.needsUpdate || t.needsFirstUpdate
    ensures !r.0.needsFirstUpdate && r.0.needsUpdate == t.needsUpdate
    ensures r.0.manager == t.manager && r.0.listener == t.listener
    ensures r.1.Some? ==> r.1.value == ResultOf(t) && r.0.delivered == Send(t, ResultOf(t))
    ensures r.1.None? ==> r.0.delivered == t.delivered
  {
    var t1 := t.(needsFirstUpdate := false, frame := t.frame + 1);
    if t.needsUpdate || t.needsFirstUpdate then
      var res := ResultOf(t1);
      (t1.(delivered := Send(t1, res)), Some(res))
    else (t.(frame := t.frame + 1), None)
  }

  /** Every call the older test accepts; its value checks do nothing and are not calls here. */
  datatype Call =
    | StartEventCall(eventName: string)
    | AppendDataCall(key: string, value: string)
    | ExpectCall(eventName: string)
    | FinishCall
    | FrameCall
    | ListenCall(listener: nat)

  /** One call: the test after it, and the result `finishFrame` returned, if it was one. */
  function Apply(t: Test, c: Call): (r: (Test, Option<TestResult>))
    ensures !c.FrameCall? ==> r.1 == None
  {
    match c
    case StartEventCall(name) => (StartEvent(t, name), None)
    case AppendDataCall(k, v) => (AppendData(t, k, v), None)
    case ExpectCall(name) => (ExpectEventOnce(t, name), None)
    case FinishCall => (FinishTest(t).0, None)
    case FrameCall => FinishFrame(t)
    case ListenCall(l) => (AddResultListener(t, l), None)
  }

  /** A run of calls: the final test and how many frames reported. */
  function ApplyAll(t: Test, cs: seq<Call>): (Test, nat)
    decreases |cs|
  {
    if |cs| == 0 then (t, 0)
    else
      var (t1, res) := Apply(t, cs[0]);
      var (t2, n) := ApplyAll(t1, cs[1..]);
      (t2, (if res.Some? then 1 else 0) + n)
  }

  function CountFrames(cs: seq<Call>): nat
    decreases |cs|
  {
    if |cs| == 0 then 0 else (if cs[0].FrameCall? then 1 else 0) + CountFrames(cs[1..])
  }

  /** The reported frames are some of the `finishFrame` calls, and the frame counter counts all of them. */
  lemma {:induction false} ReportsAtMostFrames(t: Test, cs: seq<Call>)
    ensures ApplyAll(t, cs).1 <= CountFrames(cs)
    ensures ApplyAll(t, cs).0.frame == t.frame + CountFrames(cs)
    decreases |cs|
  {
    if |cs| > 0 {
      ReportsAtMostFrames(Apply(t, cs[0]).0, cs[1..]);
    }
  }

  /**
   * Nothing clears `needsUpdate`: once a test is dirty it stays dirty, and
   * every later `finishFrame` reports.
   */
  lemma {:induction false} DirtyStaysDirty(t: Test, cs: seq<Call>)
    requires t.needsUpdate
    ensures ApplyAll(t, cs).0.needsUpdate
    ensures ApplyAll(t, cs).1 == CountFrames(cs)
    decreases |cs|
  {
    if |cs| > 0 {
      DirtyStaysDirty(Apply(t, cs[0]).0, cs[1..]);
    }
  }

  /** Calls that leave a test clean: frames, expectations and listeners. */
  predicate Quiet(c: Call) {
    c.FrameCall? || c.ExpectCall? || c.ListenCall?
  }

  /**
   * A test that only ever expects events reports on its first frame and never
   * again: the first-update flag buys exactly one report.
   */
  lemma {:induction false} QuietTestReportsOnce(t: Test, cs: seq<Call>)
    requires !t.needsUpdate
    requires forall i :: 0 <= i < |cs| ==> Quiet(cs[i])
    ensures ApplyAll(t, cs).1 == if t.needsFirstUpdate && CountFrames(cs) > 0 then 1 else 0
    ensures !ApplyAll(t, cs).0.needsUpdate
    decreases |cs|
  {
    if |cs| > 0 {
      var t1 := Apply(t, cs[0]).0;
      assert forall i :: 0 <= i < |cs[1..]| ==> Quiet(cs[1..][i]);
      QuietTestReportsOnce(t1, cs[1..]);
      if cs[0].FrameCall? {
        assert !t1.needsFirstUpdate;
      }
    }
  }

  /** A new test's first frame reports its start line even though nothing was recorded. */
  lemma FirstFrameReports(name: string)
    ensures var (t, res) := FinishFrame(NewTest(name));
      && res == Some(ResultOf(NewTest(name)))
      && !t.needsFirstUpdate
      && FinishFrame(t).1 == None
  {
  }

  /* -------------------- The `_color*` line builders -------------------- */

  const GreenTag: string := "<br><color=#0f0>"
  const RedTag: string := "<br><color=#f00>"
  const YellowTag: string := "<br><color=#ff0>"

  /** One coloured line: the opening tag, the text, the closing tag. */
  function Tagged(tag: string, text: string): (r: string)
    requires tag == GreenTag || tag == RedTag || tag == YellowTag
    ensures EndsWith(r, text + "</color>")
    ensures forall other :: other in {GreenTag, RedTag, YellowTag} ==> (StartsWith(r, other) <==> other == tag)
    ensures |tag| <= |r| && r[|tag|..] == text + "</color>"
  {
    var r := tag + (text + "</color>");
    assert r[..|tag|] == tag;
    assert r[|r| - |text + "</color>"|..] == text + "</color>";
    r
  }

  /** `_colorExpectationsNotZero`: green `key : actual` when the check holds, otherwise red `EXPECTED key : expected`. */
  function ColorExpectationsNotZero(isExpected: bool, key: string, actualStr: string, expectedStr: string): (r: string)
    ensures EndsWith(r, "</color>")
    ensures isExpected <==> StartsWith(r, GreenTag)
    ensures !isExpected <==> StartsWith(r, RedTag)
    ensures isExpected ==> r[|GreenTag|..] == key + " : " + actualStr + "</color>"
    ensures !isExpected ==> r[|RedTag|..] == "EXPECTED " + key + " : " + expectedStr + "</color>"
  {
    if isExpected then Tagged(GreenTag, key + " : " + actualStr)
    else Tagged(RedTag, "EXPECTED " + key + " : " + expectedStr)
  }

  /** `_colorWarnNotZero`: as the expectation, but yellow and `WARN EXPECTED` when the check fails. */
  function ColorWarnNotZero(isExpected: bool, key: string, actualStr: string, expectedStr: string): (r: string)
    ensures EndsWith(r, "</color>")
    ensures isExpected <==> StartsWith(r, GreenTag)
    ensures !isExpected <==> StartsWith(r, YellowTag)
    ensures isExpected ==> r[|GreenTag|..] == key + " : " + actualStr + "</color>"
    ensures !isExpected ==> r[|YellowTag|..] == "WARN EXPECTED " + key + " : " + expectedStr + "</color>"
  {
    if isExpected then Tagged(GreenTag, key + " : " + actualStr)
    else Tagged(YellowTag, "WARN EXPECTED " + key + " : " + expectedStr)
  }

  /** `_colorExpectationsNotEqual`: green `key : actual`, or red with the expected and the actual value on two lines. */
  function ColorExpectationsNotEqual(isExpected: bool, key: string, actualStr: string, expectedStr: string): (r: string)
    ensures EndsWith(r, key + " : " + actualStr + "</color>")
    ensures isExpected <==> StartsWith(r, GreenTag)
    ensures !isExpected <==> StartsWith(r, RedTag)
    ensures isExpected ==> r[|GreenTag|..] == key + " : " + actualStr + "</color>"
    ensures !isExpected ==>
      r[|RedTag|..] == "EXPECTED " + key + " : " + expectedStr + "<br>ACTUAL " + key + " : " + actualStr + "</color>"
  {
    var actual := key + " : " + actualStr;
    if isExpected then Tagged(GreenTag, actual)
    else
      var r := Tagged(RedTag, "EXPECTED " + key + " : " + expectedStr + "<br>ACTUAL " + actual);
      EndsWithTail("EXPECTED " + key + " : " + expectedStr + "<br>ACTUAL ", actual + "</color>");
      r
  }

  /** `_colorWarnNotEqual`: as the expectation, but yellow and `WARN EXPECTED` when the check fails. */
  function ColorWarnNotEqual(isExpected: bool, key: string, actualStr: string, expectedStr: string): (r: string)
    ensures EndsWith(r, key + " : " + actualStr + "</color>")
    ensures isExpected <==> StartsWith(r, GreenTag)
    ensures !isExpected <==> StartsWith(r, YellowTag)
    ensures isExpected ==> r[|GreenTag|..] == key + " : " + actualStr + "</color>"
    ensures !isExpected ==>
      r[|YellowTag|..] == "WARN EXPECTED " + key + " : " + expectedStr + "<br>ACTUAL " + key + " : " + actualStr + "</color>"
  {
    var actual := key + " : " + actualStr;
    if isExpected then Tagged(GreenTag, actual)
    else
      var r := Tagged(YellowTag, "WARN EXPECTED " + key + " : " + expectedStr + "<br>ACTUAL " + actual);
      EndsWithTail("WARN EXPECTED " + key + " : " + expectedStr + "<br>ACTUAL ", actual + "</color>");
      r
  }

  /** A text ending in `a + b` ends in `b`. */
  lemma EndsWithTail(a: string, b: string)
    ensures forall s :: EndsWith(s, a + b) ==> EndsWith(s, b)
  {
    forall s | EndsWith(s, a + b)
      ensures EndsWith(s, b)
    {
      assert s[|s| - |b|..] == (a + b)[|a|..];
    }
  }

  /**
   * A passing check prints the same line whichever builder prints it, and the
   * expected value does not appear in it.
   */
  lemma PassingLinesAgree(key: string, actualStr: string, expectedStr: string, other: string)
    ensures ColorWarnNotZero(true, key, actualStr, expectedStr) == ColorExpectationsNotZero(true, key, actualStr, other)
    ensures ColorWarnNotEqual(true, key, actualStr, expectedStr) == ColorExpectationsNotZero(true, key, actualStr, other)
    ensures ColorExpectationsNotEqual(true, key, actualStr, expectedStr) == ColorExpectationsNotZero(true, key, actualStr, other)
  {
  }

  /** A failing warning is the failing expectation in yellow with `WARN ` in front. */
  lemma WarnIsYellowExpectation(key: string, actualStr: string, expectedStr: string)
    ensures ColorWarnNotZero(false, key, actualStr, expectedStr)
      == YellowTag + "WARN " + ColorExpectationsNotZero(false, key, actualStr, expectedStr)[|RedTag|..]
    ensures ColorWarnNotEqual(false, key, actualStr, expectedStr)
      == YellowTag + "WARN " + ColorExpectationsNotEqual(false, key, actualStr, expectedStr)[|RedTag|..]
  {
    WarnNotZeroIsYellow(key, actualStr, expectedStr);
    WarnNotEqualIsYellow(key, actualStr, expectedStr);
  }

  lemma WarnNotZeroIsYellow(key: string, actualStr: string, expectedStr: string)
    ensures ColorWarnNotZero(false, key, actualStr, expectedStr)
      == YellowTag + "WARN " + ColorExpectationsNotZero(false, key, actualStr, expectedStr)[|RedTag|..]
  {
    var x := "EXPECTED " + key + " : " + expectedStr;
    WarnPrefix("EXPECTED ", key + " : " + expectedStr);
    assert "WARN EXPECTED " + key + " : " + expectedStr == "WARN " + x;
    WarnTagged(x);
  }

  lemma WarnNotEqualIsYellow(key: string, actualStr: string, expectedStr: string)
    ensures ColorWarnNotEqual(false, key, actualStr, expectedStr)
      == YellowTag + "WARN " + ColorExpectationsNotEqual(false, key, actualStr, expectedStr)[|RedTag|..]
  {
    var rest := key + " : " + expectedStr + "<br>ACTUAL " + (key + " : " + actualStr);
    var y := "EXPECTED " + rest;
    WarnPrefix("EXPECTED ", rest);
    assert "WARN EXPECTED " + key + " : " + expectedStr + "<br>ACTUAL " + (key + " : " + actualStr) == "WARN " + y;
    assert "EXPECTED " + key + " : " + expectedStr + "<br>ACTUAL " + (key + " : " + actualStr) == y;
    WarnTagged(y);
  }

  /** `WARN EXPECTED ` is `WARN ` followed by `EXPECTED `. */
  lemma WarnPrefix(e: string, rest: string)
    requires e == "EXPECTED "
    ensures "WARN EXPECTED " + rest == "WARN " + (e + rest)
  {
    assert "WARN EXPECTED " == "WARN " + e;
  }

  lemma WarnTagged(x: string)
    ensures Tagged(YellowTag, "WARN " + x) == YellowTag + "WARN " + Tagged(RedTag, x)[|RedTag|..]
  {
    assert Tagged(YellowTag, "WARN " + x) == YellowTag + ("WARN " + x + "</color>");
  }

  /**
   * A failing inequality is the failing not-zero line with the actual value
   * added on a second line; a failing not-zero line does not depend on the
   * actual value.
   */
  lemma NotEqualAddsActual(key: string, actualStr: string, expectedStr: string, other: string)
    ensures var z := ColorExpectationsNotZero(false, key, actualStr, expectedStr);
      ColorExpectationsNotEqual(false, key, actualStr, expectedStr)
        == z[..|z| - |"</color>"|] + ("<br>ACTUAL " + (key + " : " + actualStr)) + "</color>"
    ensures ColorExpectationsNotZero(false, key, actualStr, expectedStr) == ColorExpectationsNotZero(false, key, other, expectedStr)
  {
    var x := "EXPECTED " + key + " : " + expectedStr;
    var y := "<br>ACTUAL " + (key + " : " + actualStr);
    AppendAssoc(x, "<br>ACTUAL ", key + " : " + actualStr);
    TaggedExtend(RedTag, x, y);
  }

  /** Extending a tagged text is inserting before the closing tag. */
  lemma TaggedExtend(tag: string, x: string, y: string)
    requires tag == GreenTag || tag == RedTag || tag == YellowTag
    ensures var z := Tagged(tag, x); |z| >= |"</color>"| && Tagged(tag, x + y) == z[..|z| - |"</color>"|] + y + "</color>"
  {
    var z := Tagged(tag, x);
    assert z == (tag + x) + "</color>";
    assert z[..|z| - |"</color>"|] == tag + x;
  }
}
