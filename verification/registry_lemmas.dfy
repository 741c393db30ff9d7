/** What the store and the runner promise about restarting tests and driving frames. */
module RegistryLemmas {
  import opened Wrappers
  import opened Strings
  import R = Replay
  import L = Lifecycle
  import opened Registry

  /**
   * Restarting a name: the store cancels the previous test, which reports CANCEL
   * but is neither dirtied nor sent, so nobody hears of it; the runner leaves
   * the previous test untouched. Either way the name now belongs to a new test.
   */
  lemma RestartReplacesTest(s: Registry, name: string)
    requires Inv(s) && name in s.tests
    ensures var prev := s.tests[name]; var r := StartTest(s, name);
      && r.reg.tests[name] == r.testId && r.testId != prev
      && r.reg.notices == s.notices
      && (s.kind.StoreKind? ==>
            && r.reg.all[prev].isCancelled
            && L.ResultOf(r.reg.all[prev]).status == R.Status(true, R.PassStatus.Cancel)
            && r.reg.all[prev].needsUpdate == s.all[prev].needsUpdate)
      && (s.kind.RunnerKind? ==> r.reg.all[prev] == s.all[prev])
  {
    var prev := s.tests[name];
    var r := StartTest(s, name);
    assert prev in s.all;
    assert r.reg.all[prev] == AfterReplace(s, name)[prev];
    L.CancelReportsCancel(s.all[prev]);
  }

  lemma VisitablePrefix(s: Registry, names: seq<string>)
    requires Visitable(s, names) && |names| > 0
    ensures Visitable(s, names[..|names| - 1])
    ensures forall k :: 0 <= k < |names| - 1 ==> s.tests[names[k]] != s.tests[names[|names| - 1]]
  {
  }

  /** `finishFrame`'s loop leaves the tests it does not visit alone. */
  lemma {:induction false} FrameNamesUntouched(s: Registry, names: seq<string>, id: nat)
    requires Listed(s, names)
    requires id in s.all && forall k :: 0 <= k < |names| ==> s.tests[names[k]] != id
    ensures FrameNames(s, names).0.all[id] == s.all[id]
    decreases |names|
  {
    if |names| > 0 {
      ListedPrefix(s, names);
      FrameNamesUntouched(s, names[..|names| - 1], id);
    }
  }

  lemma ListedPrefix(s: Registry, names: seq<string>)
    requires Listed(s, names) && |names| > 0
    ensures Listed(s, names[..|names| - 1])
    ensures forall k :: 0 <= k < |names| - 1 ==> names[..|names| - 1][k] == names[k]
  {
  }

  /** `finishFrame`'s loop finishes the frame of each visited test exactly once. */
  lemma {:induction false} FrameNamesVisited(s: Registry, names: seq<string>, k: nat)
    requires Listed(s, names) && DistinctIds(s, names) && k < |names|
    ensures FrameNames(s, names).0.all[s.tests[names[k]]] == L.FinishFrame(s.all[s.tests[names[k]]]).test
    decreases |names|
  {
    if k == |names| - 1 {
      FrameNamesVisitedLast(s, names);
    } else {
      var init := names[..|names| - 1];
      ListedPrefix(s, names);
      assert DistinctIds(s, init);
      FrameNamesVisited(s, init, k);
      FrameNamesOtherKept(s, names, s.tests[names[k]]);
    }
  }

  /** The last name's test has its frame finished by the loop's last step. */
  lemma FrameNamesVisitedLast(s: Registry, names: seq<string>)
    requires Listed(s, names) && DistinctIds(s, names) && |names| > 0
    ensures var id := s.tests[names[|names| - 1]];
      FrameNames(s, names).0.all[id] == L.FinishFrame(s.all[id]).test
  {
    ListedPrefix(s, names);
    FrameNamesLastAll(s, names);
    FrameNamesUntouched(s, names[..|names| - 1], s.tests[names[|names| - 1]]);
  }

  /** The loop's last step leaves every other test as the steps before left it. */
  lemma FrameNamesOtherKept(s: Registry, names: seq<string>, id: nat)
    requires Listed(s, names) && |names| > 0 && id in s.all && id != s.tests[names[|names| - 1]]
    ensures FrameNames(s, names).0.all[id] == FrameNames(s, names[..|names| - 1]).0.all[id]
  {
    FrameNamesLastAll(s, names);
  }

  /** The visited names stand for pairwise different tests. */
  ghost predicate DistinctIds(s: Registry, names: seq<string>)
    requires Listed(s, names)
  {
    forall i, j :: 0 <= i < j < |names| ==> s.tests[names[i]] != s.tests[names[j]]
  }

  /** The loop's last step finishes the frame of the last name's test only. */
  lemma FrameNamesLastAll(s: Registry, names: seq<string>)
    requires Listed(s, names) && |names| > 0
    ensures var p := FrameNames(s, names[..|names| - 1]).0; var id := s.tests[names[|names| - 1]];
      FrameNames(s, names).0.all == p.all[id := L.FinishFrame(p.all[id]).test]
  {
    FrameNamesLast(s, names);
  }

  /** `finishFrame` advances every registered test by one frame and leaves replaced tests alone. */
  lemma FrameVisitsEachOnce(s: Registry)
    requires Inv(s)
    ensures var all := FinishFrame(s).0.all;
      && (forall n :: n in s.tests ==> all[s.tests[n]] == L.FinishFrame(s.all[s.tests[n]]).test)
      && (forall id :: id in s.all && (forall n :: n in s.tests ==> s.tests[n] != id) ==> all[id] == s.all[id])
  {
    OrderListed(s);
    FrameFinishesRegistered(s);
    FrameKeepsReplaced(s);
  }

  /** The registration order lists every registered test once. */
  lemma OrderListed(s: Registry)
    requires Inv(s)
    ensures Listed(s, s.order) && DistinctIds(s, s.order)
    ensures forall n :: n in s.tests ==> exists k :: 0 <= k < |s.order| && s.order[k] == n
  {
    assert Listed(s, s.order);
  }

  lemma FrameFinishesRegistered(s: Registry)
    requires Inv(s) && Listed(s, s.order) && DistinctIds(s, s.order)
    requires forall n :: n in s.tests ==> exists k :: 0 <= k < |s.order| && s.order[k] == n
    ensures var all := FinishFrame(s).0.all;
      forall n :: n in s.tests ==> all[s.tests[n]] == L.FinishFrame(s.all[s.tests[n]]).test
  {
    var all := FinishFrame(s).0.all;
    forall n | n in s.tests
      ensures all[s.tests[n]] == L.FinishFrame(s.all[s.tests[n]]).test
    {
      var k :| 0 <= k < |s.order| && s.order[k] == n;
      FrameNamesVisited(s, s.order, k);
    }
  }

  lemma FrameKeepsReplaced(s: Registry)
    requires Inv(s) && Listed(s, s.order)
    ensures var all := FinishFrame(s).0.all;
      forall id :: id in s.all && (forall n :: n in s.tests ==> s.tests[n] != id) ==> all[id] == s.all[id]
  {
    var all := FinishFrame(s).0.all;
    forall id | id in s.all && (forall n :: n in s.tests ==> s.tests[n] != id)
      ensures all[id] == s.all[id]
    {
      FrameNamesUntouched(s, s.order, id);
    }
  }

  /**
   * The loop returns a result exactly when the current test is among the
   * visited ones and was dirty, and then it is that test's result.
   */
  lemma {:induction false} FrameNamesResult(s: Registry, names: seq<string>)
    requires Visitable(s, names)
    ensures var res := FrameNames(s, names).1;
      && (res.Some? <==> CurrentIsDirty(s, names))
      && (res.Some? ==> res.value == L.ResultOf(s.all[s.current.value.testId]))
    decreases |names|
  {
    if |names| > 0 {
      VisitablePrefix(s, names);
      FrameNamesResult(s, names[..|names| - 1]);
      LastUntouchedBefore(s, names);
      assert Listed(s, names);
      FrameNamesResultStep(s, names);
    }
  }

  /** The last name's test is untouched by the loop over the names before it. */
  lemma LastUntouchedBefore(s: Registry, names: seq<string>)
    requires Visitable(s, names) && |names| > 0
    ensures var id := s.tests[names[|names| - 1]];
      FrameNames(s, names[..|names| - 1]).0.all[id] == s.all[id]
  {
    VisitablePrefix(s, names);
    FrameNamesUntouched(s, names[..|names| - 1], s.tests[names[|names| - 1]]);
  }

  /** The inductive step of `FrameNamesResult`: one more name visited. */
  lemma FrameNamesResultStep(s: Registry, names: seq<string>)
    requires Listed(s, names) && |names| > 0
    requires var id := s.tests[names[|names| - 1]]; s.all[id].testId == id
    requires FrameNames(s, names[..|names| - 1]).0.all[s.tests[names[|names| - 1]]] == s.all[s.tests[names[|names| - 1]]]
    requires var res := FrameNames(s, names[..|names| - 1]).1;
      && (res.Some? <==> CurrentIsDirty(s, names[..|names| - 1]))
      && (res.Some? ==> res.value == L.ResultOf(s.all[s.current.value.testId]))
    ensures var res := FrameNames(s, names).1;
      && (res.Some? <==> CurrentIsDirty(s, names))
      && (res.Some? ==> res.value == L.ResultOf(s.all[s.current.value.testId]))
  {
    var init := names[..|names| - 1];
    var last := names[|names| - 1];
    var p := FrameNames(s, init);
    FrameNamesLast(s, names);
    FrameStepResult(s, p.0, last);
    CurrentIsDirtySnoc(s, names);
    StepCombines(s, p, FrameStep(p.0, last), FrameNames(s, names), s.tests[last], CurrentIsDirty(s, init), CurrentIsDirty(s, names));
  }

  /** One more step of the loop, in terms of its parts. */
  lemma StepCombines(s: Registry, p: (Registry, Option<L.TestResult>), q: (Registry, Option<L.TestResult>),
                     r: (Registry, Option<L.TestResult>), id: nat, before: bool, after: bool)
    requires id in s.all
    requires before ==> s.current.Some? && s.current.value.testId in s.all
    requires r.1 == if q.1.Some? then q.1 else p.1
    requires p.1.Some? <==> before
    requires p.1.Some? ==> p.1.value == L.ResultOf(s.all[s.current.value.testId])
    requires q.1.Some? <==> s.current.Some? && s.current.value.testId == id && s.all[id].needsUpdate
    requires q.1.Some? ==> q.1.value == L.ResultOf(s.all[id])
    requires after <==> before || (s.current.Some? && s.current.value.testId == id && s.all[id].needsUpdate)
    ensures r.1.Some? <==> after
    ensures r.1.Some? ==> r.1.value == L.ResultOf(s.all[s.current.value.testId])
  {
  }

  /** Every name is registered, under a test the registry holds. */
  ghost predicate Listed(s: Registry, names: seq<string>) {
    forall k :: 0 <= k < |names| ==> names[k] in s.tests && s.tests[names[k]] in s.all
  }

  /** A test not yet visited sends its result from the loop exactly when it is dirty and is the recorded current test. */
  lemma FrameStepResult(s: Registry, s1: Registry, name: string)
    requires SameShape(s, s1) && name in s.tests && s.tests[name] in s.all && s.all[s.tests[name]].testId == s.tests[name]
    requires s1.all[s.tests[name]] == s.all[s.tests[name]]
    ensures var id := s.tests[name]; var r := FrameStep(s1, name).1;
      && (r.Some? <==> s.current.Some? && s.current.value.testId == id && s.all[id].needsUpdate)
      && (r.Some? ==> r.value == L.ResultOf(s.all[id]))
  {
  }

  lemma CurrentIsDirtySnoc(s: Registry, names: seq<string>)
    requires Listed(s, names) && |names| > 0
    ensures var id := s.tests[names[|names| - 1]];
      CurrentIsDirty(s, names) <==>
        CurrentIsDirty(s, names[..|names| - 1]) || (s.current.Some? && s.current.value.testId == id && s.all[id].needsUpdate)
  {
    var init := names[..|names| - 1];
    assert forall k :: 0 <= k < |init| ==> init[k] == names[k];
    if CurrentIsDirty(s, names) {
      var k :| 0 <= k < |names| && names[k] in s.tests && s.tests[names[k]] == s.current.value.testId;
      if k < |init| {
        assert init[k] == names[k];
      }
    }
    if CurrentIsDirty(s, init) {
      var k :| 0 <= k < |init| && init[k] in s.tests && s.tests[init[k]] == s.current.value.testId;
      assert names[k] == init[k];
    }
    if s.current.Some? && s.current.value.testId == s.tests[names[|names| - 1]] {
      assert names[|names| - 1] in s.tests;
    }
  }

  /**
   * The store's `finishFrame` returns a result exactly when the recorded
   * current test is still registered and dirty, and then it is its result.
   */
  lemma FrameReturnsCurrent(s: Registry)
    requires Inv(s)
    ensures var res := FinishFrame(s).1;
      && (res.Some? <==>
            && s.current.Some? && s.current.value.testId in s.all
            && (exists n :: n in s.tests && s.tests[n] == s.current.value.testId)
            && s.all[s.current.value.testId].needsUpdate)
      && (res.Some? ==> res.value == L.ResultOf(s.all[s.current.value.testId]) && res.value.testId == s.current.value.testId)
  {
    FrameNamesResult(s, s.order);
    if s.current.Some? && exists n :: n in s.tests && s.tests[n] == s.current.value.testId {
      var n :| n in s.tests && s.tests[n] == s.current.value.testId;
      var k :| 0 <= k < |s.order| && s.order[k] == n;
    }
  }

  /** With every registered test clean, the loop sends and returns nothing. */
  lemma {:induction false} CleanFrameSilent(s: Registry, names: seq<string>)
    requires Listed(s, names) && AllClean(s)
    ensures FrameNames(s, names).1 == None
    ensures FrameNames(s, names).0.notices == s.notices
    ensures AllClean(FrameNames(s, names).0)
    decreases |names|
  {
    if |names| > 0 {
      ListedPrefix(s, names);
      CleanFrameSilent(s, names[..|names| - 1]);
      FrameNamesLast(s, names);
    }
  }

  /**
   * Two `finishFrame` calls with nothing in between: the second sends
   * nothing, notifies nobody and returns nothing.
   */
  lemma SecondFrameSilent(s: Registry)
    requires Inv(s)
    ensures var s1 := FinishFrame(s).0; var (s2, res) := FinishFrame(s1);
      res == None && s2.notices == s1.notices
  {
    FrameLeavesAllClean(s);
    var s1 := FinishFrame(s).0;
    CleanFrameSilent(s1, s1.order);
  }

  /** After a frame every registered test is clean. */
  lemma FrameLeavesAllClean(s: Registry)
    requires Inv(s)
    ensures var s1 := FinishFrame(s).0; AllClean(s1) && Listed(s1, s1.order)
  {
    OrderListed(s);
    FrameFinishesRegistered(s);
    var s1 := FinishFrame(s).0;
    forall n | n in s1.tests
      ensures s1.tests[n] in s1.all && !s1.all[s1.tests[n]].needsUpdate
    {
      var t := s.all[s.tests[n]];
      assert s1.all[s.tests[n]] == L.FinishFrame(t).test;
    }
  }

  /**
   * After `setCurrentTest(name)` on a registered name, the next frame returns
   * that test's result exactly when that test is dirty.
   */
  lemma SetCurrentRoutesResult(s: Registry, name: string)
    requires Inv(s) && name in s.tests
    ensures var s1 := SetCurrentTest(s, name).reg; var res := FinishFrame(s1).1;
      && (res.Some? <==> s.all[s.tests[name]].needsUpdate)
      && (res.Some? ==> res.value == L.ResultOf(s.all[s.tests[name]]))
      && (name != "" ==> GetCurrentTest(s1) == Some(s.tests[name]))
  {
    var s1 := SetCurrentTest(s, name).reg;
    assert Inv(s1);
    FrameReturnsCurrent(s1);
  }

  /** The runner has no all-results listeners: only the current test's results reach anybody. */
  lemma RunnerNotifiesOnlyCurrent(s: Registry, r: L.TestResult)
    requires Inv(s) && s.kind.RunnerKind?
    ensures |FanOut(s, r)| == if IsCurrentResult(s, r) then |s.currentListeners| else 0
    ensures forall i :: 0 <= i < |FanOut(s, r)| ==> FanOut(s, r)[i] == CurrentNotice(s.currentListeners[i], r)
  {
  }

  /** Once replaced, a test's id is registered under no name. */
  lemma ReplacedIdUnregistered(s: Registry, name: string)
    requires Inv(s) && name in s.tests
    ensures forall n :: n in StartTest(s, name).reg.tests ==> StartTest(s, name).reg.tests[n] != s.tests[name]
  {
    var tests := StartTest(s, name).reg.tests;
    forall n | n in tests
      ensures tests[n] != s.tests[name]
    {
      if n != name {
        assert tests[n] == s.tests[n];
      }
    }
  }

  /**
   * Restarting the current test's name: `getCurrentTest` then finds the new
   * test, but the recorded current id is still the replaced test's, so
   * `finishFrame` returns nothing until `setCurrentTest` is called again.
   */
  lemma RestartLeavesStaleCurrent(s: Registry, name: string)
    requires Inv(s) && name in s.tests && name != ""
    requires s.current == Some(CurrentData(name, s.tests[name]))
    ensures var r := StartTest(s, name);
      && GetCurrentTest(r.reg) == Some(r.testId)
      && r.reg.current == s.current && r.testId != s.current.value.testId
      && Inv(r.reg) && FinishFrame(r.reg).1 == None
  {
    var r := StartTest(s, name);
    StartTestInv(s, name);
    ReplacedIdUnregistered(s, name);
    FrameReturnsCurrent(r.reg);
  }

  /** A started test is found under its name, and its result carries that name and its id. */
  lemma StartedTestIsFound(s: Registry, name: string)
    requires Inv(s)
    ensures var r := StartTest(s, name);
      && GetTest(r.reg, name) == Some(r.testId)
      && GetTestResult(r.reg, name).Found?
      && GetTestResult(r.reg, name).result.testName == name
      && GetTestResult(r.reg, name).result.testId == r.testId
  {
    StartTestInv(s, name);
  }

  /**
   * The result `finishFrame` returns is what `getTestResult` then gives for the
   * current name, as long as that name still belongs to the current test.
   */
  lemma FrameResultReadsBack(s: Registry)
    requires Inv(s)
    ensures var res := FinishFrame(s).1; var cur := s.current;
      res.Some? && cur.Some? && cur.value.testName in s.tests && s.tests[cur.value.testName] == cur.value.testId
      ==> GetTestResult(FinishFrame(s).0, cur.value.testName) == Found(res.value)
  {
    var s1 := FinishFrame(s).0;
    var res := FinishFrame(s).1;
    FrameReturnsCurrent(s);
    if res.Some? && s.current.Some? && s.current.value.testName in s.tests && s.tests[s.current.value.testName] == s.current.value.testId {
      var n := s.current.value.testName;
      var id := s.tests[n];
      FrameFinishesNamed(s, n);
      FrameKeepsResult(s.all[id]);
      assert L.ResultOf(s1.all[id]) == res.value;
    }
  }

  /** After a frame, a registered name holds its test with that frame finished. */
  lemma FrameFinishesNamed(s: Registry, n: string)
    requires Inv(s) && n in s.tests
    ensures Inv(FinishFrame(s).0) && FinishFrame(s).0.tests == s.tests
    ensures FinishFrame(s).0.all[s.tests[n]] == L.FinishFrame(s.all[s.tests[n]]).test
  {
    FrameVisitsEachOnce(s);
  }

  /** A frame changes neither the name, the id nor the log, so the result it would give is unchanged. */
  lemma FrameKeepsResult(t: L.Test)
    ensures L.ResultOf(L.FinishFrame(t).test) == L.ResultOf(t)
  {
  }

  /** The listener calls a loop over `names` makes, one test after another, each against the registry before the loop. */
  ghost function FrameNotices(s: Registry, names: seq<string>): seq<Notice>
    requires Listed(s, names)
    decreases |names|
  {
    if |names| == 0 then []
    else FrameNotices(s, names[..|names| - 1]) + StepNotices(s, s.all[s.tests[names[|names| - 1]]])
  }

  /**
   * The loop appends, in visiting order, the fan-out of each dirty test's
   * result to the listener calls made so far; clean tests add nothing.
   */
  lemma {:induction false} FrameNamesNotices(s: Registry, names: seq<string>)
    requires Listed(s, names) && DistinctIds(s, names)
    ensures FrameNames(s, names).0.notices == s.notices + FrameNotices(s, names)
    decreases |names|
  {
    if |names| > 0 {
      var init := names[..|names| - 1];
      ListedPrefix(s, names);
      var step := StepNotices(s, s.all[s.tests[names[|names| - 1]]]);
      assert DistinctIds(s, init);
      FrameNamesNotices(s, init);
      FrameNoticesStep(s, names);
      AppendAssoc(s.notices, FrameNotices(s, init), step);
    }
  }

  /** The loop's last step appends the last test's listener calls, judged against the registry before the loop. */
  lemma FrameNoticesStep(s: Registry, names: seq<string>)
    requires Listed(s, names) && DistinctIds(s, names) && |names| > 0
    ensures Listed(s, names[..|names| - 1])
    ensures FrameNames(s, names).0.notices
      == FrameNames(s, names[..|names| - 1]).0.notices + StepNotices(s, s.all[s.tests[names[|names| - 1]]])
  {
    var init := names[..|names| - 1];
    var last := names[|names| - 1];
    ListedPrefix(s, names);
    FrameNamesLast(s, names);
    var p := FrameNames(s, init).0;
    var t := s.all[s.tests[last]];
    FrameNamesUntouched(s, init, s.tests[last]);
    FanOutListenersOnly(s, p, L.ResultOf(t));
    assert StepNotices(p, t) == StepNotices(s, t);
  }

  /** `finishFrame` as a whole: the registered tests' fan-outs, in registration order, after the earlier calls. */
  lemma FinishFrameNotices(s: Registry)
    requires Inv(s)
    ensures Listed(s, s.order)
    ensures FinishFrame(s).0.notices == s.notices + FrameNotices(s, s.order)
  {
    OrderListed(s);
    FrameNamesNotices(s, s.order);
  }
}
