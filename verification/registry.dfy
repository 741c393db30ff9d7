/**
 * The multi-test registries: `ZTestsStoreImpl` (`src/Zest/ZTest.ts`) and its
 * sibling `ZTestsRunnerImpl` (`src/Zest/ZTestsRunnerImpl.ts`). Both keep a
 * name-to-test map, a "current" (name, test id) pair and listener lists, and
 * both drive every registered test's `finishFrame`. They differ in two places,
 * which `Kind` selects: the store cancels a test replaced under the same name
 * and also has all-results listeners; the runner does neither.
 *
 * Tests are kept by id in `all`, including replaced ones, because a caller may
 * still hold a replaced test and call it; `tests` maps each registered name to
 * its id and `order` lists the names in the order they were first registered.
 */
module Registry {
  import opened Wrappers
  import L = Lifecycle
  import R = Replay

  datatype Kind = StoreKind | RunnerKind

  datatype CurrentData = CurrentData(testName: string, testId: nat)

  /**
   * One listener call made by the registry: an all-results listener gets the
   * result and whether it is the current test's; a current-only listener gets
   * the result.
   */
  datatype Notice =
    | AllNotice(listener: nat, result: L.TestResult, isCurrent: bool)
    | CurrentNotice(listener: nat, result: L.TestResult)

  datatype Registry = Registry(
    kind: Kind,
    tests: map<string, nat>,
    order: seq<string>,
    all: map<nat, L.Test>,
    current: Option<CurrentData>,
    resultListeners: seq<nat>,
    currentListeners: seq<nat>,
    notices: seq<Notice>,
    nextId: nat)

  /** The listener number under which the registry listens to each test it creates. */
  const Forwarder: nat := 0

  function Empty(kind: Kind): Registry {
    Registry(kind, map[], [], map[], None, [], [], [], 0)
  }

  /** What every reachable registry satisfies. */
  ghost predicate Inv(s: Registry) {
    && (forall i, j :: 0 <= i < j < |s.order| ==> s.order[i] != s.order[j])
    && (forall n :: n in s.tests <==> n in s.order)
    && (forall n :: n in s.tests ==> s.tests[n] in s.all)
    && (forall n, m :: n in s.tests && m in s.tests && n != m ==> s.tests[n] != s.tests[m])
    && (forall id :: id in s.all ==> id < s.nextId && s.all[id].testId == id)
    && (s.kind.RunnerKind? ==> s.resultListeners == [])
  }

  lemma EmptyInv(kind: Kind)
    ensures Inv(Empty(kind))
  {
  }

  /** Whether results carrying this id count as the current test's. */
  predicate IsCurrentResultId(s: Registry, id: nat) {
    s.current.Some? && s.current.value.testId == id
  }

  /** Whether a result belongs to the current test: its id is the recorded current id. */
  predicate IsCurrentResult(s: Registry, r: L.TestResult) {
    IsCurrentResultId(s, r.testId)
  }

  /**
   * `updateResultListeners` / `updateResultIfCurrentTest`: every all-results
   * listener hears of the result, tagged with whether it is current; the
   * current-only listeners hear of it only when it is.
   */
  function FanOut(s: Registry, r: L.TestResult): (ns: seq<Notice>)
    ensures var extra := if IsCurrentResult(s, r) then |s.currentListeners| else 0;
      |ns| == |s.resultListeners| + extra
    ensures forall i :: 0 <= i < |s.resultListeners| ==> ns[i] == AllNotice(s.resultListeners[i], r, IsCurrentResult(s, r))
    ensures IsCurrentResult(s, r) ==>
      forall i :: 0 <= i < |s.currentListeners| ==> ns[|s.resultListeners| + i] == CurrentNotice(s.currentListeners[i], r)
  {
    var isCurrent := IsCurrentResult(s, r);
    var toAll := seq(|s.resultListeners|, i requires 0 <= i < |s.resultListeners| => AllNotice(s.resultListeners[i], r, isCurrent));
    var toCurrent := seq(|s.currentListeners|, i requires 0 <= i < |s.currentListeners| => CurrentNotice(s.currentListeners[i], r));
    toAll + (if isCurrent then toCurrent else [])
  }

  /** The registry's listener on a test: a sent result is fanned out. */
  function Notify(s: Registry, sent: Option<L.TestResult>): (r: Registry)
    ensures r.(notices := s.notices) == s
    ensures sent.None? ==> r.notices == s.notices
    ensures sent.Some? ==> r.notices == s.notices + FanOut(s, sent.value)
  {
    if sent.Some? then s.(notices := s.notices + FanOut(s, sent.value)) else s
  }

  datatype Started = Started(reg: Registry, testId: nat)

  /**
   * `startTest`: the store first cancels a test registered under the same name
   * (the runner leaves it running); a new test with a fresh id, listened to by
   * the registry, takes the name; it becomes current only when there is no
   * current test yet.
   */
  function StartTest(s: Registry, name: string): (r: Started)
    requires Inv(s)
    ensures r.testId == s.nextId && r.testId !in s.all
    ensures r.reg.tests == s.tests[name := r.testId]
    ensures r.reg.order == if name in s.tests then s.order else s.order + [name]
    ensures r.reg.nextId == s.nextId + 1
    ensures r.reg.all == AfterReplace(s, name)[r.testId := L.AddResultListener(L.NewTest(name, r.testId), Forwarder)]
    ensures r.reg.current == if s.current.None? then Some(CurrentData(name, r.testId)) else s.current
    ensures r.reg.(tests := s.tests, order := s.order, all := s.all, current := s.current, nextId := s.nextId) == s
  {
    var id := s.nextId;
    var t := L.AddResultListener(L.NewTest(name, id), Forwarder);
    var s2 := s.(
      tests := s.tests[name := id],
      order := if name in s.tests then s.order else s.order + [name],
      all := AfterReplace(s, name)[id := t],
      current := if s.current.None? then Some(CurrentData(name, id)) else s.current,
      nextId := id + 1);
    Started(s2, id)
  }

  /** The tests once a same-name test has been replaced: the store cancels it, the runner leaves it alone. */
  function AfterReplace(s: Registry, name: string): (all: map<nat, L.Test>)
    requires Inv(s)
    ensures all.Keys == s.all.Keys
    ensures forall id :: id in all ==> all[id].testId == s.all[id].testId
  {
    if s.kind.StoreKind? && name in s.tests
    then s.all[s.tests[name] := L.Cancel(s.all[s.tests[name]])]
    else s.all
  }

  lemma StartTestInv(s: Registry, name: string)
    requires Inv(s)
    ensures Inv(StartTest(s, name).reg)
  {
    var r := StartTest(s, name);
    AddTestKeepsInv(s, name, AfterReplace(s, name), r.reg.all[r.testId], r.reg.current);
  }

  /** Registering a test with the next id under a name keeps the invariant, whatever becomes current. */
  lemma AddTestKeepsInv(s: Registry, name: string, all: map<nat, L.Test>, t: L.Test, cur: Option<CurrentData>)
    requires Inv(s)
    requires all.Keys == s.all.Keys && forall x :: x in all ==> all[x].testId == s.all[x].testId
    requires t.testId == s.nextId
    ensures Inv(s.(tests := s.tests[name := s.nextId], order := if name in s.tests then s.order else s.order + [name],
      all := all[s.nextId := t], current := cur, nextId := s.nextId + 1))
  {
    var order := if name in s.tests then s.order else s.order + [name];
    forall i, j | 0 <= i < j < |order|
      ensures order[i] != order[j]
    {
      if name !in s.tests && j == |s.order| {
        assert order[i] == s.order[i];
      }
    }
  }

  /** `getTest`: the id of the test registered under the name, if any; with the invariant it is a test the registry holds. */
  function GetTest(s: Registry, name: string): (r: Option<nat>)
    ensures r.Some? <==> name in s.tests
    ensures r.Some? ==> r.value == s.tests[name]
    ensures Inv(s) && r.Some? ==> r.value in s.all && s.all[r.value].testId == r.value
  {
    if name in s.tests then Some(s.tests[name]) else None
  }

  datatype Chosen = Chosen(reg: Registry, testId: Option<nat>)

  /**
   * `setCurrentTest`: returns what `getTest` finds; a registered name becomes
   * current with its test's id, so `getCurrentTest` then finds that test
   * (unless the name is the empty string, which `getCurrentTest` ignores); an
   * unknown name changes nothing.
   */
  function SetCurrentTest(s: Registry, name: string): (r: Chosen)
    ensures r.testId == GetTest(s, name)
    ensures r.testId.None? ==> r.reg == s
    ensures r.testId.Some? ==> r.reg.current == Some(CurrentData(name, r.testId.value)) && IsCurrentResultId(r.reg, r.testId.value)
    ensures r.reg.(current := s.current) == s
    ensures r.testId.Some? ==> GetCurrentTest(r.reg) == (if name == "" then None else r.testId)
    ensures Inv(s) ==> Inv(r.reg)
  {
    if name in s.tests then Chosen(s.(current := Some(CurrentData(name, s.tests[name]))), Some(s.tests[name]))
    else Chosen(s, None)
  }

  /**
   * `getCurrentTest`: the test now registered under the current name; none
   * when there is no current test or its name is the empty string.
   */
  function GetCurrentTest(s: Registry): (r: Option<nat>)
    ensures r.Some? <==> s.current.Some? && s.current.value.testName != "" && s.current.value.testName in s.tests
    ensures r.Some? ==> r.value == s.tests[s.current.value.testName]
  {
    if s.current.Some? && s.current.value.testName != "" && s.current.value.testName in s.tests
    then Some(s.tests[s.current.value.testName])
    else None
  }

  /** What `getTestResult` gives: the test's result, or the `TypeError` thrown for a name nobody registered. */
  datatype ResultLookup = Found(result: L.TestResult) | ResultTypeError

  /**
   * `getTestResult`: the named test's current result, replayed from its log;
   * an unknown name makes the source call a method on `undefined`, which
   * throws.
   */
  function GetTestResult(s: Registry, name: string): (r: ResultLookup)
    requires Inv(s)
    ensures r.ResultTypeError? <==> GetTest(s, name).None?
    ensures r.Found? ==> r.result.testId == s.tests[name] && r.result.testName == s.all[s.tests[name]].name
    ensures r.Found? ==> r.result.status == R.Run(s.all[s.tests[name]].log).acc.status
  {
    if name in s.tests then Found(L.ResultOf(s.all[s.tests[name]])) else ResultTypeError
  }

  function AddCurrentResultListener(s: Registry, listener: nat): (r: Registry)
    ensures r == s.(currentListeners := s.currentListeners + [listener])
    ensures Inv(s) ==> Inv(r)
  {
    s.(currentListeners := s.currentListeners + [listener])
  }

  /** `addResultListener` exists on the store only. */
  function AddResultListener(s: Registry, listener: nat): (r: Registry)
    requires s.kind.StoreKind?
    ensures r == s.(resultListeners := s.resultListeners + [listener])
    ensures Inv(s) ==> Inv(r)
  {
    s.(resultListeners := s.resultListeners + [listener])
  }

  /** A call on a test held by the caller; what the test sends reaches the registry's listeners. */
  function TestCall(s: Registry, id: nat, c: L.Call): (r: (Registry, Option<L.TestResult>))
    requires id in s.all && L.ValidCall(c)
    ensures r.1 == L.Apply(s.all[id], c).sent
    ensures r.0.all == s.all[id := L.Apply(s.all[id], c).test]
    ensures r.1.None? ==> r.0.notices == s.notices
    ensures r.1.Some? ==> r.0.notices == s.notices + FanOut(s, r.1.value)
    ensures r.0.(all := s.all, notices := s.notices) == s
    ensures Inv(s) ==> Inv(r.0)
  {
    var o := L.Apply(s.all[id], c);
    (Notify(s.(all := s.all[id := o.test]), o.sent), o.sent)
  }

  /** The registry as `finishFrame` leaves it: only the tests and the notices change. */
  ghost predicate SameShape(a: Registry, b: Registry) {
    && a.kind == b.kind && a.tests == b.tests && a.order == b.order && a.all.Keys == b.all.Keys
    && a.current == b.current && a.resultListeners == b.resultListeners
    && a.currentListeners == b.currentListeners && a.nextId == b.nextId
    && (forall id :: id in a.all ==> b.all[id].testId == a.all[id].testId)
  }

  /** The tests that `finishFrame` visits for `names`: registered, and each name once. */
  ghost predicate Visitable(s: Registry, names: seq<string>) {
    && Inv(s)
    && (forall k :: 0 <= k < |names| ==> names[k] in s.tests)
    && (forall i, j :: 0 <= i < j < |names| ==> names[i] != names[j])
  }

  /** The current test's id, when it names a test still registered and dirty. */
  ghost predicate CurrentIsDirty(s: Registry, names: seq<string>) {
    && s.current.Some?
    && (exists k :: 0 <= k < |names| && names[k] in s.tests && s.tests[names[k]] == s.current.value.testId)
    && s.current.value.testId in s.all
    && s.all[s.current.value.testId].needsUpdate
  }

  /** Every registered test is clean. */
  ghost predicate AllClean(s: Registry) {
    forall n :: n in s.tests ==> s.tests[n] in s.all && !s.all[s.tests[n]].needsUpdate
  }

  /** One iteration of `finishFrame`'s loop: the test under `name` finishes its frame; a result it sends is fanned out, and kept when it is the current test's. */
  function FrameStep(s: Registry, name: string): (r: (Registry, Option<L.TestResult>))
    requires name in s.tests && s.tests[name] in s.all
    ensures SameShape(s, r.0)
    ensures r.0.all == s.all[s.tests[name] := L.FinishFrame(s.all[s.tests[name]]).test]
    ensures r.1.Some? <==> L.FinishFrame(s.all[s.tests[name]]).sent.Some? && IsCurrentResult(s, L.ResultOf(s.all[s.tests[name]]))
    ensures r.1.Some? ==> r.1.value == L.ResultOf(s.all[s.tests[name]])
    ensures r.0.notices == s.notices + StepNotices(s, s.all[s.tests[name]])
  {
    var id := s.tests[name];
    var o := L.FinishFrame(s.all[id]);
    var s1 := Notify(s.(all := s.all[id := o.test]), o.sent);
    FanOutListenersOnly(s, s.(all := s.all[id := o.test]), L.ResultOf(s.all[id]));
    (s1, if o.sent.Some? && IsCurrentResult(s, o.sent.value) then o.sent else None)
  }

  /** The listener calls one test's `finishFrame` causes: its result fanned out when it was dirty, nothing otherwise. */
  function StepNotices(s: Registry, t: L.Test): seq<Notice> {
    if t.needsUpdate then FanOut(s, L.ResultOf(t)) else []
  }

  /** The fan-out depends only on the listeners and the current test. */
  lemma FanOutListenersOnly(a: Registry, b: Registry, r: L.TestResult)
    requires a.resultListeners == b.resultListeners && a.currentListeners == b.currentListeners && a.current == b.current
    ensures FanOut(a, r) == FanOut(b, r)
  {
  }

  /** `finishFrame`'s loop over `names`, in order; the last current result found is returned. */
  function FrameNames(s: Registry, names: seq<string>): (r: (Registry, Option<L.TestResult>))
    requires forall i :: 0 <= i < |names| ==> names[i] in s.tests && s.tests[names[i]] in s.all
    ensures SameShape(s, r.0)
    decreases |names|
  {
    if |names| == 0 then (s, None)
    else
      var (s1, r1) := FrameNames(s, names[..|names| - 1]);
      var (s2, r2) := FrameStep(s1, names[|names| - 1]);
      (s2, if r2.Some? then r2 else r1)
  }

  /** `finishFrame`: every registered test finishes its frame. */
  function FinishFrame(s: Registry): (r: (Registry, Option<L.TestResult>))
    requires Inv(s)
    ensures SameShape(s, r.0)
    ensures Inv(r.0)
  {
    var r := FrameNames(s, s.order);
    SameShapeInv(s, r.0);
    r
  }

  /** A registry shaped like one that keeps the invariant keeps it too. */
  lemma SameShapeInv(a: Registry, b: Registry)
    requires Inv(a) && SameShape(a, b)
    ensures Inv(b)
  {
  }

  lemma FrameNamesStep(s: Registry, names: seq<string>, i: nat)
    requires i < |names|
    requires forall k :: 0 <= k < |names| ==> names[k] in s.tests && s.tests[names[k]] in s.all
    ensures var (s1, r1) := FrameNames(s, names[..i]); var (s2, r2) := FrameStep(s1, names[i]);
      FrameNames(s, names[..i + 1]) == (s2, if r2.Some? then r2 else r1)
  {
    assert names[..i + 1][..i] == names[..i];
  }

  /** `FrameNames` unfolded once: the last name's step after the others. */
  lemma FrameNamesLast(s: Registry, names: seq<string>)
    requires |names| > 0
    requires forall k :: 0 <= k < |names| ==> names[k] in s.tests && s.tests[names[k]] in s.all
    ensures var p := FrameNames(s, names[..|names| - 1]); var q := FrameStep(p.0, names[|names| - 1]);
      FrameNames(s, names) == (q.0, if q.1.Some? then q.1 else p.1)
  {
  }

  /** `finishFrame` as the source runs it, one registered test after another. */
  method FinishFrameLoop(s: Registry) returns (reg: Registry, result: Option<L.TestResult>)
    requires Inv(s)
    ensures (reg, result) == FinishFrame(s)
  {
    reg := s;
    result := None;
    var i := 0;
    while i < |s.order|
      invariant 0 <= i <= |s.order|
      invariant (reg, result) == FrameNames(s, s.order[..i])
      invariant SameShape(s, reg)
    {
      FrameNamesStep(s, s.order, i);
      var (next, r) := FrameStep(reg, s.order[i]);
      reg := next;
      if r.Some? {
        result := r;
      }
      i := i + 1;
    }
    assert s.order[..|s.order|] == s.order;
  }
}
