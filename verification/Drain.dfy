/** Following a route to its end: repeated `FSMContinue` after `FSMGoto`, when
    the handlers return and do not steer, and the progress meter beside it. */
module Drain {
  import opened FsmGraph
  import P = Progress
  import R = ProgressRuns
  import C = ProgressAnnouncements
  import H = ProgressCoherence
  import opened Steering
  import opened SteeringRuns

  // ------------------------------------------------------------- the visits

  /** What a machine that follows `path` to its end reports: each node entered
      in order, only the last as final, and each handler run once. */
  ghost function Visits(g: Registry, path: seq<int>): seq<Event>
    requires forall k :: 0 <= k < |path| ==> path[k] in g
  {
    if path == [] then []
    else
      [Entered(path[0], |path| == 1)] + (if g[path[0]].hasHandler then [Ran(path[0])] else []) + Visits(g, path[1..])
  }

  /** The handler returns and only reports progress. */
  ghost predicate Quiet(body: Body) {
    body.outcome == Returned && forall c :: c in body.calls ==> c.ReportCall?
  }

  /** The tasks after a quiet handler has made its reports. */
  ghost function Reported(tasks: P.Store, calls: seq<Call>): (r: P.Store)
    requires P.Wf(tasks)
    ensures P.Wf(r)
    decreases |calls|
  {
    if calls == [] then tasks
    else if calls[0].ReportCall? then Reported(R.Apply(tasks, calls[0].op), calls[1..])
    else Reported(tasks, calls[1..])
  }

  lemma {:induction false} QuietCalls(g: Registry, s: State, calls: seq<Call>)
    requires Valid(g, s) && forall c :: c in calls ==> c.ReportCall?
    ensures ExecAll(g, s, calls) == Result(s.(tasks := Reported(s.tasks, calls)), Value(true))
    decreases |calls|
  {
    if calls != [] {
      assert calls[0] in calls;
      var r := Exec(g, s, calls[0]);
      QuietCalls(g, r.state, calls[1..]);
    }
  }

  /** How many nodes the loop over state nodes skips when `next` has been
      popped and `rest` is left. */
  ghost function Skipped(g: Registry, next: int, rest: seq<int>): (n: nat)
    requires next in g && forall k :: 0 <= k < |rest| ==> rest[k] in g
    ensures n <= |rest|
    ensures n > 0 ==> !g[next].hasHandler && forall k :: 0 <= k < n - 1 ==> !g[rest[k]].hasHandler
    ensures n == |rest| || g[if n == 0 then next else rest[n - 1]].hasHandler
    decreases |rest|
  {
    if g[next].hasHandler || rest == [] then 0 else 1 + Skipped(g, rest[0], rest[1..])
  }

  /** How many nodes one `FSMContinue` takes from the path: up to the first
      with a handler, or all of it. */
  ghost function Taken(g: Registry, path: seq<int>): (n: nat)
    requires path != [] && forall k :: 0 <= k < |path| ==> path[k] in g
    ensures 1 <= n <= |path|
    ensures g[path[n - 1]].hasHandler || n == |path|
    ensures forall k :: 0 <= k < n - 1 ==> !g[path[k]].hasHandler
  {
    var n := Skipped(g, path[0], path[1..]);
    assert forall k :: 0 < k < n ==> path[k] == path[1..][k - 1];
    1 + n
  }

  /** What entering one node adds to the trace. */
  ghost function Visit(g: Registry, id: int, final: bool): seq<Event>
    requires id in g
  {
    [Entered(id, final)] + if g[id].hasHandler then [Ran(id)] else []
  }

  lemma VisitFirst(g: Registry, trace: seq<Event>, path: seq<int>)
    requires path != [] && forall k :: 0 <= k < |path| ==> path[k] in g
    ensures trace + Visits(g, path) == (trace + Visit(g, path[0], |path| == 1)) + Visits(g, path[1..])
  {
  }

  /** The trace of `s`, with the nodes still ahead of it already visited. */
  ghost function Forecast(g: Registry, s: State): seq<Event>
    requires Valid(g, s)
  {
    s.trace + Visits(g, s.path)
  }

  lemma ForecastSkip(g: Registry, s: State, next: int)
    requires Valid(g, s) && next in g && s.path != [] && !g[next].hasHandler
    ensures var s0 := s.(path := s.path[1..], trace := s.trace + [Entered(next, false)]);
            s0.trace + Visits(g, [s.path[0]] + s0.path) == s.trace + Visits(g, [next] + s.path)
  {
    var path := [next] + s.path;
    VisitFirst(g, s.trace, path);
    assert path[1..] == s.path == [s.path[0]] + s.path[1..];
    assert Visit(g, next, false) == [Entered(next, false)];
  }

  lemma {:induction false} SkipStatesForecast(g: Registry, s: State, next: int)
    requires Valid(g, s) && next in g
    ensures var (s1, next1) := SkipStates(g, s, next);
            (s1.trace + Visit(g, next1, s1.path == [])) + Visits(g, s1.path) == s.trace + Visits(g, [next] + s.path)
    decreases |s.path|
  {
    if !g[next].hasHandler && s.path != [] {
      var s0 := s.(path := s.path[1..], trace := s.trace + [Entered(next, false)]);
      ForecastSkip(g, s, next);
      SkipStatesForecast(g, s0, s.path[0]);
    } else {
      VisitFirst(g, s.trace, [next] + s.path);
      assert ([next] + s.path)[1..] == s.path;
    }
  }

  lemma {:induction false} SkipStatesTakes(g: Registry, s: State, next: int)
    requires Valid(g, s) && next in g
    ensures var (s1, next1) := SkipStates(g, s, next);
            var n := Skipped(g, next, s.path);
            && s1 == s.(path := s.path[n..], trace := s1.trace)
            && next1 == if n == 0 then next else s.path[n - 1]
    decreases |s.path|
  {
    if !g[next].hasHandler && s.path != [] {
      var s0 := s.(path := s.path[1..], trace := s.trace + [Entered(next, false)]);
      SkipStatesTakes(g, s0, s.path[0]);
    }
  }

  /** The machine has followed its path up to its next handler. */
  ghost predicate Stepped(g: Registry, s: State, r: State)
    requires Valid(g, s) && s.path != []
  {
    var n := Taken(g, s.path);
    && r.path == s.path[n..]
    && r.current == s.path[n - 1]
    && r == s.(path := r.path, current := r.current, trace := r.trace, tasks := r.tasks)
  }

  lemma TakeSteps(g: Registry, s: State)
    requires Valid(g, s) && s.path != []
    ensures Stepped(g, s, Take(g, s).(inside := s.inside))
    ensures Take(g, s).inside && Take(g, s).tasks == s.tasks
  {
    SkipStatesTakes(g, s.(inside := true, path := s.path[1..]), s.path[0]);
  }

  lemma TakeForecast(g: Registry, s: State)
    requires Valid(g, s) && s.path != []
    ensures var t := Take(g, s);
            (t.trace + (if g[t.current].hasHandler then [Ran(t.current)] else [])) + Visits(g, t.path) == Forecast(g, s)
  {
    var s0 := s.(inside := true, path := s.path[1..]);
    assert [s.path[0]] + s0.path == s.path;
    SkipStatesForecast(g, s0, s.path[0]);
    var t := Take(g, s);
    assert t.trace + (if g[t.current].hasHandler then [Ran(t.current)] else [])
        == SkipStates(g, s0, s.path[0]).0.trace + Visit(g, t.current, t.path == []);
  }

  /** One `FSMContinue` with a quiet handler. */
  lemma ContinueTakes(g: Registry, s: State, inThread: bool, body: Body)
    requires Valid(g, s) && !s.inside && s.path != [] && Quiet(body)
    ensures var r := Continue(g, s, inThread, body);
            && r.reply == Value(true)
            && Stepped(g, s, r.state)
            && r.state.tasks == (if g[r.state.current].hasHandler then Reported(s.tasks, body.calls) else s.tasks)
            && Forecast(g, r.state) == Forecast(g, s)
  {
    TakeSteps(g, s);
    TakeForecast(g, s);
    var t := Take(g, s);
    if g[t.current].hasHandler {
      QuietCalls(g, t.(trace := t.trace + [Ran(t.current)]), body.calls);
    } else {
      assert t.trace + [] == t.trace;
    }
  }

  /** `FSMContinue` once for each script: what the handler of that step does, if
      the step runs one. */
  ghost function ContinueEach(g: Registry, s: State, inThread: bool, bodies: seq<Body>): (r: State)
    requires Valid(g, s)
    ensures Valid(g, r)
    decreases |bodies|
  {
    if bodies == [] then s
    else ContinueEach(g, Continue(g, s, inThread, bodies[0]).state, inThread, bodies[1..])
  }

  /** How often it takes to empty the path. */
  ghost function TimesToEmpty(g: Registry, path: seq<int>): (n: nat)
    requires forall k :: 0 <= k < |path| ==> path[k] in g
    ensures n <= |path|
    decreases |path|
  {
    if path == [] then 0 else 1 + TimesToEmpty(g, path[Taken(g, path)..])
  }

  ghost predicate AllQuiet(bodies: seq<Body>) {
    forall i :: 0 <= i < |bodies| ==> Quiet(bodies[i])
  }

  /** Every step of the run succeeds. */
  ghost predicate AllSucceed(g: Registry, s: State, inThread: bool, bodies: seq<Body>)
    requires Valid(g, s)
    decreases |bodies|
  {
    bodies != [] ==>
      && Continue(g, s, inThread, bodies[0]).reply == Value(true)
      && AllSucceed(g, Continue(g, s, inThread, bodies[0]).state, inThread, bodies[1..])
  }

  /** Following a pending path to its end, with a script of its own for each
      handler on the way. */
  lemma {:induction false} DrainPath(g: Registry, s: State, inThread: bool, bodies: seq<Body>)
    requires Valid(g, s) && !s.inside && AllQuiet(bodies) && |bodies| == TimesToEmpty(g, s.path)
    ensures AllSucceed(g, s, inThread, bodies)
    ensures var r := ContinueEach(g, s, inThread, bodies);
            && r.path == [] && !r.inside
            && r.current == Destination(s)
            && r.trace == s.trace + Visits(g, s.path)
            && forall body :: Continue(g, r, inThread, body) == Result(r, Value(false))
    decreases |s.path|
  {
    if s.path != [] {
      ContinueLeads(g, s, inThread, bodies[0]);
      DrainPath(g, Continue(g, s, inThread, bodies[0]).state, inThread, bodies[1..]);
    } else {
      assert s.trace + Visits(g, []) == s.trace;
    }
  }

  /** Where the machine is when its path has been followed to the end. */
  function Destination(s: State): int {
    if s.path == [] then s.current else s.path[|s.path| - 1]
  }

  /** What one step takes off, and what it keeps. */
  lemma ContinueLeads(g: Registry, s: State, inThread: bool, body: Body)
    requires Valid(g, s) && !s.inside && s.path != [] && Quiet(body)
    ensures var r := Continue(g, s, inThread, body);
            && r.reply == Value(true) && !r.state.inside
            && r.state.path == s.path[Taken(g, s.path)..]
            && Destination(r.state) == Destination(s) && Forecast(g, r.state) == Forecast(g, s)
  {
    ContinueTakes(g, s, inThread, body);
    LastOfRest(s.path, Taken(g, s.path));
  }

  lemma LastOfRest(path: seq<int>, n: nat)
    requires 0 < n <= |path|
    ensures path[n..] == [] ==> path[n - 1] == path[|path| - 1]
    ensures path[n..] != [] ==> path[n..][|path[n..]| - 1] == path[|path| - 1]
  {
  }

  /** After `FSMGoto` has found a route, calling `FSMContinue` until it returns
      false enters the nodes of the route after the first, in order, reports
      only the last as final, runs each handler once, and stops at the target
      with nothing pending, in no more steps than the route has links. */
  lemma GotoReachesTarget(g: Registry, s: State, state: int, inThread: bool, bodies: seq<Body>)
    requires Valid(g, s) && !s.inside && !s.steering && AllQuiet(bodies)
    requires state != s.current && Reachable(g, s.current, state)
    requires |bodies| == TimesToEmpty(g, Goto(g, s, state, 1).state.path)
    ensures Route(g, s.current, state).Some?
    ensures var s1 := Goto(g, s, state, 1).state;
            var route := Route(g, s.current, state).value;
            var r := ContinueEach(g, s1, inThread, bodies);
            && s1.path == route[1..] && |bodies| <= |route| - 1
            && AllSucceed(g, s1, inThread, bodies)
            && r.trace == s.trace + Visits(g, route[1..])
            && r.current == state && r.path == []
            && forall body :: Continue(g, r, inThread, body) == Result(r, Value(false))
  {
    RouteExistsIff(g, s.current, state);
    RouteTail(g, s.current, state, 1);
    DrainPath(g, Goto(g, s, state, 1).state, inThread, bodies);
  }

  /** A skew with work pending, and then following the new path to its end: the
      machine enters the skewed node first, runs its handler, and goes on along
      the best route to the old target. */
  lemma SkewReachesTarget(g: Registry, s: State, state: int, inThread: bool, bodies: seq<Body>)
    requires Valid(g, s) && !s.inside && !s.steering && AllQuiet(bodies)
    requires state in g && s.path != [] && state != s.target && Reachable(g, state, s.target)
    requires |bodies| == TimesToEmpty(g, Skew(g, s, state).state.path)
    ensures Route(g, state, s.target).Some?
    ensures var s1 := Skew(g, s, state).state;
            var route := Route(g, state, s.target).value;
            var r := ContinueEach(g, s1, inThread, bodies);
            && AllSucceed(g, s1, inThread, bodies)
            && r.trace == s.trace + [Skewed(state, false)] + Visit(g, state, false) + Visits(g, route[1..])
            && r.current == s.target && r.path == []
            && forall body :: Continue(g, r, inThread, body) == Result(r, Value(false))
  {
    SkewReroutes(g, s, state);
    RouteExistsIff(g, state, s.target);
    var s1 := Skew(g, s, state).state;
    var route := Route(g, state, s.target).value;
    BestRouteUnique(g, state, s.target, s1.path, route);
    assert s1.path == route && |route| > 1;
    DrainPath(g, s1, inThread, bodies);
    VisitFirst(g, s1.trace, route);
  }

  /** A handler that steers: after a step whose handler goes to `target`, and then
      only reports, the machine is where its calls before that have left it, and
      what is pending is the best route from there. */
  lemma HandlerRedirects(g: Registry, s: State, inThread: bool, before: seq<Call>, target: int, after: seq<Call>)
    requires Valid(g, s) && !s.inside && !s.steering && s.path != []
    requires g[Take(g, s).current].hasHandler
    requires var t := Take(g, s);
             ExecAll(g, t.(trace := t.trace + [Ran(t.current)]), before).reply != Hangs
    requires forall c :: c in after ==> c.ReportCall?
    ensures var t := Take(g, s);
            var here := ExecAll(g, t.(trace := t.trace + [Ran(t.current)]), before).state.current;
            var r := Continue(g, s, inThread, Body(before + [GotoCall(target)] + after, Returned));
            && r.reply == Value(true) && !r.state.inside && r.state.current == here
            && (if target != here && Reachable(g, here, target)
                then IsBestRoute(g, here, target, [here] + r.state.path) && r.state.target == target
                else r.state.path == [])
  {
    var t := Take(g, s);
    var t0 := t.(trace := t.trace + [Ran(t.current)]);
    TakeKeepsMutex(g, s);
    CallsFreeMutex(g, t0, before);
    var s1 := ExecAll(g, t0, before).state;
    var s2 := Goto(g, s1, target, 1).state;
    StepReturns(g, s, inThread, before + [GotoCall(target)] + after);
    ScriptOfThree(g, t0, before, target, after);
    RouteExistsIff(g, s1.current, target);
    if Route(g, s1.current, target).Some? {
      assert [s1.current] + s2.path == Route(g, s1.current, target).value;
    }
  }

  /** A step whose handler returns ends with what its calls have done. */
  lemma StepReturns(g: Registry, s: State, inThread: bool, calls: seq<Call>)
    requires Valid(g, s) && !s.inside && s.path != [] && g[Take(g, s).current].hasHandler
    ensures var t := Take(g, s);
            var r := ExecAll(g, t.(trace := t.trace + [Ran(t.current)]), calls);
            r.reply != Hangs ==>
              Continue(g, s, inThread, Body(calls, Returned)) == Result(r.state.(inside := false), Value(true))
  {
  }

  lemma ScriptOfThree(g: Registry, s: State, before: seq<Call>, target: int, after: seq<Call>)
    requires Valid(g, s) && ExecAll(g, s, before).reply != Hangs && !ExecAll(g, s, before).state.steering
    requires forall c :: c in after ==> c.ReportCall?
    ensures var r := ExecAll(g, s, before + [GotoCall(target)] + after);
            var s2 := Goto(g, ExecAll(g, s, before).state, target, 1).state;
            r == Result(s2.(tasks := r.state.tasks), Value(true))
  {
    var s1 := ExecAll(g, s, before).state;
    var s2 := Goto(g, s1, target, 1).state;
    ExecAllInTwo(g, s, before, [GotoCall(target)] + after);
    assert before + [GotoCall(target)] + after == before + ([GotoCall(target)] + after);
    assert ([GotoCall(target)] + after)[1..] == after;
    assert Exec(g, s1, GotoCall(target)) == Result(s2, Value(true));
    QuietCalls(g, s2, after);
  }

  // ------------------------------------------------------ the progress meter

  /** How many completions of a task the log holds. */
  ghost function Completions(log: seq<P.Event>, id: nat): nat {
    multiset(log)[P.Completed(id)]
  }

  lemma CompletionsEmit(s: P.Store, e: P.Event, id: nat)
    ensures Completions(P.Emit(s, e).log, id) == Completions(s.log, id) + if e == P.Completed(id) then 1 else 0
  {
    assert multiset(s.log + [e]) == multiset(s.log) + multiset([e]);
  }

  /** Nothing but ancestors is started, and no completion is fired. */
  lemma {:induction false} StartedReach(s: P.Store, id: nat, x: nat)
    requires P.Wf(s) && id < |s.tasks| && id <= x < |s.tasks|
    ensures var r := P.NotifyStarted(s, id);
            && Completions(r.log, x) == Completions(s.log, x)
            && r.tasks[x] == (if x == id then s.tasks[x].(started := true) else s.tasks[x])
    decreases id
  {
    var t := s.tasks[id];
    assert P.WfTask(s, id);
    if !t.started {
      var s0 := P.Put(s, id, t.(started := true));
      CompletionsEmit(s0, P.Started(id), x);
      P.SameShapeWf(s, P.Emit(s0, P.Started(id)));
      if t.parent.Some? {
        StartedReach(P.Emit(s0, P.Started(id)), t.parent.value, x);
      }
    }
  }

  /** A notification of a task cannot complete anything below it. */
  lemma {:induction false} UpdateReach(s: P.Store, id: nat, x: nat)
    requires P.Wf(s) && id < |s.tasks| && id < x < |s.tasks|
    ensures var r := P.NotifyUpdate(s, id);
            Completions(r.log, x) == Completions(s.log, x) && r.tasks[x] == s.tasks[x]
    decreases id, 1
  {
    assert P.WfTask(s, id);
    if P.IsCompleted(s, id) {
      CompletedReach(s, id, x);
    } else {
      var e := P.Progressed(id, P.GetProgress(s, id));
      CompletionsEmit(s, e, x);
      P.SameShapeWf(s, P.Emit(s, e));
      if s.tasks[id].parent.Some? {
        UpdateReach(P.Emit(s, e), s.tasks[id].parent.value, x);
      }
    }
  }

  lemma {:induction false} CompletedReach(s: P.Store, id: nat, x: nat)
    requires P.Wf(s) && id < |s.tasks| && id <= x < |s.tasks|
    ensures var r := P.NotifyCompleted(s, id);
            && Completions(r.log, x) == Completions(s.log, x) + (if x == id && !s.tasks[id].completed then 1 else 0)
            && r.tasks[x] == (if x == id then s.tasks[x].(completed := true) else s.tasks[x])
    decreases id, 0
  {
    var t := s.tasks[id];
    assert P.WfTask(s, id);
    if !t.completed {
      var s0 := P.Put(s, id, t.(completed := true));
      var s1 := P.Emit(s0, P.Progressed(id, 1.0));
      var s2 := P.Emit(s1, P.Completed(id));
      CompletionsEmit(s0, P.Progressed(id, 1.0), x);
      CompletionsEmit(s1, P.Completed(id), x);
      P.SameShapeWf(s, s2);
      if t.parent.Some? {
        UpdateReach(s2, t.parent.value, x);
      }
    }
  }

  /** A meter of `n` slots without sub-tasks, the first `done` of them done. */
  ghost predicate Metered(s: P.Store, id: nat, n: nat, done: nat) {
    && P.Wf(s) && id < |s.tasks|
    && done <= n
    && s.tasks[id].kind == P.Finite(seq(n, k => if k < done then P.Finished else P.Todo), done)
    && (s.tasks[id].completed <==> done == n)
    && (done > 0 ==> s.tasks[id].started)
  }

  lemma MeteredCompleteIff(s: P.Store, id: nat, n: nat, done: nat)
    requires Metered(s, id, n, done)
    ensures P.IsCompleted(s, id) <==> done == n
  {
    var slots := s.tasks[id].kind.slots;
    assert P.WfTask(s, id);
    if done < n {
      assert slots[done] == P.Todo && !P.SlotComplete(s, id, slots[done]);
    }
  }

  /** A meter that has started reports the done part of its slots. */
  lemma MeteredReports(s: P.Store, id: nat, n: nat, done: nat)
    requires Metered(s, id, n, done) && n > 0 && s.tasks[id].started
    ensures P.GetProgress(s, id) == done as real / n as real
  {
    if done < n {
      H.ProgressIsAverage(s, id);
      MeteredWorth(s, id, n, done, n);
    }
  }

  lemma {:induction false} MeteredWorth(s: P.Store, id: nat, n: nat, done: nat, k: nat)
    requires Metered(s, id, n, done) && k <= n
    ensures H.Worth(s, id, k) == (if k < done then k else done) as real
    decreases k
  {
    if k > 0 {
      MeteredWorth(s, id, n, done, k - 1);
    }
  }

  /** Starting the meter and filling its next slot. */
  lemma FillAdvances(s: P.Store, id: nat, n: nat, done: nat)
    requires Metered(s, id, n, done) && done < n
    ensures var r := P.FillSlot(P.NotifyStarted(s, id), id, P.Finished);
            && id < |r.tasks| && r.tasks[id].started && !r.tasks[id].completed
            && r.tasks[id].kind == P.Finite(seq(n, k => if k < done + 1 then P.Finished else P.Todo), done + 1)
            && Completions(r.log, id) == Completions(s.log, id)
  {
    StartedReach(s, id, id);
    var slots := s.tasks[id].kind.slots[done := P.Finished];
    assert slots == seq(n, k => if k < done + 1 then P.Finished else P.Todo);
  }

  /** Notifying a task that is open and not complete changes nothing in it. */
  lemma UpdateOpenTask(s: P.Store, id: nat)
    requires P.Wf(s) && id < |s.tasks| && !P.IsCompleted(s, id)
    ensures var r := P.NotifyUpdate(s, id);
            r.tasks[id] == s.tasks[id] && Completions(r.log, id) == Completions(s.log, id)
  {
    assert P.WfTask(s, id);
    var e := P.Progressed(id, P.GetProgress(s, id));
    CompletionsEmit(s, e, id);
    P.SameShapeWf(s, P.Emit(s, e));
    if s.tasks[id].parent.Some? {
      UpdateReach(P.Emit(s, e), s.tasks[id].parent.value, id);
    }
  }

  /** One `FSMDone`: the next slot is done, and the completion is fired by the
      last one only. */
  lemma DoneAdvances(s: P.Store, id: nat, n: nat, done: nat)
    requires Metered(s, id, n, done) && done < n
    ensures var r := P.Done(s, id);
            && Metered(r, id, n, done + 1)
            && Completions(r.log, id) == Completions(s.log, id) + (if done + 1 == n then 1 else 0)
  {
    FillAdvances(s, id, n, done);
    var s1 := P.FillSlot(P.NotifyStarted(s, id), id, P.Finished);
    var slots := s1.tasks[id].kind.slots;
    assert P.WfTask(s1, id);
    if done + 1 == n {
      assert P.IsCompleted(s1, id);
      CompletedReach(s1, id, id);
    } else {
      assert slots[done + 1] == P.Todo && !P.SlotComplete(s1, id, slots[done + 1]);
      UpdateOpenTask(s1, id);
    }
  }

  ghost predicate Flat(slots: seq<P.Slot>) {
    forall k :: 0 <= k < |slots| ==> !slots[k].Sub?
  }

  lemma {:induction false} RestartFlatSlots(s: P.Store, id: nat, i: nat)
    requires P.Wf(s) && id < |s.tasks| && s.tasks[id].kind.Finite? && i <= |s.tasks[id].kind.slots|
    requires Flat(s.tasks[id].kind.slots)
    requires forall k :: 0 <= k < i ==> s.tasks[id].kind.slots[k] == P.Todo
    ensures var r := P.RestartSlots(s, id, i);
            && r.log == s.log
            && r.tasks[id] == s.tasks[id].(kind := r.tasks[id].kind)
            && r.tasks[id].kind.index == s.tasks[id].kind.index
            && forall k :: 0 <= k < |r.tasks[id].kind.slots| ==> r.tasks[id].kind.slots[k] == P.Todo
    decreases |s.tasks[id].kind.slots| - i
  {
    var slots, index := s.tasks[id].kind.slots, s.tasks[id].kind.index;
    assert P.WfTask(s, id);
    if i < |slots| {
      assert !slots[i].Sub?;
      if slots[i] == P.Finished {
        RestartFlatSlots(P.PutSlots(s, id, slots[i := P.Todo], index), id, i + 1);
      } else {
        RestartFlatSlots(s, id, i + 1);
      }
    }
  }

  /** `FSMGoto` gives the meter a clean slot for each handler ahead. */
  lemma RecalibrateMeters(g: Registry, s: State)
    requires Valid(g, s) && s.meter.Some? && Flat(s.tasks.tasks[s.meter.value].kind.slots)
    requires CountHandlers(g, s.path) > 0
    ensures var r := Recalibrate(g, s);
            && Metered(r.tasks, s.meter.value, CountHandlers(g, s.path), 0)
            && Completions(r.tasks.log, s.meter.value) == Completions(s.tasks.log, s.meter.value)
  {
    var id := s.meter.value;
    var n := CountHandlers(g, s.path);
    var s0 := P.Put(s.tasks, id, P.Rewound(s.tasks.tasks[id]));
    CompletionsEmit(s0, P.Restarted(id), id);
    P.RewoundWf(s.tasks, id);
    RestartFlatSlots(P.Emit(s0, P.Restarted(id)), id, 0);
    var s1 := P.Restart(s.tasks, id);
    var s2 := P.SetMaxSlots(s1, id, n);
    assert s2.tasks[id].kind.slots == seq(n, k => if k < 0 then P.Finished else P.Todo);
  }

  lemma {:induction false} CountHandlersSplit(g: Registry, path: seq<int>, n: nat)
    requires n <= |path| && forall k :: 0 <= k < |path| ==> path[k] in g
    ensures CountHandlers(g, path) == CountHandlers(g, path[..n]) + CountHandlers(g, path[n..])
    decreases |path|
  {
    if n == |path| {
      assert path[..n] == path && path[n..] == [];
    } else {
      var init := path[..|path| - 1];
      CountHandlersSplit(g, init, n);
      assert init[..n] == path[..n];
      assert init[n..] == path[n..][..|path[n..]| - 1];
    }
  }

  lemma {:induction false} NoHandlers(g: Registry, path: seq<int>)
    requires forall k :: 0 <= k < |path| ==> path[k] in g && !g[path[k]].hasHandler
    ensures CountHandlers(g, path) == 0
    decreases |path|
  {
    if path != [] {
      NoHandlers(g, path[..|path| - 1]);
    }
  }

  lemma TakenHandlers(g: Registry, path: seq<int>)
    requires path != [] && forall k :: 0 <= k < |path| ==> path[k] in g
    ensures var n := Taken(g, path);
            CountHandlers(g, path) == CountHandlers(g, path[n..]) + (if g[path[n - 1]].hasHandler then 1 else 0)
  {
    var n := Taken(g, path);
    CountHandlersSplit(g, path, n);
    assert path[..n][..n - 1] == path[..n - 1];
    NoHandlers(g, path[..n - 1]);
  }

  /** A report to the meter: `FSMDoing` or `FSMDone`. */
  ghost predicate Reports(c: Call, meter: nat) {
    c.ReportCall? && (c.op == R.DoingOf(meter) || c.op == R.DoneOf(meter))
  }

  ghost function Dones(calls: seq<Call>, meter: nat): nat {
    if calls == [] then 0 else (if calls[0] == ReportCall(R.DoneOf(meter)) then 1 else 0) + Dones(calls[1..], meter)
  }

  /** The handler returns, reports done once, and otherwise only what it is
      doing, as often as it likes. */
  ghost predicate ReportsDoneOnce(body: Body, meter: nat) {
    && body.outcome == Returned
    && (forall c :: c in body.calls ==> Reports(c, meter))
    && Dones(body.calls, meter) == 1
  }

  /** Saying what it is doing leaves the meter as it is, but for the start. */
  lemma DoingKeepsMeter(s: P.Store, id: nat, n: nat, done: nat)
    requires Metered(s, id, n, done) && n > 0
    ensures Metered(P.Doing(s, id), id, n, done)
    ensures Completions(P.Doing(s, id).log, id) == Completions(s.log, id)
  {
    StartedReach(s, id, id);
    var s1 := P.NotifyStarted(s, id);
    assert Metered(s1, id, n, done);
    MeteredCompleteIff(s1, id, n, done);
    if done < n {
      UpdateOpenTask(s1, id);
    } else {
      assert P.NotifyCompleted(s1, id) == s1;
    }
  }

  /** All reports of a handler, one after the other. */
  lemma {:induction false} ReportedAdvances(s: P.Store, calls: seq<Call>, id: nat, n: nat, done: nat)
    requires Metered(s, id, n, done) && n > 0 && done + Dones(calls, id) <= n
    requires forall c :: c in calls ==> Reports(c, id)
    ensures var r := Reported(s, calls);
            && Metered(r, id, n, done + Dones(calls, id))
            && Completions(r.log, id) == Completions(s.log, id) + (if Dones(calls, id) > 0 && done + Dones(calls, id) == n then 1 else 0)
    decreases |calls|
  {
    if calls != [] {
      var c, rest := calls[0], calls[1..];
      assert c in calls && Reports(c, id);
      assert R.Callable(s, c.op);
      if c.op == R.DoneOf(id) {
        DoneAdvances(s, id, n, done);
        ReportedAdvances(P.Done(s, id), rest, id, n, done + 1);
      } else {
        DoingKeepsMeter(s, id, n, done);
        ReportedAdvances(P.Doing(s, id), rest, id, n, done);
      }
    }
  }

  /** The meter and the path stay in step: the meter lacks as many slots as
      there are handlers ahead, and has fired its completion if there are none. */
  ghost predicate InStep(g: Registry, s: State, n: nat, fired: nat) {
    && Valid(g, s) && !s.inside && s.meter.Some? && n > 0
    && CountHandlers(g, s.path) <= n
    && Metered(s.tasks, s.meter.value, n, n - CountHandlers(g, s.path))
    && Completions(s.tasks.log, s.meter.value) == fired + (if CountHandlers(g, s.path) == 0 then 1 else 0)
  }

  lemma SteppedInStep(g: Registry, s: State, r: State, calls: seq<Call>, n: nat, fired: nat)
    requires InStep(g, s, n, fired) && s.path != [] && Valid(g, r)
    requires (forall c :: c in calls ==> Reports(c, s.meter.value)) && Dones(calls, s.meter.value) == 1
    requires Stepped(g, s, r)
    requires r.tasks == (if g[r.current].hasHandler then Reported(s.tasks, calls) else s.tasks)
    ensures InStep(g, r, n, fired)
  {
    var ahead := CountHandlers(g, s.path);
    TakenHandlers(g, s.path);
    if g[r.current].hasHandler {
      ReportedAdvances(s.tasks, calls, s.meter.value, n, n - ahead);
      assert n - ahead + 1 == n - CountHandlers(g, r.path);
    }
  }

  lemma ContinueInStep(g: Registry, s: State, inThread: bool, body: Body, n: nat, fired: nat)
    requires InStep(g, s, n, fired) && ReportsDoneOnce(body, s.meter.value)
    ensures InStep(g, Continue(g, s, inThread, body).state, n, fired)
    ensures Continue(g, s, inThread, body).state.meter == s.meter
  {
    if s.path != [] {
      ContinueTakes(g, s, inThread, body);
      SteppedInStep(g, s, Continue(g, s, inThread, body).state, body.calls, n, fired);
    }
  }

  lemma {:induction false} EachInStep(g: Registry, s: State, inThread: bool, bodies: seq<Body>, n: nat, fired: nat)
    requires InStep(g, s, n, fired) && forall i :: 0 <= i < |bodies| ==> ReportsDoneOnce(bodies[i], s.meter.value)
    ensures InStep(g, ContinueEach(g, s, inThread, bodies), n, fired)
    ensures ContinueEach(g, s, inThread, bodies).meter == s.meter
    decreases |bodies|
  {
    if bodies != [] {
      ContinueInStep(g, s, inThread, bodies[0], n, fired);
      EachInStep(g, Continue(g, s, inThread, bodies[0]).state, inThread, bodies[1..], n, fired);
    }
  }

  /** What the meter of `n` handlers says, with those that are still ahead: it is
      completed, and has told of it once more than `fired` times, exactly if none
      is; and once it has started it reports the part that has run. */
  ghost predicate Says(g: Registry, s: State, n: nat, fired: nat)
    requires Valid(g, s) && s.meter.Some? && n > 0
  {
    var id, ahead := s.meter.value, CountHandlers(g, s.path);
    && (P.IsCompleted(s.tasks, id) <==> ahead == 0)
    && Completions(s.tasks.log, id) == fired + (if ahead == 0 then 1 else 0)
    && (s.tasks.tasks[id].started || ahead < n ==> P.GetProgress(s.tasks, id) == (n - ahead) as real / n as real)
  }

  /** After `FSMGoto` on a route with at least one handler, and however many
      steps later, each with a script of its own, the meter says it is completed
      exactly when no handler is left ahead, and its completion has been fired
      exactly once from then on and not before; and once it has started it
      reports the part of the handlers that have run. */
  lemma MeterCompletesWithLastHandler(g: Registry, s: State, state: int, inThread: bool, bodies: seq<Body>)
    requires Valid(g, s) && !s.inside && !s.steering && s.meter.Some?
    requires Flat(s.tasks.tasks[s.meter.value].kind.slots)
    requires CountHandlers(g, Goto(g, s, state, 1).state.path) > 0
    requires forall i :: 0 <= i < |bodies| ==> ReportsDoneOnce(bodies[i], s.meter.value)
    ensures var s1 := Goto(g, s, state, 1).state;
            var r := ContinueEach(g, s1, inThread, bodies);
            r.meter == s.meter && Says(g, r, CountHandlers(g, s1.path), Completions(s.tasks.log, s.meter.value))
  {
    var s1 := Goto(g, s, state, 1).state;
    GotoInStep(g, s, state);
    var n := CountHandlers(g, s1.path);
    var fired := Completions(s.tasks.log, s.meter.value);
    EachInStep(g, s1, inThread, bodies, n, fired);
    InStepReports(g, ContinueEach(g, s1, inThread, bodies), n, fired);
  }

  /** What a meter in step with the path answers. */
  lemma InStepReports(g: Registry, s: State, n: nat, fired: nat)
    requires InStep(g, s, n, fired)
    ensures Says(g, s, n, fired)
  {
    var id, done := s.meter.value, n - CountHandlers(g, s.path);
    MeteredCompleteIff(s.tasks, id, n, done);
    if s.tasks.tasks[id].started {
      MeteredReports(s.tasks, id, n, done);
    }
  }

  /** The path `FSMGoto` publishes, before it turns to the meter. */
  ghost function Published(g: Registry, s: State, state: int): (r: State)
    requires Valid(g, s)
    ensures Valid(g, r) && r.tasks == s.tasks && r.meter == s.meter
  {
    match Route(g, s.current, state)
    case None => s.(path := [])
    case Some(route) => s.(path := route[1..], target := state)
  }

  lemma GotoInStep(g: Registry, s: State, state: int)
    requires Valid(g, s) && !s.inside && !s.steering && s.meter.Some?
    requires Flat(s.tasks.tasks[s.meter.value].kind.slots)
    requires CountHandlers(g, Goto(g, s, state, 1).state.path) > 0
    ensures var s1 := Goto(g, s, state, 1).state;
            s1.meter == s.meter && InStep(g, s1, CountHandlers(g, s1.path), Completions(s.tasks.log, s.meter.value))
  {
    var s0 := Published(g, s, state);
    assert Goto(g, s, state, 1).state == Recalibrate(g, s0);
    RecalibrateMeters(g, s0);
  }

  // ------------------------------------------------- no handler on the route

  lemma {:induction false} RestartCompletions(s: P.Store, id: nat, x: nat)
    requires P.Wf(s) && id < |s.tasks|
    ensures Completions(P.Restart(s, id).log, x) == Completions(s.log, x)
    decreases |s.tasks| - id, |s.tasks| + 1
  {
    var s0 := P.Put(s, id, P.Rewound(s.tasks[id]));
    CompletionsEmit(s0, P.Restarted(id), x);
    P.RewoundWf(s, id);
    if s.tasks[id].kind.Finite? {
      RestartSlotsCompletions(P.Emit(s0, P.Restarted(id)), id, 0, x);
    }
  }

  lemma {:induction false} RestartSlotsCompletions(s: P.Store, id: nat, i: nat, x: nat)
    requires P.Wf(s) && id < |s.tasks| && s.tasks[id].kind.Finite? && i <= |s.tasks[id].kind.slots|
    ensures Completions(P.RestartSlots(s, id, i).log, x) == Completions(s.log, x)
    decreases |s.tasks| - id, 0, |s.tasks[id].kind.slots| - i
  {
    var slots, index := s.tasks[id].kind.slots, s.tasks[id].kind.index;
    assert P.WfTask(s, id);
    if i < |slots| {
      match slots[i]
      case Todo => RestartSlotsCompletions(s, id, i + 1, x);
      case Finished => RestartSlotsCompletions(P.PutSlots(s, id, slots[i := P.Todo], index), id, i + 1, x);
      case Sub(c) =>
        assert P.WfSlot(s, id, slots[i]);
        RestartCompletions(s, c, x);
        RestartSlotsCompletions(P.Restart(s, c), id, i + 1, x);
    }
  }

  /** When `FSMGoto` finds no route, or one without handlers, it leaves the meter
      without slots and fires nothing: the meter then answers that it is
      completed exactly when it had started and was not completed before, and in
      that case its flag is clear and no listener has been told. */
  lemma MeterWithoutHandlers(g: Registry, s: State, state: int)
    requires Valid(g, s) && !s.steering && s.meter.Some?
    requires CountHandlers(g, Goto(g, s, state, 1).state.path) == 0
    ensures var id := s.meter.value;
            var before, r := s.tasks.tasks[id], Goto(g, s, state, 1).state.tasks;
            && id < |r.tasks| && !r.tasks[id].completed
            && Completions(r.log, id) == Completions(s.tasks.log, id)
            && (P.IsCompleted(r, id) <==> before.started && !before.completed)
  {
    var id := s.meter.value;
    var s0 := Published(g, s, state);
    assert Goto(g, s, state, 1).state == Recalibrate(g, s0);
    RestartCompletions(s.tasks, id, id);
    C.RestartRewinds(s.tasks, id);
    var s1 := P.Restart(s.tasks, id);
    var s2 := P.SetMaxSlots(s1, id, 0);
    assert s2.tasks[id].kind.slots == [];
    assert P.WfTask(s2, id);
  }
}
