/** What holds over every run of the steering machine, whatever its handlers do. */
module SteeringRuns {
  import opened FsmGraph
  import P = Progress
  import C = ProgressCallbacks
  import opened Steering

  // ------------------------------------------------------- reading a trace

  /** Where a trace that starts at `root` has got to. */
  ghost function At(root: int, trace: seq<Event>): int {
    if trace == [] then root
    else match trace[|trace| - 1]
      case Entered(id, _) => id
      case Skewed(id, _) => id
      case Jumped(id) => id
      case Rerooted => root
      case Ran(_) => At(root, trace[..|trace| - 1])
  }

  /** The last move was a skew. */
  ghost predicate AfterSkew(trace: seq<Event>) {
    trace != [] && match trace[|trace| - 1]
      case Skewed(_, _) => true
      case Ran(_) => AfterSkew(trace[..|trace| - 1])
      case _ => false
  }

  /** The machine has just entered or jumped to a node whose handler is next. */
  ghost predicate HandlerDue(g: Registry, trace: seq<Event>) {
    trace != [] && match trace[|trace| - 1]
      case Entered(id, _) => id in g && g[id].hasHandler
      case Jumped(id) => id in g && g[id].hasHandler
      case _ => false
  }

  /** `e` may follow `trace`: a node is entered over a link from where the
      machine is, or where a skew has just put it, and the handler of a node
      runs at once, and only, when the node is entered or jumped to. */
  ghost predicate Follows(g: Registry, root: int, trace: seq<Event>, e: Event) {
    if HandlerDue(g, trace) then e == Ran(At(root, trace))
    else match e
      case Entered(id, _) => HasEdge(g, At(root, trace), id) || (id == At(root, trace) && AfterSkew(trace))
      case Skewed(id, _) => id in g
      case Jumped(id) => id in g
      case Rerooted => true
      case Ran(_) => false
  }

  ghost predicate TraceOk(g: Registry, root: int, trace: seq<Event>) {
    trace == [] ||
    (TraceOk(g, root, trace[..|trace| - 1]) && Follows(g, root, trace[..|trace| - 1], trace[|trace| - 1]))
  }

  lemma TraceOkAppend(g: Registry, root: int, trace: seq<Event>, e: Event)
    requires TraceOk(g, root, trace) && Follows(g, root, trace, e)
    ensures TraceOk(g, root, trace + [e])
  {
    assert (trace + [e])[..|trace|] == trace;
  }

  lemma {:induction false} TraceOkAt(g: Registry, root: int, trace: seq<Event>, i: nat)
    requires TraceOk(g, root, trace) && i < |trace|
    ensures TraceOk(g, root, trace[..i]) && Follows(g, root, trace[..i], trace[i])
    decreases |trace|
  {
    if i < |trace| - 1 {
      TraceOkAt(g, root, trace[..|trace| - 1], i);
      assert trace[..|trace| - 1][..i] == trace[..i];
    }
  }

  // --------------------------------------------------------- the invariant

  /** A pending path is a chain of links that ends at the target. Its head is a
      child of the current node, or the current node itself if that is where a
      skew has put the machine. */
  ghost predicate PathOk(g: Registry, s: State) {
    s.path != [] ==>
      && IsWalk(g, s.path)
      && s.path[|s.path| - 1] == s.target
      && (HasEdge(g, s.current, s.path[0]) || (s.path[0] == s.current && AfterSkew(s.trace)))
  }

  ghost predicate Inv(g: Registry, s: State) {
    && Valid(g, s)
    && PathOk(g, s)
    && TraceOk(g, s.root, s.trace)
    && s.current == At(s.root, s.trace)
  }

  /** Between calls no handler is due. */
  ghost predicate Steady(g: Registry, s: State) {
    Inv(g, s) && !HandlerDue(g, s.trace)
  }

  /** A call leaves the machine steady, unless it never returns; either way
      everything it did was in order. */
  ghost predicate Sound(g: Registry, s: State, r: Result) {
    && r.state.root == s.root
    && TraceOk(g, s.root, r.state.trace)
    && (r.reply != Hangs ==> Steady(g, r.state))
  }

  lemma RouteTail(g: Registry, src: int, dst: int, strip: nat)
    requires Route(g, src, dst).Some? && strip <= 1
    ensures var p := Route(g, src, dst).value[strip..];
            && IsWalk(g, p) && p[|p| - 1] == dst
            && (if strip == 0 then p[0] == src else HasEdge(g, src, p[0]))
  {
    var route := Route(g, src, dst).value;
    assert |route| > 1;
    if strip == 1 {
      DropFirst(g, route);
    }
  }

  lemma GotoSteady(g: Registry, s: State, state: int, strip: nat)
    requires Valid(g, s) && strip <= 1
    requires TraceOk(g, s.root, s.trace) && s.current == At(s.root, s.trace) && !HandlerDue(g, s.trace)
    requires s.steering ==> PathOk(g, s)
    requires strip == 0 ==> AfterSkew(s.trace)
    ensures Steady(g, Goto(g, s, state, strip).state)
  {
    if !s.steering && Route(g, s.current, state).Some? {
      RouteTail(g, s.current, state, strip);
    }
  }

  lemma SkewSteady(g: Registry, s: State, state: int)
    requires Steady(g, s)
    ensures Sound(g, s, Skew(g, s, state))
  {
    if state in g {
      var e := Skewed(state, s.path == []);
      TraceOkAppend(g, s.root, s.trace, e);
      var s1 := s.(current := state, trace := s.trace + [e]);
      if s.path != [] && !s.steering {
        GotoSteady(g, s1, s1.target, 0);
      }
    }
  }

  /** What a skew does to the pending path: one that is empty stays empty, and any
      other is replaced by the best route from the skewed node, which comes first
      on it, to the old target, or cleared if there is none. */
  lemma SkewReroutes(g: Registry, s: State, state: int)
    requires Valid(g, s) && !s.steering
    ensures var r := Skew(g, s, state);
            && r.reply == Value(true)
            && (state !in g ==> r.state == s)
            && (state in g ==>
                  && r.state.current == state && r.state.trace == s.trace + [Skewed(state, s.path == [])]
                  && r.state.target == s.target && r.state.inside == s.inside && !r.state.steering
                  && (s.path == [] ==> r.state.path == [] && r.state.tasks == s.tasks)
                  && (s.path != [] ==>
                        if state != s.target && Reachable(g, state, s.target)
                        then IsBestRoute(g, state, s.target, r.state.path) && r.state.path[0] == state
                        else r.state.path == []))
  {
    RouteExistsIff(g, state, s.target);
  }

  /** `next` has been popped from the path and comes next on the trace. */
  ghost predicate Popped(g: Registry, s: State, next: int) {
    && Valid(g, s) && next in g
    && TraceOk(g, s.root, s.trace)
    && !HandlerDue(g, s.trace)
    && Follows(g, s.root, s.trace, Entered(next, s.path == []))
    && IsWalk(g, [next] + s.path)
    && ([next] + s.path)[|s.path|] == s.target
  }

  lemma {:induction false} SkipStatesPopped(g: Registry, s: State, next: int)
    requires Popped(g, s, next)
    ensures var (s1, next1) := SkipStates(g, s, next);
            && Popped(g, s1, next1)
            && s1 == s.(path := s1.path, trace := s1.trace)
    decreases |s.path|
  {
    if !g[next].hasHandler && s.path != [] {
      var e := Entered(next, false);
      TraceOkAppend(g, s.root, s.trace, e);
      DropFirst(g, [next] + s.path);
      assert ([next] + s.path)[1..] == s.path == [s.path[0]] + s.path[1..];
      SkipStatesPopped(g, s.(path := s.path[1..], trace := s.trace + [e]), s.path[0]);
    }
  }

  lemma TakeInv(g: Registry, s: State)
    requires Steady(g, s) && s.path != []
    ensures var r := Take(g, s);
            && Inv(g, r) && (HandlerDue(g, r.trace) <==> g[r.current].hasHandler)
            && r == s.(inside := true, path := r.path, current := r.current, trace := r.trace)
  {
    assert [s.path[0]] + s.path[1..] == s.path;
    var s0 := s.(inside := true, path := s.path[1..]);
    SkipStatesPopped(g, s0, s.path[0]);
    var (s1, next) := SkipStates(g, s0, s.path[0]);
    TraceOkAppend(g, s.root, s1.trace, Entered(next, s1.path == []));
    if s1.path != [] {
      DropFirst(g, [next] + s1.path);
      assert ([next] + s1.path)[1..] == s1.path;
    }
  }

  lemma RanSteady(g: Registry, s: State)
    requires Inv(g, s) && HandlerDue(g, s.trace) && g[s.current].hasHandler
    ensures Steady(g, s.(trace := s.trace + [Ran(s.current)]))
  {
    TraceOkAppend(g, s.root, s.trace, Ran(s.current));
    var t := s.trace + [Ran(s.current)];
    assert t[..|s.trace|] == s.trace;
  }

  lemma {:induction false} CallHandlerSteady(g: Registry, s: State, inThread: bool, body: Body)
    requires Inv(g, s) && (HandlerDue(g, s.trace) <==> g[s.current].hasHandler)
    ensures Sound(g, s, CallHandler(g, s, inThread, body))
    decreases body, 1
  {
    if g[s.current].hasHandler {
      RanSteady(g, s);
      ExecAllSteady(g, s.(trace := s.trace + [Ran(s.current)]), body.calls);
    }
  }

  lemma JumpedInv(g: Registry, s: State, state: int)
    requires Steady(g, s) && state in g
    ensures var r := s.(steering := true, path := [], current := state, trace := s.trace + [Jumped(state)]);
            Inv(g, r) && (HandlerDue(g, r.trace) <==> g[r.current].hasHandler)
  {
    TraceOkAppend(g, s.root, s.trace, Jumped(state));
  }

  lemma {:induction false} JumpSteady(g: Registry, s: State, state: int, body: Body)
    requires Steady(g, s)
    ensures Sound(g, s, Jump(g, s, state, body))
    decreases body, 2
  {
    if !s.steering {
      if state !in g {
        TraceOkAppend(g, s.root, s.trace, Rerooted);
      } else {
        JumpedInv(g, s, state);
        var s1 := s.(steering := true, path := [], current := state, trace := s.trace + [Jumped(state)]);
        CallHandlerSteady(g, s1, true, body);
      }
    }
  }

  lemma {:induction false} ContinueSteady(g: Registry, s: State, inThread: bool, body: Body)
    requires Steady(g, s)
    ensures Sound(g, s, Continue(g, s, inThread, body))
    decreases body, 2
  {
    if !s.inside && s.path != [] {
      TakeInv(g, s);
      CallHandlerSteady(g, Take(g, s), inThread, body);
    }
  }

  lemma {:induction false} ExecSteady(g: Registry, s: State, call: Call)
    requires Steady(g, s)
    ensures Sound(g, s, Exec(g, s, call))
    decreases call, 0
  {
    match call
    case GotoCall(state) => GotoSteady(g, s, state, 1);
    case SkewCall(state) => SkewSteady(g, s, state);
    case JumpCall(state, body) => JumpSteady(g, s, state, body);
    case ContinueCall(inThread, body) => ContinueSteady(g, s, inThread, body);
    case ReportCall(op) =>
  }

  lemma {:induction false} ExecAllSteady(g: Registry, s: State, calls: seq<Call>)
    requires Steady(g, s)
    ensures Sound(g, s, ExecAll(g, s, calls))
    decreases calls, 0
  {
    if calls != [] {
      ExecSteady(g, s, calls[0]);
      var r := Exec(g, s, calls[0]);
      if r.reply != Hangs {
        ExecAllSteady(g, r.state, calls[1..]);
      }
    }
  }

  // ---------------------------------------------------------- main results

  /** Over every run from the registered machine, whatever its handlers do:
      every event follows from the ones before it, and at the end of a call the
      pending path leads from where the machine is to its target. */
  lemma EveryRunIsSound(g: Registry, root: int, tasks: P.Store, meter: Option<nat>, calls: seq<Call>)
    requires WellFormed(g) && root in g && MeterOk(tasks, meter)
    ensures Sound(g, Initial(root, tasks, meter), ExecAll(g, Initial(root, tasks, meter), calls))
  {
    ExecAllSteady(g, Initial(root, tasks, meter), calls);
  }

  /** The same, for one event of the run: a node is entered over a link from the
      node the machine was at, unless a skew has just put the machine there. */
  lemma EntersOverLinks(g: Registry, root: int, tasks: P.Store, meter: Option<nat>, calls: seq<Call>, i: nat)
    requires WellFormed(g) && root in g && MeterOk(tasks, meter)
    requires var trace := ExecAll(g, Initial(root, tasks, meter), calls).state.trace;
             i < |trace| && trace[i].Entered?
    ensures var trace := ExecAll(g, Initial(root, tasks, meter), calls).state.trace;
            var before := At(root, trace[..i]);
            HasEdge(g, before, trace[i].id) || (trace[i].id == before && AfterSkew(trace[..i]))
  {
    EveryRunIsSound(g, root, tasks, meter, calls);
    TraceOkAt(g, root, ExecAll(g, Initial(root, tasks, meter), calls).state.trace, i);
  }

  /** And for a handler: it runs only when its node has just been entered or
      jumped to. */
  lemma HandlersRunOnEntry(g: Registry, root: int, tasks: P.Store, meter: Option<nat>, calls: seq<Call>, i: nat)
    requires WellFormed(g) && root in g && MeterOk(tasks, meter)
    requires var trace := ExecAll(g, Initial(root, tasks, meter), calls).state.trace;
             i < |trace| && trace[i].Ran?
    ensures var trace := ExecAll(g, Initial(root, tasks, meter), calls).state.trace;
            var id := trace[i].id;
            && i > 0 && id in g && g[id].hasHandler
            && (trace[i - 1] == Jumped(id) || (trace[i - 1].Entered? && trace[i - 1].id == id))
  {
    EveryRunIsSound(g, root, tasks, meter, calls);
    var trace := ExecAll(g, Initial(root, tasks, meter), calls).state.trace;
    TraceOkAt(g, root, trace, i);
    assert HandlerDue(g, trace[..i]);
    assert trace[..i][|trace[..i]| - 1] == trace[i - 1];
  }

  // --------------------------------------------------- nothing is taken back

  /** What has happened, and what has been fired, stays as it is. */
  ghost predicate Grows(s: State, r: State) {
    s.trace <= r.trace && s.tasks.log <= r.tasks.log
  }

  lemma GotoGrows(g: Registry, s: State, state: int, strip: nat)
    requires Valid(g, s) && strip <= 1
    ensures Grows(s, Goto(g, s, state, strip).state)
  {
    if s.meter.Some? {
      C.RestartTellsNobody(s.tasks, s.meter.value);
    }
  }

  lemma {:induction false} SkipGrows(g: Registry, s: State, next: int)
    requires Valid(g, s) && next in g
    ensures Grows(s, SkipStates(g, s, next).0)
    decreases |s.path|
  {
    if !g[next].hasHandler && s.path != [] {
      SkipGrows(g, s.(path := s.path[1..], trace := s.trace + [Entered(next, false)]), s.path[0]);
    }
  }

  lemma {:induction false} HandlerGrows(g: Registry, s: State, inThread: bool, body: Body)
    requires Valid(g, s)
    ensures Grows(s, CallHandler(g, s, inThread, body).state)
    decreases body, 1
  {
    if g[s.current].hasHandler {
      RunGrows(g, s.(trace := s.trace + [Ran(s.current)]), body.calls);
    }
  }

  lemma {:induction false} CallGrows(g: Registry, s: State, call: Call)
    requires Valid(g, s)
    ensures Grows(s, Exec(g, s, call).state)
    decreases call, 0
  {
    match call
    case GotoCall(state) => GotoGrows(g, s, state, 1);
    case SkewCall(state) =>
      if state in g {
        GotoGrows(g, s.(current := state, trace := s.trace + [Skewed(state, s.path == [])]), s.target, 0);
      }
    case ReportCall(op) => C.LogGrows(s.tasks, op);
    case JumpCall(state, body) => JumpGrows(g, s, state, body);
    case ContinueCall(inThread, body) =>
      if !s.inside && s.path != [] {
        SkipGrows(g, s.(inside := true, path := s.path[1..]), s.path[0]);
        HandlerGrows(g, Take(g, s), inThread, body);
        assert Exec(g, s, call) == Continue(g, s, inThread, body);
      }
  }

  lemma {:induction false} JumpGrows(g: Registry, s: State, state: int, body: Body)
    requires Valid(g, s)
    ensures Grows(s, Jump(g, s, state, body).state)
    ensures !s.steering && state in g ==> s.trace + [Jumped(state)] <= Jump(g, s, state, body).state.trace
    decreases body, 2
  {
    if !s.steering && state in g {
      HandlerGrows(g, s.(steering := true, path := [], current := state, trace := s.trace + [Jumped(state)]), true, body);
    }
  }

  /** Over every run, the trace and the log only grow. */
  lemma {:induction false} RunGrows(g: Registry, s: State, calls: seq<Call>)
    requires Valid(g, s)
    ensures Grows(s, ExecAll(g, s, calls).state)
    decreases calls, 0
  {
    if calls != [] {
      CallGrows(g, s, calls[0]);
      if Exec(g, s, calls[0]).reply != Hangs {
        RunGrows(g, Exec(g, s, calls[0]).state, calls[1..]);
      }
    }
  }

  // ------------------------------------------- the handler of a jump steers

  ghost predicate TakesGotoMutex(call: Call) {
    call.GotoCall? || call.JumpCall?
  }

  ghost predicate Steers(calls: seq<Call>) {
    exists c :: c in calls && TakesGotoMutex(c)
  }

  /** One call from inside the handler of a jump, where the path is empty and
      the mutex is held. */
  lemma CallInsideJump(g: Registry, s: State, call: Call)
    requires Valid(g, s) && s.steering && s.path == []
    ensures var r := Exec(g, s, call);
            && (r.reply == Hangs <==> TakesGotoMutex(call))
            && r.state.steering && r.state.path == []
            && r.state.inside == s.inside
            && Entries(r.state.trace) == Entries(s.trace)
  {
    match call
    case GotoCall(state) => assert Exec(g, s, call) == Goto(g, s, state, 1);
    case JumpCall(state, body) => assert Exec(g, s, call) == Jump(g, s, state, body);
    case ContinueCall(inThread, body) => assert Exec(g, s, call) == Continue(g, s, inThread, body);
    case ReportCall(_) =>
    case SkewCall(state) =>
      assert Exec(g, s, call) == Skew(g, s, state);
      assert (s.trace + [Skewed(state, true)])[..|s.trace|] == s.trace;
  }

  lemma {:induction false} InsideJump(g: Registry, s: State, calls: seq<Call>)
    requires Valid(g, s) && s.steering && s.path == []
    ensures var r := ExecAll(g, s, calls);
            && (r.reply == Hangs <==> Steers(calls))
            && r.state.inside == s.inside && r.state.path == []
            && Entries(r.state.trace) == Entries(s.trace)
    decreases |calls|
  {
    if calls != [] {
      CallInsideJump(g, s, calls[0]);
      if !TakesGotoMutex(calls[0]) {
        InsideJump(g, Exec(g, s, calls[0]).state, calls[1..]);
        assert calls == [calls[0]] + calls[1..];
      }
    }
  }

  /** What a jump to a node with a handler does, as far as its script decides. */
  lemma JumpWithHandler(g: Registry, s: State, state: int, body: Body)
    requires Valid(g, s) && !s.steering && state in g && g[state].hasHandler
    ensures var r := Jump(g, s, state, body);
            && (r.reply == Hangs <==> Steers(body.calls))
            && (r.reply != Hangs ==> !r.state.steering)
            && r.state.path == []
            && r.state.inside == (s.inside && (r.reply == Hangs || body.outcome != Interrupted))
            && Entries(r.state.trace) == Entries(s.trace)
  {
    var s1 := s.(steering := true, path := [], current := state, trace := s.trace + [Jumped(state)]);
    var s2 := s1.(trace := s1.trace + [Ran(s1.current)]);
    assert s1.trace[..|s.trace|] == s.trace;
    assert s2.trace[..|s1.trace|] == s1.trace;
    InsideJump(g, s2, body.calls);
    var r := CallHandler(g, s1, true, body);
    assert Jump(g, s, state, body).state == if r.reply == Hangs then r.state else r.state.(steering := false);
  }

  /** The deadlock of `FSMJump`, exactly: it keeps `fsmGotoMutex` while the
      handler runs, so the call never returns if and only if the handler itself
      goes or jumps anywhere. */
  lemma JumpHangsIff(g: Registry, s: State, state: int, body: Body)
    requires Valid(g, s) && !s.steering
    ensures Jump(g, s, state, body).reply == Hangs
       <==> state in g && g[state].hasHandler && Steers(body.calls)
    ensures Jump(g, s, state, body).reply != Hangs ==> !Jump(g, s, state, body).state.steering
  {
    if state in g && g[state].hasHandler {
      JumpWithHandler(g, s, state, body);
    }
  }

  /** A jump leaves nothing pending, whatever its handler does. */
  lemma JumpLeavesNothing(g: Registry, s: State, state: int, body: Body)
    requires Valid(g, s) && !s.steering
    ensures Jump(g, s, state, body).state.path == []
  {
    if state in g && g[state].hasHandler {
      JumpWithHandler(g, s, state, body);
    }
  }

  /** The handler of no jump goes or jumps, at any depth of the script. */
  ghost predicate SinkCall(call: Call)
    decreases call
  {
    match call
    case JumpCall(_, body) => !Steers(body.calls)
    case ContinueCall(_, body) => JumpsAreSinks(body.calls)
    case _ => true
  }

  ghost predicate JumpsAreSinks(calls: seq<Call>)
    decreases calls
  {
    calls == [] || (SinkCall(calls[0]) && JumpsAreSinks(calls[1..]))
  }

  lemma {:induction false} HandlerNeverHangs(g: Registry, s: State, inThread: bool, body: Body)
    requires Valid(g, s) && !s.steering && JumpsAreSinks(body.calls)
    ensures CallHandler(g, s, inThread, body).reply != Hangs
    ensures !CallHandler(g, s, inThread, body).state.steering
    decreases body
  {
    if g[s.current].hasHandler {
      SinksNeverHang(g, s.(trace := s.trace + [Ran(s.current)]), body.calls);
    }
  }

  lemma {:induction false} SinkNeverHangs(g: Registry, s: State, call: Call)
    requires Valid(g, s) && !s.steering && SinkCall(call)
    ensures Exec(g, s, call).reply != Hangs && !Exec(g, s, call).state.steering
    decreases call
  {
    match call
    case GotoCall(_) =>
    case SkewCall(_) =>
    case ReportCall(_) =>
    case JumpCall(state, body) =>
      assert Exec(g, s, call) == Jump(g, s, state, body);
      JumpHangsIff(g, s, state, body);
    case ContinueCall(inThread, body) =>
      assert Exec(g, s, call) == Continue(g, s, inThread, body);
      if !s.inside && s.path != [] {
        var s1 := Take(g, s);
        TakeKeepsMutex(g, s);
        HandlerNeverHangs(g, s1, inThread, body);
      }
  }

  /** Then no run hangs. */
  lemma {:induction false} SinksNeverHang(g: Registry, s: State, calls: seq<Call>)
    requires Valid(g, s) && !s.steering && JumpsAreSinks(calls)
    ensures ExecAll(g, s, calls).reply != Hangs && !ExecAll(g, s, calls).state.steering
    decreases calls
  {
    if calls != [] {
      SinkNeverHangs(g, s, calls[0]);
      SinksNeverHang(g, Exec(g, s, calls[0]).state, calls[1..]);
    }
  }

  lemma {:induction false} SkipKeepsMutex(g: Registry, s: State, next: int)
    requires Valid(g, s) && next in g
    ensures SkipStates(g, s, next).0.steering == s.steering
    decreases |s.path|
  {
    if !g[next].hasHandler && s.path != [] {
      SkipKeepsMutex(g, s.(path := s.path[1..], trace := s.trace + [Entered(next, false)]), s.path[0]);
    }
  }

  lemma TakeKeepsMutex(g: Registry, s: State)
    requires Valid(g, s) && s.path != []
    ensures Take(g, s).steering == s.steering
  {
    SkipKeepsMutex(g, s.(inside := true, path := s.path[1..]), s.path[0]);
  }

  /** Every call that returns leaves the mutex free. */
  lemma {:induction false} CallFreesMutex(g: Registry, s: State, call: Call)
    requires Valid(g, s) && !s.steering && Exec(g, s, call).reply != Hangs
    ensures !Exec(g, s, call).state.steering
    decreases call, 0
  {
    match call
    case GotoCall(_) =>
    case SkewCall(_) =>
    case ReportCall(_) =>
    case JumpCall(state, body) => JumpHangsIff(g, s, state, body);
    case ContinueCall(inThread, body) =>
      assert Exec(g, s, call) == Continue(g, s, inThread, body);
      if !s.inside && s.path != [] {
        TakeKeepsMutex(g, s);
        var s1 := Take(g, s);
        HandlerFreesMutex(g, s1, inThread, body);
      }
  }

  lemma {:induction false} HandlerFreesMutex(g: Registry, s: State, inThread: bool, body: Body)
    requires Valid(g, s) && !s.steering
    ensures CallHandler(g, s, inThread, body).reply != Hangs ==> !CallHandler(g, s, inThread, body).state.steering
    decreases body, 1
  {
    if g[s.current].hasHandler {
      CallsFreeMutex(g, s.(trace := s.trace + [Ran(s.current)]), body.calls);
    }
  }

  lemma {:induction false} CallsFreeMutex(g: Registry, s: State, calls: seq<Call>)
    requires Valid(g, s) && !s.steering
    ensures ExecAll(g, s, calls).reply != Hangs ==> !ExecAll(g, s, calls).state.steering
    decreases calls, 0
  {
    if calls != [] && Exec(g, s, calls[0]).reply != Hangs {
      CallFreesMutex(g, s, calls[0]);
      CallsFreeMutex(g, Exec(g, s, calls[0]).state, calls[1..]);
    }
  }

  // --------------------------------------------- a handler that throws

  /** How many times a node was entered. */
  ghost function Entries(trace: seq<Event>): nat {
    if trace == [] then 0
    else Entries(trace[..|trace| - 1]) + if trace[|trace| - 1].Entered? then 1 else 0
  }

  /** The only call that clears `fsmInsideHandler` once it is left set. */
  ghost predicate Unwedges(g: Registry, s: State, call: Call) {
    && call.JumpCall? && !s.steering
    && call.state in g && g[call.state].hasHandler
    && call.body.outcome == Interrupted
    && !Steers(call.body.calls)
  }

  lemma WedgedJump(g: Registry, s: State, state: int, body: Body)
    requires Valid(g, s) && s.inside
    ensures var r := Jump(g, s, state, body);
            && (r.state.inside <==> !Unwedges(g, s, JumpCall(state, body)))
            && Entries(r.state.trace) == Entries(s.trace)
  {
    if !s.steering {
      if state !in g {
        assert (s.trace + [Rerooted])[..|s.trace|] == s.trace;
      } else {
        assert (s.trace + [Jumped(state)])[..|s.trace|] == s.trace;
        if g[state].hasHandler {
          JumpWithHandler(g, s, state, body);
        }
      }
    }
  }

  /** With the flag left set no call enters a node, and the flag is cleared by
      one kind of call only. */
  lemma WedgedCall(g: Registry, s: State, call: Call)
    requires Valid(g, s) && s.inside
    ensures var r := Exec(g, s, call);
            && (r.state.inside <==> !Unwedges(g, s, call))
            && Entries(r.state.trace) == Entries(s.trace)
            && (call.ContinueCall? ==> r == Result(s, Value(false)))
  {
    match call
    case GotoCall(state) => assert Exec(g, s, call) == Goto(g, s, state, 1);
    case ReportCall(_) =>
    case ContinueCall(inThread, body) => assert Exec(g, s, call) == Continue(g, s, inThread, body);
    case SkewCall(state) =>
      assert Exec(g, s, call) == Skew(g, s, state);
      assert (s.trace + [Skewed(state, s.path == [])])[..|s.trace|] == s.trace;
    case JumpCall(state, body) =>
      assert Exec(g, s, call) == Jump(g, s, state, body);
      WedgedJump(g, s, state, body);
  }

  /** With the flag left set, and no interrupted jump, a run leaves it set and
      enters no node. */
  lemma {:induction false} WedgedStays(g: Registry, s: State, calls: seq<Call>)
    requires Valid(g, s) && s.inside
    requires forall c :: c in calls && c.JumpCall? ==> c.body.outcome != Interrupted
    ensures var r := ExecAll(g, s, calls).state; r.inside && Entries(r.trace) == Entries(s.trace)
    decreases |calls|
  {
    if calls != [] {
      WedgedCall(g, s, calls[0]);
      if Exec(g, s, calls[0]).reply != Hangs {
        WedgedStays(g, Exec(g, s, calls[0]).state, calls[1..]);
      }
    }
  }

  /** A handler that throws leaves the machine wedged: until the handler of a
      jump is interrupted, every `FSMContinue` of the run returns false and no
      node is entered, whatever is asked of the machine. */
  lemma WedgedRun(g: Registry, s: State, calls: seq<Call>)
    requires Valid(g, s) && s.inside
    requires forall c :: c in calls && c.JumpCall? ==> c.body.outcome != Interrupted
    ensures var r := ExecAll(g, s, calls).state; r.inside && Entries(r.trace) == Entries(s.trace)
    ensures forall i :: 0 <= i < |calls| && calls[i].ContinueCall? ==>
              Exec(g, ExecAll(g, s, calls[..i]).state, calls[i]).reply == Value(false)
  {
    WedgedStays(g, s, calls);
    forall i | 0 <= i < |calls| && calls[i].ContinueCall?
      ensures Exec(g, ExecAll(g, s, calls[..i]).state, calls[i]).reply == Value(false)
    {
      WedgedStays(g, s, calls[..i]);
      WedgedCall(g, ExecAll(g, s, calls[..i]).state, calls[i]);
    }
  }

  /** How the flag gets left set, exactly: after a step with a handler that does
      not jump to one that is interrupted, it is set if and only if the handler
      threw. */
  lemma WedgesIffThrows(g: Registry, s: State, inThread: bool, body: Body)
    requires Valid(g, s) && !s.inside && s.path != []
    requires g[Take(g, s).current].hasHandler
    requires forall c :: c in body.calls && c.JumpCall? ==> c.body.outcome != Interrupted
    ensures var r := Continue(g, s, inThread, body);
            && (r.reply != Hangs ==> (r.state.inside <==> body.outcome == Threw))
            && (r.reply != Hangs ==> (r.reply == Value(true) <==> body.outcome == Returned))
  {
    var s1 := Take(g, s);
    SkipKeepsInside(g, s.(inside := true, path := s.path[1..]), s.path[0]);
    WedgedStays(g, s1.(trace := s1.trace + [Ran(s1.current)]), body.calls);
  }

  /** What a step that runs a handler answers, for every way the handler can end:
      an interruption is raised again in the thread of the machine, and is a
      failure anywhere else. */
  lemma StepAnswers(g: Registry, s: State, inThread: bool, body: Body)
    requires Valid(g, s) && !s.inside && s.path != []
    requires g[Take(g, s).current].hasHandler
    ensures var reply := Continue(g, s, inThread, body).reply;
            reply != Hangs ==>
              && (reply == Raised <==> inThread && body.outcome == Interrupted)
              && (reply == Value(true) <==> body.outcome == Returned)
              && (reply == Value(false) <==> body.outcome == Threw || (body.outcome == Interrupted && !inThread))
  {
    var s1 := Take(g, s);
    var r := ExecAll(g, s1.(trace := s1.trace + [Ran(s1.current)]), body.calls);
    assert Continue(g, s, inThread, body).reply == Hangs <==> r.reply == Hangs;
  }

  /** And a jump: only an interruption of its handler reaches the caller. */
  lemma JumpAnswers(g: Registry, s: State, state: int, body: Body)
    requires Valid(g, s) && !s.steering
    ensures var r := Jump(g, s, state, body);
            r.reply != Hangs ==>
              && (r.reply == Raised <==> state in g && g[state].hasHandler && body.outcome == Interrupted)
              && (r.reply != Raised ==> r.reply == Value(true))
  {
    if state in g && g[state].hasHandler {
      var s1 := s.(steering := true, path := [], current := state, trace := s.trace + [Jumped(state)]);
      var r := ExecAll(g, s1.(trace := s1.trace + [Ran(s1.current)]), body.calls);
      assert Jump(g, s, state, body).reply == Hangs <==> r.reply == Hangs;
    }
  }

  lemma {:induction false} ExecAllInTwo(g: Registry, s: State, a: seq<Call>, b: seq<Call>)
    requires Valid(g, s) && ExecAll(g, s, a).reply != Hangs
    ensures ExecAll(g, s, a + b) == ExecAll(g, ExecAll(g, s, a).state, b)
    decreases |a|
  {
    if a == [] {
      assert a + b == b;
    } else {
      assert (a + b)[0] == a[0] && (a + b)[1..] == a[1..] + b;
      ExecAllInTwo(g, Exec(g, s, a[0]).state, a[1..], b);
    }
  }

  lemma {:induction false} SkipKeepsInside(g: Registry, s: State, next: int)
    requires Valid(g, s) && next in g
    ensures SkipStates(g, s, next).0.inside == s.inside
    decreases |s.path|
  {
    if !g[next].hasHandler && s.path != [] {
      SkipKeepsInside(g, s.(path := s.path[1..], trace := s.trace + [Entered(next, false)]), s.path[0]);
    }
  }

  // ------------------------------------------------- concrete runs that fail

  /** Node 1 leads to node 2, which has a handler. */
  function TwoNodes(): Registry {
    map[1 := Node(false, [2]), 2 := Node(true, [])]
  }

  ghost function AtNodeOne(): State {
    Initial(1, P.Store([], []), None)
  }

  lemma TwoNodesRoute()
    ensures Valid(TwoNodes(), AtNodeOne()) && Route(TwoNodes(), 1, 2) == Some([1, 2])
  {
    var g := TwoNodes();
    assert LinkAt(g, [1, 2], 0);
    assert Joins(g, [1, 2], 1, 2);
    RouteExistsIff(g, 1, 2);
    var p := Route(g, 1, 2).value;
    assert NoWorse(g, p, [1, 2]);
    assert p == [1, 2];
  }

  /** A jump to a node whose handler goes back never returns. */
  lemma JumpThatHangs()
    ensures Valid(TwoNodes(), AtNodeOne())
    ensures ExecAll(TwoNodes(), AtNodeOne(), [JumpCall(2, Body([GotoCall(1)], Returned))]).reply == Hangs
  {
    var body := Body([GotoCall(1)], Returned);
    assert GotoCall(1) in body.calls && TakesGotoMutex(GotoCall(1));
    JumpHangsIff(TwoNodes(), AtNodeOne(), 2, body);
    assert Exec(TwoNodes(), AtNodeOne(), JumpCall(2, body)) == Jump(TwoNodes(), AtNodeOne(), 2, body);
  }

  /** A handler that throws, after an ordinary goto: the flag stays set. */
  lemma ThrowThatWedges()
    ensures Valid(TwoNodes(), AtNodeOne())
    ensures var r := ExecAll(TwoNodes(), AtNodeOne(), [GotoCall(2), ContinueCall(true, Body([], Threw))]).state;
            r.inside && r.current == 2
  {
    var g, body := TwoNodes(), Body([], Threw);
    TwoNodesRoute();
    var s1 := Goto(g, AtNodeOne(), 2, 1).state;
    assert [1, 2][1..] == [2];
    assert Exec(g, AtNodeOne(), GotoCall(2)) == Result(s1, Value(true));
    assert s1.path == [2] && Take(g, s1).current == 2;
    WedgesIffThrows(g, s1, true, body);
    var calls := [GotoCall(2), ContinueCall(true, body)];
    assert calls[1..] == [ContinueCall(true, body)] && calls[1..][1..] == [];
    assert Exec(g, s1, ContinueCall(true, body)) == Continue(g, s1, true, body);
  }
}
