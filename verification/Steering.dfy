/** The steering machine around the route search: `FSMGoto`, `FSMSkew`,
    `FSMJump` and `FSMContinue`, with handlers that may steer from inside.

    A handler is foreign code. What one run of it does is given by a script: the
    calls it makes on the machine, in order, and how it ends. Scripts are
    arbitrary, so what holds for all of them holds for all handlers. */
module Steering {
  import opened FsmGraph
  import P = Progress
  import R = ProgressRuns

  /** How a handler ends: it returns, it is interrupted
      (`boost::thread_interrupted`), or it throws anything else. */
  datatype Outcome = Returned | Interrupted | Threw

  datatype Body = Body(calls: seq<Call>, outcome: Outcome)

  /** A call on the machine. The body is what the handler does if the call runs
      one. `ReportCall` is a call on the progress tasks, such as `FSMDone`. */
  datatype Call =
    | GotoCall(state: int)
    | SkewCall(state: int)
    | JumpCall(state: int, body: Body)
    | ContinueCall(inThread: bool, body: Body)
    | ReportCall(op: R.Op)

  /** `Hangs` is a call that never returns: it waits for `fsmGotoMutex`, which
      its own thread holds. */
  datatype Reply = Value(b: bool) | Raised | Hangs

  /** What happened to the current node, and which handlers ran. `Entered`,
      `Skewed` and, with a handler, `Jumped` are also what `FSMEnteringState` is
      told; of a jump it is told that it is final. */
  datatype Event =
    | Entered(id: int, final: bool)
    | Skewed(id: int, final: bool)
    | Jumped(id: int)
    | Rerooted
    | Ran(id: int)

  datatype State = State(
    root: int, current: int, path: seq<int>, target: int,
    inside: bool, steering: bool,
    tasks: P.Store, meter: Option<nat>,
    trace: seq<Event>)

  datatype Result = Result(state: State, reply: Reply)

  ghost predicate MeterOk(tasks: P.Store, meter: Option<nat>) {
    P.Wf(tasks) && (meter.Some? ==> meter.value < |tasks.tasks| && tasks.tasks[meter.value].kind.Finite?)
  }

  ghost predicate Valid(g: Registry, s: State) {
    && WellFormed(g)
    && s.root in g && s.current in g
    && (forall k :: 0 <= k < |s.path| ==> s.path[k] in g)
    && MeterOk(s.tasks, s.meter)
  }

  // ---------------------------------------------------------- the four calls

  function CountHandlers(g: Registry, path: seq<int>): (n: nat)
    requires forall k :: 0 <= k < |path| ==> path[k] in g
    ensures n <= |path|
  {
    if path == [] then 0
    else CountHandlers(g, path[..|path| - 1]) + if g[path[|path| - 1]].hasHandler then 1 else 0
  }

  /** Restarts the progress meter and gives it a slot for each handler ahead. */
  ghost function Recalibrate(g: Registry, s: State): (r: State)
    requires Valid(g, s)
    ensures Valid(g, r) && r == s.(tasks := r.tasks)
  {
    if s.meter.None? then s
    else s.(tasks := P.SetMax(P.Restart(s.tasks, s.meter.value), s.meter.value, CountHandlers(g, s.path), false))
  }

  /** `FSMGoto(state, strip)`; the program strips 1 node, and 0 from `FSMSkew`. */
  ghost function Goto(g: Registry, s: State, state: int, strip: nat): (r: Result)
    requires Valid(g, s) && strip <= 1
    ensures Valid(g, r.state)
  {
    if s.steering then Result(s, Hangs)
    else
      var s1 := match Route(g, s.current, state)
        case None => s.(path := [])
        case Some(route) => s.(path := route[strip..], target := state);
      Result(Recalibrate(g, s1), Value(true))
  }

  ghost function Skew(g: Registry, s: State, state: int): (r: Result)
    requires Valid(g, s)
    ensures Valid(g, r.state)
  {
    if state !in g then Result(s, Value(true))
    else
      var s1 := s.(current := state, trace := s.trace + [Skewed(state, s.path == [])]);
      if s.path == [] then Result(s1, Value(true)) else Goto(g, s1, s.target, 0)
  }

  /** The loop of `FSMContinue` over state nodes: `next` has been popped. */
  ghost function SkipStates(g: Registry, s: State, next: int): (r: (State, int))
    requires Valid(g, s) && next in g
    ensures Valid(g, r.0) && r.1 in g
    decreases |s.path|
  {
    if !g[next].hasHandler && s.path != [] then
      SkipStates(g, s.(path := s.path[1..], trace := s.trace + [Entered(next, false)]), s.path[0])
    else (s, next)
  }

  /** `FSMContinue` up to the call of the handler. */
  ghost function Take(g: Registry, s: State): (r: State)
    requires Valid(g, s) && s.path != []
    ensures Valid(g, r)
  {
    var (s1, next) := SkipStates(g, s.(inside := true, path := s.path[1..]), s.path[0]);
    s1.(current := next, trace := s1.trace + [Entered(next, s1.path == [])])
  }

  /** `_callHandler` on the current node. */
  ghost function CallHandler(g: Registry, s: State, inThread: bool, body: Body): (r: Result)
    requires Valid(g, s)
    ensures Valid(g, r.state)
    decreases body, 1
  {
    if !g[s.current].hasHandler then Result(s, Value(true))
    else
      var r := ExecAll(g, s.(trace := s.trace + [Ran(s.current)]), body.calls);
      if r.reply == Hangs then r
      else match body.outcome
        case Returned => Result(r.state, Value(true))
        case Interrupted => Result(r.state.(inside := false), if inThread then Raised else Value(false))
        case Threw => Result(r.state, Value(false))
  }

  ghost function Continue(g: Registry, s: State, inThread: bool, body: Body): (r: Result)
    requires Valid(g, s)
    ensures Valid(g, r.state)
    decreases body, 2
  {
    if s.inside || s.path == [] then Result(s, Value(false))
    else
      var r := CallHandler(g, Take(g, s), inThread, body);
      if r.reply == Value(true) then Result(r.state.(inside := false), Value(true)) else r
  }

  ghost function Jump(g: Registry, s: State, state: int, body: Body): (r: Result)
    requires Valid(g, s)
    ensures Valid(g, r.state)
    decreases body, 2
  {
    if s.steering then Result(s, Hangs)
    else if state !in g then
      Result(s.(path := [], current := s.root, trace := s.trace + [Rerooted]), Value(true))
    else
      var s1 := s.(steering := true, path := [], current := state, trace := s.trace + [Jumped(state)]);
      var r := CallHandler(g, s1, true, body);
      if r.reply == Hangs then r
      else Result(r.state.(steering := false), if r.reply == Raised then Raised else Value(true))
  }

  lemma ReportKeepsMeter(tasks: P.Store, meter: Option<nat>, op: R.Op)
    requires MeterOk(tasks, meter)
    ensures MeterOk(R.Apply(tasks, op), meter)
  {
    if R.Callable(tasks, op) {
      match op
      case BeginFinite(id) => BeginKeepsKinds(tasks, id, P.Finite([], 0));
      case BeginVariable(id) => BeginKeepsKinds(tasks, id, P.Variable(0, 0));
      case RestartOf(id, _) => RestartKeepsKinds(tasks, id);
      case _ =>
    }
  }

  lemma BeginKeepsKinds(s: P.Store, id: nat, kind: P.Kind)
    requires P.Wf(s) && id < |s.tasks| && s.tasks[id].kind.Finite?
    requires kind == P.Finite([], 0) || kind == P.Variable(0, 0)
    ensures forall x :: 0 <= x < |s.tasks| ==>
              P.Begin(s, id, kind).tasks[x].kind.Finite? == s.tasks[x].kind.Finite?
  {
    var s1 := P.AddTask(P.NotifyStarted(s, id), id, kind);
    var s2 := P.FillSlot(s1, id, P.Sub(|s.tasks|));
    assert P.SameShape(s2, P.NotifyUpdate(s2, id));
  }

  lemma {:induction false} RestartKeepsKinds(s: P.Store, id: nat)
    requires P.Wf(s) && id < |s.tasks|
    ensures forall x :: 0 <= x < |s.tasks| ==> P.Restart(s, id).tasks[x].kind.Finite? == s.tasks[x].kind.Finite?
    decreases |s.tasks| - id, |s.tasks| + 1
  {
    P.RewoundWf(s, id);
    var s1 := P.Emit(P.Put(s, id, P.Rewound(s.tasks[id])), P.Restarted(id));
    if s.tasks[id].kind.Finite? {
      RestartSlotsKeepsKinds(s1, id, 0);
    }
  }

  lemma {:induction false} RestartSlotsKeepsKinds(s: P.Store, id: nat, i: nat)
    requires P.Wf(s) && id < |s.tasks| && s.tasks[id].kind.Finite? && i <= |s.tasks[id].kind.slots|
    ensures forall x :: 0 <= x < |s.tasks| ==> P.RestartSlots(s, id, i).tasks[x].kind.Finite? == s.tasks[x].kind.Finite?
    decreases |s.tasks| - id, 0, |s.tasks[id].kind.slots| - i
  {
    var slots, index := s.tasks[id].kind.slots, s.tasks[id].kind.index;
    assert P.WfTask(s, id);
    if i < |slots| {
      match slots[i]
      case Todo => RestartSlotsKeepsKinds(s, id, i + 1);
      case Finished => RestartSlotsKeepsKinds(P.PutSlots(s, id, slots[i := P.Todo], index), id, i + 1);
      case Sub(c) =>
        assert P.WfSlot(s, id, slots[i]);
        RestartKeepsKinds(s, c);
        RestartSlotsKeepsKinds(P.Restart(s, c), id, i + 1);
    }
  }

  ghost function Exec(g: Registry, s: State, call: Call): (r: Result)
    requires Valid(g, s)
    ensures Valid(g, r.state)
    decreases call, 0
  {
    match call
    case GotoCall(state) => Goto(g, s, state, 1)
    case SkewCall(state) => Skew(g, s, state)
    case JumpCall(state, body) => Jump(g, s, state, body)
    case ContinueCall(inThread, body) => Continue(g, s, inThread, body)
    case ReportCall(op) =>
      ReportKeepsMeter(s.tasks, s.meter, op);
      Result(s.(tasks := R.Apply(s.tasks, op)), Value(true))
  }

  /** Calls made one after the other; nothing follows one that hangs. */
  ghost function ExecAll(g: Registry, s: State, calls: seq<Call>): (r: Result)
    requires Valid(g, s)
    ensures Valid(g, r.state)
    decreases calls, 0
  {
    if calls == [] then Result(s, Value(true))
    else
      var r := Exec(g, s, calls[0]);
      if r.reply == Hangs then r else ExecAll(g, r.state, calls[1..])
  }

  /** The machine as `FSMRegistryEnd` leaves it, with a meter or without. */
  ghost function Initial(root: int, tasks: P.Store, meter: Option<nat>): State {
    State(root, root, [], root, false, false, tasks, meter, [])
  }
}
