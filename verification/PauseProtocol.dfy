/** The worker thread, its pause, and the threads that steer it: `FSMThreadLoop`,
    `_fsmPause`, `_fsmWakeup` and `FSMGoto` as interleaved steps of any number of
    threads. Thread 0 is the worker itself, which steers from inside handlers. */
module PauseProtocol {
  import opened FsmGraph
  import opened Steering
  import SteeringRuns
  import opened Drain

  /** Where the worker is. */
  datatype Worker =
    | Looping    // about to call FSMContinue
    | InHandler  // FSMContinue has called the handler
    | Drained    // FSMContinue returned false; about to read fsmtPaused, unlocked
    | Locking    // read true; about to take fsmtPauseMutex and test again
    | Sleeping   // waiting on fsmtPauseChanged
    | Resetting  // about to set fsmtPaused, unlocked

  /** Where a call of `FSMGoto` is. From its start to its end it holds
      `fsmGotoMutex`. */
  datatype Steerer =
    | Idle
    | Cleared(state: int, strip: nat)  // path cleared, route not published
    | Published                        // route published, fsmtPaused not yet cleared
    | Signalled                        // fsmtPaused cleared, not yet notified

  /** `goal` records, for the statements below only, the target of the last route
      that was published if nothing has steered since. */
  datatype System = System(
    fsm: State, paused: bool, worker: Worker,
    steerers: map<nat, Steerer>, holder: Option<nat>,
    goal: Option<int>)

  datatype Step =
    | CallContinue
    | FinishHandler
    | ReadPaused
    | LockAndTest
    | WakeSpuriously
    | ResetPaused
    | BeginGoto(thread: nat, state: int, strip: nat)
    | Publish(thread: nat)
    | Signal(thread: nat)
    | Notify(thread: nat)
    | MoveBySkew(thread: nat, state: int)
    | JumpTo(thread: nat, state: int)

  /** The worker can steer only from inside a handler. */
  predicate MaySteer(sys: System, thread: nat) {
    && thread in sys.steerers && sys.steerers[thread] == Idle
    && (thread == 0 ==> sys.worker == InHandler)
  }

  predicate Enabled(sys: System, step: Step) {
    match step
    case CallContinue => sys.worker == Looping
    case FinishHandler => sys.worker == InHandler && (0 in sys.steerers ==> sys.steerers[0] == Idle)
    case ReadPaused => sys.worker == Drained
    case LockAndTest => sys.worker == Locking
    case WakeSpuriously => sys.worker == Sleeping
    case ResetPaused => sys.worker == Resetting
    case BeginGoto(t, _, strip) => MaySteer(sys, t) && sys.holder == None && strip <= 1
    case Publish(t) => t in sys.steerers && sys.steerers[t].Cleared?
    case Signal(t) => t in sys.steerers && sys.steerers[t] == Published
    case Notify(t) => t in sys.steerers && sys.steerers[t] == Signalled
    case MoveBySkew(t, state) => MaySteer(sys, t)
    case JumpTo(t, state) => MaySteer(sys, t) && sys.holder == None
  }

  ghost predicate Ok(g: Registry, sys: System) {
    && Valid(g, sys.fsm) && !sys.fsm.steering
    && forall t :: t in sys.steerers && sys.steerers[t].Cleared? ==> sys.steerers[t].strip <= 1
  }

  /** `FSMContinue` up to and including the call of the handler. */
  ghost function BeginStep(g: Registry, s: State): (r: State)
    requires Valid(g, s) && s.path != []
    ensures Valid(g, r)
  {
    var t := Take(g, s);
    if g[t.current].hasHandler then t.(trace := t.trace + [Ran(t.current)]) else t
  }

  /** One step; a step that is not enabled does nothing. */
  ghost function Next(g: Registry, sys: System, step: Step): (r: System)
    requires Ok(g, sys)
    ensures Valid(g, r.fsm)
  {
    if !Enabled(sys, step) then sys
    else match step
      case CallContinue =>
        if sys.fsm.inside || sys.fsm.path == [] then sys.(worker := Drained)
        else sys.(fsm := BeginStep(g, sys.fsm), worker := InHandler)
      case FinishHandler => sys.(fsm := sys.fsm.(inside := false), worker := Looping)
      case ReadPaused => sys.(worker := if sys.paused then Locking else Resetting)
      case LockAndTest => sys.(worker := if sys.paused then Sleeping else Resetting)
      case WakeSpuriously => sys.(worker := Locking)
      case ResetPaused => sys.(paused := true, worker := Looping)
      case BeginGoto(t, state, strip) =>
        sys.(fsm := sys.fsm.(path := []), steerers := sys.steerers[t := Cleared(state, strip)], holder := Some(t), goal := None)
      case Publish(t) =>
        var state, strip := sys.steerers[t].state, sys.steerers[t].strip;
        sys.(fsm := Goto(g, sys.fsm, state, strip).state, steerers := sys.steerers[t := Published],
             goal := if Route(g, sys.fsm.current, state).Some? then Some(state) else None)
      case Signal(t) => sys.(paused := false, steerers := sys.steerers[t := Signalled])
      case Notify(t) =>
        sys.(worker := if sys.worker == Sleeping then Locking else sys.worker,
             steerers := sys.steerers[t := Idle], holder := None)
      case MoveBySkew(t, state) =>
        if state !in g then sys
        else sys.(fsm := sys.fsm.(current := state, trace := sys.fsm.trace + [Skewed(state, sys.fsm.path == [])]), goal := None)
      case JumpTo(t, state) =>
        // the handler it runs is taken to return without steering
        sys.(fsm := Jump(g, sys.fsm, state, Body([], Returned)).state, goal := None)
  }

  /** The mutex has one holder: the thread whose call of FSMGoto is under way. */
  ghost predicate MutexOk(sys: System) {
    && (forall t :: t in sys.steerers ==> (sys.steerers[t] != Idle <==> sys.holder == Some(t)))
    && (sys.holder.Some? ==> sys.holder.value in sys.steerers)
  }

  ghost predicate Waiting(sys: System) {
    sys.worker == Drained || sys.worker == Locking || sys.worker == Sleeping
  }

  /** Some thread has published a route and has yet to clear the flag, or has
      cleared it and has yet to notify. */
  ghost predicate WakeupDue(sys: System) {
    exists t :: t in sys.steerers && (sys.steerers[t] == Published || sys.steerers[t] == Signalled)
  }

  /** If the worker is on its way to sleep, or asleep, and there is work, then a
      wakeup that will reach it is due, or it will see the cleared flag. */
  ghost predicate NoLostWork(sys: System) {
    Waiting(sys) && sys.fsm.path != [] ==>
      || (sys.holder.Some? && sys.holder.value in sys.steerers && sys.steerers[sys.holder.value] == Published)
      || (sys.holder.Some? && sys.holder.value in sys.steerers && sys.steerers[sys.holder.value] == Signalled && !sys.paused)
      || (!sys.paused && sys.worker != Sleeping)
  }

  /** What is pending leads to the goal, or the machine is there. */
  ghost predicate OnCourse(sys: System) {
    sys.goal.Some? ==>
      if sys.fsm.path == [] then sys.fsm.current == sys.goal.value
      else sys.fsm.path[|sys.fsm.path| - 1] == sys.goal.value
  }

  /** The worker is not left asleep with the flag cleared: the thread that has
      cleared it is about to notify. */
  ghost predicate NoLostWakeup(sys: System) {
    sys.worker == Sleeping && !sys.paused ==>
      sys.holder.Some? && sys.holder.value in sys.steerers && sys.steerers[sys.holder.value] == Signalled
  }

  /** From the start of an FSMGoto until it publishes nothing is pending. */
  ghost predicate NothingWhileCleared(sys: System) {
    sys.holder.Some? && sys.holder.value in sys.steerers && sys.steerers[sys.holder.value].Cleared? ==> sys.fsm.path == []
  }

  ghost predicate Inv(g: Registry, sys: System) {
    && Ok(g, sys)
    && MutexOk(sys)
    && NothingWhileCleared(sys)
    && (sys.fsm.inside ==> sys.worker == InHandler)
    && sys.fsm.current == SteeringRuns.At(sys.fsm.root, sys.fsm.trace)
    && NoLostWork(sys)
    && NoLostWakeup(sys)
    && OnCourse(sys)
  }

  lemma JumpReturns(g: Registry, s: State, state: int)
    requires Valid(g, s) && !s.steering
    ensures var r := Jump(g, s, state, Body([], Returned)).state;
            && !r.steering && r.path == [] && r.inside == s.inside && r.root == s.root
            && r.current == SteeringRuns.At(s.root, r.trace)
            && r.current == if state in g then state else s.root
  {
    if state in g {
      var s1 := s.(steering := true, path := [], current := state, trace := s.trace + [Jumped(state)]);
      var s2 := s1.(trace := s1.trace + [Ran(s1.current)]);
      assert s2.trace[..|s1.trace|] == s1.trace;
      if g[state].hasHandler {
        assert ExecAll(g, s2, []) == Result(s2, Value(true));
      }
      assert CallHandler(g, s1, true, Body([], Returned)).reply == Value(true);
    }
  }

  /** Taking a step keeps what is to be visited, and where that leads. */
  lemma StepBegins(g: Registry, s: State)
    requires Valid(g, s) && s.path != []
    ensures var r := BeginStep(g, s);
            && r == s.(inside := true, path := r.path, current := r.current, trace := r.trace)
            && |r.path| < |s.path| && Destination(r) == Destination(s)
            && r.current == SteeringRuns.At(s.root, r.trace)
            && Forecast(g, r) == Forecast(g, s)
  {
    TakeSteps(g, s);
    TakeForecast(g, s);
    TakeIsAt(g, s);
    var t := Take(g, s);
    assert t.trace + [] == t.trace;
    LastOfRest(s.path, Taken(g, s.path));
  }

  /** The trace says where a step has got to, before its handler runs and after. */
  lemma TakeIsAt(g: Registry, s: State)
    requires Valid(g, s) && s.path != []
    ensures var t := Take(g, s);
            && t.current == SteeringRuns.At(s.root, t.trace)
            && t.current == SteeringRuns.At(s.root, t.trace + [Ran(t.current)])
  {
    var t := Take(g, s);
    assert (t.trace + [Ran(t.current)])[..|t.trace|] == t.trace;
  }

  lemma ContinueKeeps(g: Registry, sys: System)
    requires Inv(g, sys)
    ensures Inv(g, Next(g, sys, CallContinue))
  {
    if sys.worker == Looping && sys.fsm.path != [] && !sys.fsm.inside {
      StepBegins(g, sys.fsm);
    }
  }

  lemma GotoPublishes(g: Registry, s: State, state: int, strip: nat)
    requires Valid(g, s) && !s.steering && strip <= 1
    ensures var r := Goto(g, s, state, strip).state;
            && r.inside == s.inside && !r.steering && r.current == s.current && r.root == s.root && r.trace == s.trace
            && (r.path != [] <==> Route(g, s.current, state).Some?)
            && (r.path != [] ==> r.path[|r.path| - 1] == state)
  {
    if Route(g, s.current, state).Some? {
      SteeringRuns.RouteTail(g, s.current, state, strip);
    }
  }

  lemma PublishKeeps(g: Registry, sys: System, t: nat)
    requires Inv(g, sys)
    ensures Inv(g, Next(g, sys, Publish(t)))
  {
    if Enabled(sys, Publish(t)) {
      GotoPublishes(g, sys.fsm, sys.steerers[t].state, sys.steerers[t].strip);
      assert sys.holder == Some(t);
    }
  }

  lemma NextKeeps(g: Registry, sys: System, step: Step)
    requires Inv(g, sys)
    ensures Inv(g, Next(g, sys, step))
  {
    match step
    case CallContinue => ContinueKeeps(g, sys);
    case Publish(t) => PublishKeeps(g, sys, t);
    case JumpTo(t, state) => JumpReturns(g, sys.fsm, state);
    case _ =>
  }

  // ------------------------------------------------------------------- safety

  ghost function RunSteps(g: Registry, sys: System, steps: seq<Step>): (r: System)
    requires Inv(g, sys)
    ensures Inv(g, r)
    decreases |steps|
  {
    if steps == [] then sys
    else
      NextKeeps(g, sys, steps[0]);
      RunSteps(g, Next(g, sys, steps[0]), steps[1..])
  }

  /** The worker as `FSMThreadStart` starts it, with any number of threads and
      any work already pending, wherever the machine has got to. */
  ghost predicate Started(g: Registry, sys: System) {
    && Valid(g, sys.fsm) && !sys.fsm.steering && !sys.fsm.inside
    && sys.fsm.current == SteeringRuns.At(sys.fsm.root, sys.fsm.trace)
    && sys.paused && sys.worker == Looping && sys.goal == None && sys.holder == None
    && forall t :: t in sys.steerers ==> sys.steerers[t] == Idle
  }

  /** No lost work: in every interleaving, whenever the worker sleeps and no
      thread is between publishing a route and its wakeup, nothing is pending,
      although the worker sets the flag again without the lock. */
  lemma SleepsOnlyWhenDrained(g: Registry, sys: System, steps: seq<Step>)
    requires Started(g, sys)
    ensures Inv(g, sys)
    ensures var r := RunSteps(g, sys, steps);
            r.worker == Sleeping && !WakeupDue(r) ==> r.fsm.path == []
  {
    assert Inv(g, sys);
    var r := RunSteps(g, sys, steps);
    if r.worker == Sleeping && r.fsm.path != [] {
      assert r.holder.value in r.steerers;
    }
  }

  /** And it has got where it was sent: if the last thing that steered was an
      FSMGoto that found a route, the machine is at that target. */
  lemma SleepsAtTheTarget(g: Registry, sys: System, steps: seq<Step>, target: int)
    requires Started(g, sys)
    ensures Inv(g, sys)
    ensures var r := RunSteps(g, sys, steps);
            r.worker == Sleeping && !WakeupDue(r) && r.goal == Some(target) ==> r.fsm.current == target
  {
    SleepsOnlyWhenDrained(g, sys, steps);
  }

  // ----------------------------------------------------------------- progress

  ghost predicate NobodySteers(sys: System) {
    forall t :: t in sys.steerers ==> sys.steerers[t] == Idle
  }

  /** The next step of the worker when it is awake. */
  function Own(sys: System): (step: Step)
    requires sys.worker != Sleeping
  {
    match sys.worker
    case Looping => CallContinue
    case InHandler => FinishHandler
    case Drained => ReadPaused
    case Locking => LockAndTest
    case Resetting => ResetPaused
  }

  /** Up to `n` steps of the worker alone, until it sleeps. */
  ghost function Settle(g: Registry, sys: System, n: nat): (r: System)
    requires Inv(g, sys)
    ensures Inv(g, r)
    decreases n
  {
    if n == 0 || sys.worker == Sleeping then sys
    else
      NextKeeps(g, sys, Own(sys));
      Settle(g, Next(g, sys, Own(sys)), n - 1)
  }

  /** How many steps the worker needs at most before it sleeps. */
  function StepsToSleep(sys: System): nat {
    8 * |sys.fsm.path| + match sys.worker
      case Sleeping => 0
      case Locking => if sys.paused then 1 else 5
      case Drained => if sys.paused then 2 else 5
      case Looping => if sys.paused then 3 else 6
      case Resetting => 4
      case InHandler => 7
  }

  /** What is to be visited, and where that leads, do not change. */
  ghost predicate SameAhead(g: Registry, sys: System, r: System)
    requires Inv(g, sys) && Inv(g, r)
  {
    Forecast(g, r.fsm) == Forecast(g, sys.fsm) && Destination(r.fsm) == Destination(sys.fsm)
  }

  lemma OwnStep(g: Registry, sys: System)
    requires Inv(g, sys) && NobodySteers(sys) && sys.worker != Sleeping
    ensures var r := Next(g, sys, Own(sys));
            && Inv(g, r) && NobodySteers(r) && SameAhead(g, sys, r)
            && StepsToSleep(r) < StepsToSleep(sys)
  {
    NextKeeps(g, sys, Own(sys));
    assert sys.holder == None;
    if sys.worker == Looping && sys.fsm.path != [] {
      StepBegins(g, sys.fsm);
    }
  }

  /** From every state that any interleaving can reach in which nobody is
      steering, the worker alone does all that is pending and goes to sleep with
      the flag set, within a number of steps that only depends on the path: at
      most 7 when nothing is pending. */
  lemma {:induction false} WorkerSettles(g: Registry, sys: System, n: nat)
    requires Inv(g, sys) && NobodySteers(sys) && n >= StepsToSleep(sys)
    ensures var r := Settle(g, sys, n);
            && r.worker == Sleeping && r.paused && r.fsm.path == []
            && r.fsm.trace == Forecast(g, sys.fsm)
            && r.fsm.current == Destination(sys.fsm)
    decreases n
  {
    if sys.worker == Sleeping {
      assert sys.holder == None;
      assert Visits(g, []) == [];
    } else {
      OwnStep(g, sys);
      WorkerSettles(g, Next(g, sys, Own(sys)), n - 1);
    }
  }

  /** All of one `FSMGoto`, by a thread that nobody interrupts. */
  function WholeGoto(t: nat, state: int): seq<Step> {
    [BeginGoto(t, state, 1), Publish(t), Signal(t), Notify(t)]
  }

  /** An FSMGoto is enough to get the work done: whatever the worker was about to
      do, asleep or not, it afterwards visits the best route, runs its handlers,
      stops at the target and sleeps again; without a route it only sleeps. */
  lemma GotoDrivesWorker(g: Registry, start: System, steps: seq<Step>, t: nat, state: int, n: nat)
    requires Started(g, start)
    ensures Inv(g, start)
    ensures var sys := RunSteps(g, start, steps);
            NobodySteers(sys) && MaySteer(sys, t) && n >= 8 * |g| + 7 ==>
              var r := Settle(g, RunSteps(g, sys, WholeGoto(t, state)), n);
              && r.worker == Sleeping && r.paused && r.fsm.path == []
              && match Route(g, sys.fsm.current, state)
                 case None => r.fsm.current == sys.fsm.current && r.fsm.trace == sys.fsm.trace
                 case Some(route) => r.fsm.current == state && r.fsm.trace == sys.fsm.trace + Visits(g, route[1..])
  {
    assert Inv(g, start);
    var sys := RunSteps(g, start, steps);
    if NobodySteers(sys) && MaySteer(sys, t) && n >= 8 * |g| + 7 {
      GotoPublished(g, sys, t, state);
      WorkerSettles(g, RunSteps(g, sys, WholeGoto(t, state)), n);
    }
  }

  lemma GotoPublished(g: Registry, sys: System, t: nat, state: int)
    requires Inv(g, sys) && NobodySteers(sys) && MaySteer(sys, t)
    ensures var r := RunSteps(g, sys, WholeGoto(t, state));
            && NobodySteers(r)
            && r.fsm.trace == sys.fsm.trace && r.fsm.current == sys.fsm.current
            && (match Route(g, sys.fsm.current, state)
                case None => r.fsm.path == []
                case Some(route) => r.fsm.path == route[1..] && Destination(r.fsm) == state)
            && |r.fsm.path| <= |g|
  {
    RoutePublished(g, sys, t, state);
    var b := BeginAndPublish(g, sys, t, state);
    GotoWakes(g, b, t);
    FourSteps(g, sys, BeginGoto(t, state, 1), Publish(t), Signal(t), Notify(t));
    if Route(g, sys.fsm.current, state).Some? {
      SimpleFits(g, Route(g, sys.fsm.current, state).value);
    }
  }

  ghost function BeginAndPublish(g: Registry, sys: System, t: nat, state: int): (r: System)
    requires Inv(g, sys)
    ensures Inv(g, r)
  {
    NextKeeps(g, sys, BeginGoto(t, state, 1));
    NextKeeps(g, Next(g, sys, BeginGoto(t, state, 1)), Publish(t));
    Next(g, Next(g, sys, BeginGoto(t, state, 1)), Publish(t))
  }

  lemma RoutePublished(g: Registry, sys: System, t: nat, state: int)
    requires Inv(g, sys) && NobodySteers(sys) && MaySteer(sys, t)
    ensures var r := BeginAndPublish(g, sys, t, state);
            && r.steerers == sys.steerers[t := Published]
            && r.fsm.trace == sys.fsm.trace && r.fsm.current == sys.fsm.current
            && (match Route(g, sys.fsm.current, state)
                case None => r.fsm.path == []
                case Some(route) => r.fsm.path == route[1..] && Destination(r.fsm) == state)
  {
    NextKeeps(g, sys, BeginGoto(t, state, 1));
    var a := Next(g, sys, BeginGoto(t, state, 1));
    assert sys.holder == None && a.fsm.current == sys.fsm.current && !a.fsm.steering;
    GotoPublishes(g, a.fsm, state, 1);
  }

  ghost function WholeWakeup(g: Registry, sys: System, t: nat): (r: System)
    requires Inv(g, sys)
    ensures Inv(g, r)
  {
    NextKeeps(g, sys, Signal(t));
    NextKeeps(g, Next(g, sys, Signal(t)), Notify(t));
    Next(g, Next(g, sys, Signal(t)), Notify(t))
  }

  lemma GotoWakes(g: Registry, sys: System, t: nat)
    requires Inv(g, sys) && t in sys.steerers && sys.steerers[t] == Published
    requires forall u :: u in sys.steerers && u != t ==> sys.steerers[u] == Idle
    ensures var r := WholeWakeup(g, sys, t);
            NobodySteers(r) && r.fsm == sys.fsm
  {
  }

  lemma FourSteps(g: Registry, sys: System, s1: Step, s2: Step, s3: Step, s4: Step)
    requires Inv(g, sys)
    ensures Inv(g, Next(g, sys, s1)) && Inv(g, Next(g, Next(g, sys, s1), s2)) && Inv(g, Next(g, Next(g, Next(g, sys, s1), s2), s3))
    ensures RunSteps(g, sys, [s1, s2, s3, s4]) == Next(g, Next(g, Next(g, Next(g, sys, s1), s2), s3), s4)
  {
    var steps := [s1, s2, s3, s4];
    assert steps[1..] == [s2, s3, s4] && [s2, s3, s4][1..] == [s3, s4] && [s3, s4][1..] == [s4] && [s4][1..] == [];
    NextKeeps(g, sys, s1);
    NextKeeps(g, Next(g, sys, s1), s2);
    NextKeeps(g, Next(g, Next(g, sys, s1), s2), s3);
    var c := Next(g, Next(g, Next(g, sys, s1), s2), s3);
    NextKeeps(g, c, s4);
    assert RunSteps(g, c, [s4]) == RunSteps(g, Next(g, c, s4), []) == Next(g, c, s4);
    assert RunSteps(g, Next(g, Next(g, sys, s1), s2), [s3, s4]) == RunSteps(g, c, [s4]);
  }

  /** The worker turns to its pause only from an FSMContinue that finds nothing to
      do, and the flag is set nowhere else than in the pause. */
  lemma PausesOnlyWhenDone(g: Registry, sys: System, step: Step)
    requires Inv(g, sys)
    ensures var r := Next(g, sys, step);
            && (Working(sys) && !Working(r) ==> step == CallContinue && sys.worker == Looping && sys.fsm.path == [])
            && (!sys.paused && r.paused ==> step == ResetPaused && !Working(sys))
  {
  }

  /** The worker is in the loop that follows the path. */
  predicate Working(sys: System) {
    sys.worker == Looping || sys.worker == InHandler
  }

  /** A sleeper that is woken tests the flag again, and sleeps on if it is set. */
  lemma SleeperTestsAgain(g: Registry, sys: System)
    requires Inv(g, sys) && sys.worker == Sleeping
    ensures var woken := Next(g, sys, WakeSpuriously);
            Inv(g, woken) && Next(g, woken, LockAndTest) == if sys.paused then sys else sys.(worker := Resetting)
  {
    NextKeeps(g, sys, WakeSpuriously);
  }

  /** A skew and a jump take effect at once in any thread that may steer. */
  lemma SteeringMoves(g: Registry, sys: System, t: nat, state: int)
    requires Inv(g, sys) && MaySteer(sys, t)
    ensures state in g ==> Next(g, sys, MoveBySkew(t, state)).fsm.current == state
    ensures Next(g, sys, MoveBySkew(t, state)).fsm.path == sys.fsm.path
    ensures sys.holder == None ==>
              var r := Next(g, sys, JumpTo(t, state)).fsm;
              r.path == [] && r.current == if state in g then state else sys.fsm.root
  {
    if sys.holder == None {
      JumpReturns(g, sys.fsm, state);
    }
  }
}
