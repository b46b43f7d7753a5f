/** The error handling of a VirtualBox session: how often it tries to heal. */
module VBoxSession {
  import opened FsmGraph
  import P = Progress
  import R = ProgressRuns
  import B = ProgressBoard
  import opened Steering
  import opened Machine
  import E = ProgressEffects
  import S = SteeringRuns
  import V = VBoxGraph

  const SESSION_HEAL_THRESSHOLD := 60000
  const SESSION_HEAL_TRIES := 2

  /** The range of `unsigned long`, in which elapsed times wrap. */
  const ULONG_RANGE := 0x1_0000_0000_0000_0000

  /** The error fields; the count is an `int`, taken not to overflow. */
  datatype Errors = Errors(count: nat, timestamp: nat)

  function Elapsed(now: nat, since: nat): nat {
    (now - since) % ULONG_RANGE
  }

  /** The fields after an error at `now`. */
  function Account(e: Errors, now: nat): Errors {
    Errors(if Elapsed(now, e.timestamp) < SESSION_HEAL_THRESSHOLD then e.count + 1 else 1, now)
  }

  /** The error is answered by a skew through the error state, not by a jump to
      the fatal error sink. */
  predicate Heals(e: Errors, now: nat) {
    Elapsed(now, e.timestamp) >= SESSION_HEAL_THRESSHOLD || e.count + 1 <= SESSION_HEAL_TRIES
  }

  function AccountAll(times: seq<nat>): Errors {
    if times == [] then Errors(0, 0) else Account(AccountAll(times[..|times| - 1]), times[|times| - 1])
  }

  ghost predicate ClockOk(times: seq<nat>) {
    && (forall i :: 0 <= i < |times| ==> times[i] < ULONG_RANGE)
    && (forall i, j :: 0 <= i < j < |times| ==> times[i] <= times[j])
  }

  /** Error `k` came soon after the one before. */
  ghost predicate Soon(times: seq<nat>, k: int)
    requires 0 < k < |times|
  {
    times[k] - times[k - 1] < SESSION_HEAL_THRESSHOLD
  }

  /** The last `n` errors are a burst: each came soon after the one before, and
      the first of them did not. */
  ghost predicate IsBurst(times: seq<nat>, n: nat) {
    && 1 <= n <= |times|
    && (forall k :: |times| - n < k < |times| ==> Soon(times, k))
    && (n < |times| ==> !Soon(times, |times| - n))
  }

  lemma ElapsedIsDifference(now: nat, since: nat)
    requires since <= now < ULONG_RANGE
    ensures Elapsed(now, since) == now - since
  {
  }

  /** A clock that has been set back, by less than almost the whole range of its
      type, starts a new burst. */
  lemma ClockSetBackHeals(e: Errors, now: nat)
    requires now < e.timestamp < ULONG_RANGE && e.timestamp - now <= ULONG_RANGE - SESSION_HEAL_THRESSHOLD
    ensures Heals(e, now) && Account(e, now) == Errors(1, now)
  {
    assert Elapsed(now, e.timestamp) == ULONG_RANGE - (e.timestamp - now);
  }

  /** One more error makes the burst longer, or starts the next one. */
  lemma BurstGrows(init: seq<nat>, now: nat, n: nat)
    requires init != [] && IsBurst(init, n)
    ensures IsBurst(init + [now], if now - init[|init| - 1] < SESSION_HEAL_THRESSHOLD then n + 1 else 1)
  {
    var times := init + [now];
    forall k | 0 < k < |init|
      ensures Soon(times, k) <==> Soon(init, k)
    {
    }
  }

  lemma {:induction false} CountIsBurstLength(times: seq<nat>)
    requires ClockOk(times) && times != []
    ensures IsBurst(times, AccountAll(times).count)
    ensures AccountAll(times).timestamp == times[|times| - 1]
    decreases |times|
  {
    var init, now := times[..|times| - 1], times[|times| - 1];
    assert times == init + [now];
    if init != [] {
      CountIsBurstLength(init);
      assert init[|init| - 1] == times[|times| - 2] <= now;
    }
    CountStep(init, now);
  }

  lemma CountStep(init: seq<nat>, now: nat)
    requires init != [] ==>
               && IsBurst(init, AccountAll(init).count)
               && AccountAll(init).timestamp == init[|init| - 1] <= now < ULONG_RANGE
    requires init == [] ==> now < ULONG_RANGE
    ensures IsBurst(init + [now], AccountAll(init + [now]).count)
    ensures AccountAll(init + [now]).timestamp == now
  {
    assert (init + [now])[..|init|] == init;
    if init != [] {
      ElapsedIsDifference(now, init[|init| - 1]);
      BurstGrows(init, now, AccountAll(init).count);
    }
  }

  lemma BurstUnique(times: seq<nat>, m: nat, n: nat)
    requires IsBurst(times, m) && IsBurst(times, n)
    ensures m == n
  {
  }

  /** Over every sequence of error times, an error is answered by a skew exactly
      when it is one of the first SESSION_HEAL_TRIES of its burst; every further
      error of the burst jumps to the sink. */
  lemma HealsExactlyTheFirstOfABurst(times: seq<nat>, n: nat)
    requires ClockOk(times) && IsBurst(times, n)
    ensures Heals(AccountAll(times[..|times| - 1]), times[|times| - 1]) <==> n <= SESSION_HEAL_TRIES
  {
    CountIsBurstLength(times);
    BurstUnique(times, n, AccountAll(times).count);
  }

  /** What `errorOccured` does to the machine. */
  ghost function Answered(g: Registry, s: State, e: Errors, now: nat, sink: Body): Result
    requires Valid(g, s)
  {
    var failed := Reported(g, s, (id: nat) => R.FailOf(id));
    if Heals(e, now) then Skew(g, failed, 2) else Jump(g, failed, V.FATAL, sink)
  }

  /** An error that is healed puts the machine at the error state, and leads from
      there to the old target if it was on its way. */
  lemma HealedErrorSkews(g: Registry, s: State, e: Errors, now: nat, sink: Body)
    requires Valid(g, s) && !s.steering && 2 in g && Heals(e, now)
    ensures var r := Answered(g, s, e, now, sink);
            && r.reply == Value(true) && r.state.current == 2 && r.state.target == s.target
            && r.state.trace == s.trace + [Skewed(2, s.path == [])]
            && (s.path == [] ==> r.state.path == [])
            && (s.path != [] ==>
                  if s.target != 2 && Reachable(g, 2, s.target)
                  then IsBestRoute(g, 2, s.target, r.state.path) && r.state.path[0] == 2
                  else r.state.path == [])
  {
    S.SkewReroutes(g, Reported(g, s, (id: nat) => R.FailOf(id)), 2);
  }

  /** Any other takes it to the fatal error sink, with nothing pending. */
  lemma OtherErrorJumps(g: Registry, s: State, e: Errors, now: nat, sink: Body)
    requires Valid(g, s) && !s.steering && 112 in g && !Heals(e, now)
    ensures var r := Answered(g, s, e, now, sink);
            && s.trace + [Jumped(112)] <= r.state.trace && r.state.path == []
            && (r.reply == Hangs <==> g[112].hasHandler && S.Steers(sink.calls))
  {
    var failed := Reported(g, s, (id: nat) => R.FailOf(id));
    S.JumpGrows(g, failed, 112, sink);
    S.JumpHangsIff(g, failed, 112, sink);
    S.JumpLeavesNothing(g, failed, 112, sink);
  }

  /** Either way, the meter has reported the failure. */
  lemma ErrorReportsFailure(g: Registry, s: State, e: Errors, now: nat, sink: Body)
    requires Valid(g, s) && s.meter.Some?
    ensures var id := s.meter.value;
            var log := Answered(g, s, e, now, sink).state.tasks.log;
            s.tasks.log <= log && P.Failed(id, id) in log[|s.tasks.log|..]
  {
    var failed := Reported(g, s, (id: nat) => R.FailOf(id));
    if Heals(e, now) {
      S.CallGrows(g, failed, SkewCall(2));
    } else {
      S.JumpGrows(g, failed, V.FATAL, sink);
    }
    FailureStays(s.tasks, s.meter.value, Answered(g, s, e, now, sink).state.tasks.log);
  }

  lemma FailureStays(tasks: P.Store, id: nat, log: seq<P.Event>)
    requires P.Wf(tasks) && id < |tasks.tasks| && R.Apply(tasks, R.FailOf(id)).log <= log
    ensures tasks.log <= log && P.Failed(id, id) in log[|tasks.log|..]
  {
    E.FailingMarks(tasks, id);
    var failed := R.Apply(tasks, R.FailOf(id)).log;
    var k :| |tasks.log| <= k < |failed| && failed[k] == P.Failed(id, id);
    assert log[|tasks.log|..][k - |tasks.log|] == log[k] == failed[k];
  }

  class Session {
    const fsm: SimpleFSM
    var errors: Errors
    var errorCode: int
    var isAborting: bool

    constructor (machine: SimpleFSM)
      ensures fsm == machine && errors == Errors(0, 0) && errorCode == 0 && !isAborting
    {
      fsm := machine;
      errors, errorCode, isAborting := Errors(0, 0), 0, false;
    }

    /** `sink` is what the handler of the fatal error sink does if it runs. */
    method ErrorOccured(errNo: int, now: nat, sink: Body) returns (reply: Reply)
      requires fsm.Ready()
      modifies this, fsm, fsm.board, fsm.board.objects
      ensures fsm.Ready() && fsm.nodes == old(fsm.nodes) && isAborting == old(isAborting)
      ensures isAborting ==>
                fsm.Snapshot() == old(fsm.Snapshot()) && errors == old(errors) && errorCode == old(errorCode)
      ensures !isAborting ==>
                && errorCode == errNo
                && Result(fsm.Snapshot(), reply) == Answered(fsm.nodes, old(fsm.Snapshot()), old(errors), now, sink)
                && errors == (if reply.Value? then Account(old(errors), now)
                              else Account(old(errors), now).(timestamp := old(errors.timestamp)))
    {
      if isAborting {
        return Value(true);
      }
      errorCode := errNo;
      fsm.FSMFail();
      reply := Answer(now, sink);

      // an exception leaves the time of the last error as it was
      if reply.Value? {
        errors := errors.(timestamp := now);
      }
    }

    /** Counts the error and steers. */
    method Answer(now: nat, sink: Body) returns (reply: Reply)
      requires fsm.Ready()
      modifies this`errors, fsm, fsm.board, fsm.board.objects
      ensures fsm.Ready() && fsm.nodes == old(fsm.nodes)
      ensures errors == Account(old(errors), now).(timestamp := old(errors.timestamp))
      ensures Result(fsm.Snapshot(), reply) ==
                if Heals(old(errors), now) then Skew(old(fsm.nodes), old(fsm.Snapshot()), 2)
                else Jump(old(fsm.nodes), old(fsm.Snapshot()), V.FATAL, sink)
    {
      if Elapsed(now, errors.timestamp) < SESSION_HEAL_THRESSHOLD {
        errors := errors.(count := errors.count + 1);
        if errors.count > SESSION_HEAL_TRIES {
          reply := fsm.FSMJump(V.FATAL, sink);
        } else {
          reply := fsm.FSMSkew(2);
        }
      } else {
        errors := errors.(count := 1);
        reply := fsm.FSMSkew(2);
      }
    }
  }
}
