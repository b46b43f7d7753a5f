/** What holds over every run of progress operations. */
module ProgressRuns {
  import opened FsmGraph
  import opened Progress

  /** One call on a task of the tree. */
  datatype Op =
    | SetMaxOf(id: nat, n: nat, trigger: bool)
    | DoneOf(id: nat)
    | BeginFinite(id: nat)
    | BeginVariable(id: nat)
    | SetMaxValueOf(id: nat, max: nat, trigger: bool)
    | UpdateOf(id: nat, value: nat)
    | CompleteOf(id: nat)
    | FailOf(id: nat)
    | DoingOf(id: nat)
    | RestartOf(id: nat, trigger: bool)

  /** The task exists and is of the class that has the method. */
  ghost predicate Callable(s: Store, op: Op) {
    && op.id < |s.tasks|
    && (op.SetMaxOf? || op.DoneOf? || op.BeginFinite? || op.BeginVariable? ==> s.tasks[op.id].kind.Finite?)
    && (op.SetMaxValueOf? || op.UpdateOf? ==> s.tasks[op.id].kind.Variable?)
  }

  ghost function Apply(s: Store, op: Op): (r: Store)
    requires Wf(s)
    ensures Wf(r)
  {
    if !Callable(s, op) then s
    else match op
      case SetMaxOf(id, n, trigger) => SetMax(s, id, n, trigger)
      case DoneOf(id) => Done(s, id)
      case BeginFinite(id) => Begin(s, id, Finite([], 0))
      case BeginVariable(id) => Begin(s, id, Variable(0, 0))
      case SetMaxValueOf(id, max, trigger) => SetMaxValue(s, id, max, trigger)
      case UpdateOf(id, value) => Update(s, id, value)
      case CompleteOf(id) => Complete(s, id)
      case FailOf(id) => Fail(s, id)
      case DoingOf(id) => Doing(s, id)
      case RestartOf(id, trigger) => RestartAndNotify(s, id, trigger)
  }

  ghost function Run(s: Store, ops: seq<Op>): (r: Store)
    requires Wf(s)
    ensures Wf(r)
  {
    if ops == [] then s else Apply(Run(s, ops[..|ops| - 1]), ops[|ops| - 1])
  }

  /** A new finite task, as the constructor leaves it. */
  ghost function NewRoot(): (r: Store)
    ensures Wf(r)
  {
    Store([Task(None, false, false, Finite([], 0))], [])
  }

  // ------------------------------------------ completed fires at most once

  /** The last completion, own failure or restart of `id` in the log was not
      a restart. */
  ghost predicate Closed(log: seq<Event>, id: nat) {
    log != [] &&
    var e := log[|log| - 1];
    e == Completed(id) || e == Failed(id, id) || (e != Restarted(id) && Closed(log[..|log| - 1], id))
  }

  ghost predicate LogOk(log: seq<Event>) {
    log == [] ||
    var init := log[..|log| - 1];
    var e := log[|log| - 1];
    LogOk(init) && (e.Completed? ==> !Closed(init, e.id))
  }

  /** The completed flag of each task agrees with the log. */
  ghost predicate FlagsMatchLog(s: Store) {
    && LogOk(s.log)
    && (forall id :: 0 <= id < |s.tasks| ==> (s.tasks[id].completed <==> Closed(s.log, id)))
    && (forall id :: |s.tasks| <= id ==> !Closed(s.log, id))
  }

  ghost predicate Closes(e: Event, id: nat) {
    e == Completed(id) || e == Failed(id, id)
  }

  /** One event, with the flags set as that event says. */
  lemma EmitMatches(s: Store, r: Store, e: Event)
    requires FlagsMatchLog(s)
    requires r.log == s.log + [e] && |r.tasks| == |s.tasks|
    requires forall id :: 0 <= id < |s.tasks| ==>
      r.tasks[id].completed == (Closes(e, id) || (e != Restarted(id) && s.tasks[id].completed))
    requires e.Completed? || e.Failed? ==> e.id < |s.tasks|
    requires e.Completed? ==> !s.tasks[e.id].completed
    ensures FlagsMatchLog(r)
  {
    assert r.log[..|s.log|] == s.log;
  }

  lemma {:induction false} NotifyStartedLog(s: Store, id: nat)
    requires Wf(s) && id < |s.tasks| && FlagsMatchLog(s)
    ensures FlagsMatchLog(NotifyStarted(s, id))
    decreases id
  {
    var t := s.tasks[id];
    if !t.started {
      var s1 := Emit(Put(s, id, t.(started := true)), Started(id));
      EmitMatches(s, s1, Started(id));
      SameShapeWf(s, s1);
      assert WfTask(s, id);
      if t.parent.Some? {
        NotifyStartedLog(s1, t.parent.value);
      }
    }
  }

  lemma {:induction false} NotifyCompletedLog(s: Store, id: nat)
    requires Wf(s) && id < |s.tasks| && FlagsMatchLog(s)
    ensures FlagsMatchLog(NotifyCompleted(s, id))
    decreases id, 0
  {
    var t := s.tasks[id];
    if !t.completed {
      var s1 := Emit(s, Progressed(id, 1.0));
      EmitMatches(s, s1, Progressed(id, 1.0));
      var s2 := Emit(Emit(Put(s, id, t.(completed := true)), Progressed(id, 1.0)), Completed(id));
      EmitMatches(s1, s2, Completed(id));
      SameShapeWf(s, s2);
      assert WfTask(s, id);
      if t.parent.Some? {
        NotifyUpdateLog(s2, t.parent.value);
      }
    }
  }

  lemma {:induction false} NotifyUpdateLog(s: Store, id: nat)
    requires Wf(s) && id < |s.tasks| && FlagsMatchLog(s)
    ensures FlagsMatchLog(NotifyUpdate(s, id))
    decreases id, 1
  {
    if IsCompleted(s, id) {
      NotifyCompletedLog(s, id);
    } else {
      var e := Progressed(id, GetProgress(s, id));
      EmitMatches(s, Emit(s, e), e);
      SameShapeWf(s, Emit(s, e));
      assert WfTask(s, id);
      if s.tasks[id].parent.Some? {
        NotifyUpdateLog(Emit(s, e), s.tasks[id].parent.value);
      }
    }
  }

  /** Failures reported by ancestors do not count as their own. */
  lemma {:induction false} NotifyFailedLog(s: Store, id: nat, origin: nat)
    requires Wf(s) && id < |s.tasks| && id < origin && FlagsMatchLog(s)
    ensures FlagsMatchLog(NotifyFailed(s, id, origin))
    decreases id
  {
    var e := Failed(id, origin);
    EmitMatches(s, Emit(s, e), e);
    SameShapeWf(s, Emit(s, e));
    assert WfTask(s, id);
    if s.tasks[id].parent.Some? {
      NotifyFailedLog(Emit(s, e), s.tasks[id].parent.value, origin);
    }
  }

  lemma FailLog(s: Store, id: nat)
    requires Wf(s) && id < |s.tasks| && FlagsMatchLog(s)
    ensures FlagsMatchLog(Fail(s, id))
  {
    var t := s.tasks[id];
    var s1 := Put(s, id, t.(completed := true));
    var s2 := Emit(s1, Failed(id, id));
    EmitMatches(s, s2, Failed(id, id));
    SameShapeWf(s, s1);
    SameShapeWf(s, s2);
    assert FlagsMatchLog(s2);
    assert WfTask(s, id);
    if t.parent.Some? {
      NotifyFailedLog(s2, t.parent.value, id);
      NotifyUpdateLog(NotifyFailed(s1, id, id), t.parent.value);
    }
  }

  lemma {:induction false} RestartLog(s: Store, id: nat)
    requires Wf(s) && id < |s.tasks| && FlagsMatchLog(s)
    ensures FlagsMatchLog(Restart(s, id))
    decreases |s.tasks| - id, |s.tasks| + 1
  {
    var s1 := Emit(Put(s, id, Rewound(s.tasks[id])), Restarted(id));
    EmitMatches(s, s1, Restarted(id));
    RewoundWf(s, id);
    if s.tasks[id].kind.Finite? {
      RestartSlotsLog(s1, id, 0);
    }
  }

  lemma {:induction false} RestartSlotsLog(s: Store, id: nat, i: nat)
    requires Wf(s) && id < |s.tasks| && s.tasks[id].kind.Finite? && i <= |s.tasks[id].kind.slots|
    requires FlagsMatchLog(s)
    ensures FlagsMatchLog(RestartSlots(s, id, i))
    decreases |s.tasks| - id, 0, |s.tasks[id].kind.slots| - i
  {
    var Finite(slots, index) := s.tasks[id].kind;
    assert WfTask(s, id);
    if i < |slots| {
      match slots[i]
      case Todo => RestartSlotsLog(s, id, i + 1);
      case Finished => RestartSlotsLog(PutSlots(s, id, slots[i := Todo], index), id, i + 1);
      case Sub(c) =>
        assert WfSlot(s, id, slots[i]);
        RestartLog(s, c);
        RestartSlotsLog(Restart(s, c), id, i + 1);
    }
  }

  lemma ApplyLog(s: Store, op: Op)
    requires Wf(s) && FlagsMatchLog(s)
    ensures FlagsMatchLog(Apply(s, op))
  {
    if Callable(s, op) {
      var id := op.id;
      match op
      case SetMaxOf(_, n, trigger) =>
        if s.tasks[id].started && trigger {
          NotifyUpdateLog(SetMaxSlots(s, id, n), id);
        }
      case DoneOf(_) =>
        NotifyStartedLog(s, id);
        NotifyUpdateLog(FillSlot(NotifyStarted(s, id), id, Finished), id);
      case BeginFinite(_) => BeginLog(s, id, Finite([], 0));
      case BeginVariable(_) => BeginLog(s, id, Variable(0, 0));
      case SetMaxValueOf(_, max, trigger) =>
        if s.tasks[id].started && trigger {
          NotifyUpdateLog(SetVariable(s, id, s.tasks[id].kind.current, max), id);
        }
      case UpdateOf(_, value) =>
        NotifyStartedLog(s, id);
        NotifyUpdateLog(SetVariable(NotifyStarted(s, id), id, value, s.tasks[id].kind.max), id);
      case CompleteOf(_) => NotifyCompletedLog(s, id);
      case FailOf(_) => FailLog(s, id);
      case DoingOf(_) =>
        NotifyStartedLog(s, id);
        NotifyUpdateLog(NotifyStarted(s, id), id);
      case RestartOf(_, trigger) =>
        RestartLog(s, id);
        if trigger {
          NotifyStartedLog(Restart(s, id), id);
          NotifyUpdateLog(NotifyStarted(Restart(s, id), id), id);
        }
    }
  }

  lemma BeginLog(s: Store, id: nat, kind: Kind)
    requires Wf(s) && id < |s.tasks| && s.tasks[id].kind.Finite? && FlagsMatchLog(s)
    requires kind == Finite([], 0) || kind == Variable(0, 0)
    ensures FlagsMatchLog(Begin(s, id, kind))
  {
    NotifyStartedLog(s, id);
    var s1 := AddTask(NotifyStarted(s, id), id, kind);
    assert FlagsMatchLog(s1);
    NotifyUpdateLog(FillSlot(s1, id, Sub(|s.tasks|)), id);
  }

  lemma {:induction false} RunLog(ops: seq<Op>)
    ensures FlagsMatchLog(Run(NewRoot(), ops))
  {
    if ops != [] {
      RunLog(ops[..|ops| - 1]);
      ApplyLog(Run(NewRoot(), ops[..|ops| - 1]), ops[|ops| - 1]);
    }
  }

  /** A task that was closed stays closed until it is restarted. */
  lemma {:induction false} ClosedUntilRestart(log: seq<Event>, id: nat, i: nat, j: nat)
    requires i < j <= |log|
    requires log[i] == Completed(id) || log[i] == Failed(id, id)
    requires forall k :: i < k < j ==> log[k] != Restarted(id)
    ensures Closed(log[..j], id)
    decreases j
  {
    assert log[..j][..j - 1] == log[..j - 1];
    if i < j - 1 {
      ClosedUntilRestart(log, id, i, j - 1);
    }
  }

  lemma {:induction false} LogOkAt(log: seq<Event>, j: nat)
    requires LogOk(log) && j < |log| && log[j].Completed?
    ensures !Closed(log[..j], log[j].id)
    decreases |log|
  {
    if j < |log| - 1 {
      LogOkAt(log[..|log| - 1], j);
      assert log[..|log| - 1][..j] == log[..j];
    }
  }

  /** In every run, between a completion or own failure of a task and any later
      completion of it there is a restart of it. */
  lemma CompletesOncePerRestart(ops: seq<Op>, id: nat, i: nat, j: nat)
    requires var log := Run(NewRoot(), ops).log;
             && i < j < |log|
             && (log[i] == Completed(id) || log[i] == Failed(id, id))
             && log[j] == Completed(id)
    ensures exists k :: i < k < j && Run(NewRoot(), ops).log[k] == Restarted(id)
  {
    var log := Run(NewRoot(), ops).log;
    RunLog(ops);
    LogOkAt(log, j);
    if forall k :: i < k < j ==> log[k] != Restarted(id) {
      ClosedUntilRestart(log, id, i, j);
    }
  }
}
