/** Exactly which callbacks a call fires, in which order, and with which values,
    in terms of the tree it leaves. */
module ProgressCallbacks {
  import opened FsmGraph
  import opened Progress
  import opened ProgressAnnouncements
  import opened ProgressEffects
  import opened ProgressRuns

  // --------------------------------------------------------------- an update

  /** Whom an update of `id` tells: the task and its ancestors, as far as the
      first that is complete and was marked before. */
  ghost function Climb(s: Store, r: Store, id: nat): (path: seq<nat>)
    requires Wf(s) && Wf(r) && id < |s.tasks| <= |r.tasks|
    ensures forall x :: x in path ==> x <= id
    decreases id
  {
    assert WfTask(s, id);
    if s.tasks[id].completed && IsCompleted(r, id) then [] else [id] + ClimbAbove(s, r, id)
  }

  ghost function ClimbAbove(s: Store, r: Store, id: nat): (path: seq<nat>)
    requires Wf(s) && Wf(r) && id < |s.tasks| <= |r.tasks|
    ensures forall x :: x in path ==> x < id
    decreases id, 0
  {
    assert WfTask(s, id);
    if s.tasks[id].parent.None? then [] else Climb(s, r, s.tasks[id].parent.value)
  }

  /** What they are told: each the progress it reports afterwards, and that it is
      completed if it is. */
  ghost function Announced(r: Store, path: seq<nat>): seq<Event>
    requires Wf(r) && forall x :: x in path ==> x < |r.tasks|
  {
    if path == [] then []
    else
      assert path[0] in path && forall x :: x in path[1..] ==> x in path;
      [Progressed(path[0], GetProgress(r, path[0]))] +
      (if IsCompleted(r, path[0]) then [Completed(path[0])] else []) +
      Announced(r, path[1..])
  }

  lemma AnnouncedFirst(r: Store, id: nat, path: seq<nat>)
    requires Wf(r) && id < |r.tasks| && forall x :: x in path ==> x < |r.tasks|
    ensures Announced(r, [id] + path)
         == [Progressed(id, GetProgress(r, id))] + (if IsCompleted(r, id) then [Completed(id)] else []) + Announced(r, path)
  {
    assert ([id] + path)[1..] == path;
  }

  lemma {:induction false} ClimbSame(s: Store, q: Store, r: Store, id: nat)
    requires Wf(s) && Wf(q) && Wf(r) && id < |s.tasks| <= |r.tasks| && id < |q.tasks| <= |r.tasks|
    requires forall x :: 0 <= x <= id ==> s.tasks[x].parent == q.tasks[x].parent && s.tasks[x].completed == q.tasks[x].completed
    ensures Climb(s, r, id) == Climb(q, r, id)
    decreases id
  {
    assert WfTask(s, id);
    if s.tasks[id].parent.Some? {
      ClimbSame(s, q, r, s.tasks[id].parent.value);
    }
  }

  /** What a task reports does not depend on the tasks before it. */
  lemma {:induction false} ProgressBelow(s: Store, r: Store, x: nat)
    requires Wf(s) && Wf(r) && x < |s.tasks| <= |r.tasks|
    requires forall y :: x <= y < |s.tasks| ==> s.tasks[y] == r.tasks[y]
    ensures GetProgress(s, x) == GetProgress(r, x)
    decreases |s.tasks| - x, 1
  {
    if s.tasks[x].kind.Finite? {
      var n := |s.tasks[x].kind.slots|;
      SumBelow(s, r, x, 1.0 / (if n == 0 then 1 else n) as real, n);
    }
  }

  lemma {:induction false} SumBelow(s: Store, r: Store, x: nat, step: real, n: nat)
    requires Wf(s) && Wf(r) && x < |s.tasks| <= |r.tasks|
    requires forall y :: x <= y < |s.tasks| ==> s.tasks[y] == r.tasks[y]
    requires s.tasks[x].kind.Finite? && n <= |s.tasks[x].kind.slots|
    ensures SumSlots(s, x, step, n) == SumSlots(r, x, step, n)
    decreases |s.tasks| - x, 0, n
  {
    assert WfTask(s, x) && WfTask(r, x);
    if n > 0 {
      SumBelow(s, r, x, step, n - 1);
      var slot := s.tasks[x].kind.slots[n - 1];
      assert WfSlot(s, x, slot);
      if slot.Sub? {
        ProgressBelow(s, r, slot.task);
      }
    }
  }

  /** Exactly the tasks on the climb that are complete have been marked. */
  ghost predicate MarksClimb(s: Store, r: Store, path: seq<nat>)
    requires Wf(r)
  {
    && |r.tasks| == |s.tasks|
    && forall x :: 0 <= x < |s.tasks| ==>
         (r.tasks[x].completed <==> s.tasks[x].completed || (x in path && IsCompleted(r, x)))
  }

  /** An update, exactly: whom it tells what, and whom it marks. */
  lemma {:induction false} UpdateTells(s: Store, id: nat)
    requires Wf(s) && id < |s.tasks|
    ensures var r := NotifyUpdate(s, id);
            && r.log == s.log + Announced(r, Climb(s, r, id))
            && MarksClimb(s, r, Climb(s, r, id))
    decreases id, 2
  {
    UpdateKeepsAnswer(s, id);
    var r := NotifyUpdate(s, id);
    if s.tasks[id].completed && IsCompleted(s, id) {
      assert r == s;
      assert Climb(s, r, id) == [];
    } else {
      if IsCompleted(s, id) {
        CompletionTells(s, id);
      } else {
        OpenTells(s, id);
      }
      TellsFirst(s, r, id, ClimbAbove(s, r, id));
      assert Climb(s, r, id) == [id] + ClimbAbove(s, r, id);
    }
  }

  lemma UpdateKeepsAnswer(s: Store, id: nat)
    requires Wf(s) && id < |s.tasks|
    ensures IsCompleted(NotifyUpdate(s, id), id) == IsCompleted(s, id)
  {
    UpdateAnnounces(s, id);
  }

  /** A task, and those above it. */
  lemma TellsFirst(s: Store, r: Store, id: nat, above: seq<nat>)
    requires Wf(r) && |r.tasks| == |s.tasks| && id < |r.tasks| && forall x :: x in above ==> x < id
    requires r.tasks[id].completed <==> s.tasks[id].completed || IsCompleted(r, id)
    requires forall x :: 0 <= x < |s.tasks| && x != id ==>
               (r.tasks[x].completed <==> s.tasks[x].completed || (x in above && IsCompleted(r, x)))
    requires r.log == s.log + [Progressed(id, GetProgress(r, id))] + (if IsCompleted(r, id) then [Completed(id)] else []) + Announced(r, above)
    ensures r.log == s.log + Announced(r, [id] + above) && MarksClimb(s, r, [id] + above)
  {
    AnnouncedFirst(r, id, above);
    var own := [Progressed(id, GetProgress(r, id))] + (if IsCompleted(r, id) then [Completed(id)] else []);
    assert s.log + (own + Announced(r, above))
        == s.log + [Progressed(id, GetProgress(r, id))] + (if IsCompleted(r, id) then [Completed(id)] else []) + Announced(r, above);
  }

  /** An update of a task that is not complete. */
  lemma {:induction false} OpenTells(s: Store, id: nat)
    requires Wf(s) && id < |s.tasks| && !IsCompleted(s, id)
    ensures var r := NotifyUpdate(s, id);
            && r.log == s.log + [Progressed(id, GetProgress(r, id))] + Announced(r, ClimbAbove(s, r, id))
            && !IsCompleted(r, id) && r.tasks[id].completed == s.tasks[id].completed
            && forall x :: 0 <= x < |s.tasks| && x != id ==>
                 (r.tasks[x].completed <==> s.tasks[x].completed || (x in ClimbAbove(s, r, id) && IsCompleted(r, x)))
    decreases id, 1
  {
    var s1 := Emit(s, Progressed(id, GetProgress(s, id)));
    SameShapeWf(s, s1);
    ProgressBelow(s, s1, id);
    CompletionBelow(s, s1, id);
    AboveTells(s, s1, id);
  }

  /** The update of the parent, after `id` has told its own. */
  lemma {:induction false} AboveTells(s: Store, s1: Store, id: nat)
    requires Wf(s) && id < |s.tasks| && SameShape(s, s1) && Wf(s1)
    requires forall x :: 0 <= x < |s.tasks| && x != id ==> s1.tasks[x] == s.tasks[x]
    ensures WfTask(s1, id)
    ensures var r := if s1.tasks[id].parent.Some? then NotifyUpdate(s1, s1.tasks[id].parent.value) else s1;
            && r.log == s1.log + Announced(r, ClimbAbove(s, r, id))
            && MarksClimb(s1, r, ClimbAbove(s, r, id))
            && IsCompleted(r, id) == IsCompleted(s1, id) && GetProgress(r, id) == GetProgress(s1, id)
            && r.tasks[id] == s1.tasks[id]
    decreases id, 0
  {
    assert WfTask(s, id) && WfTask(s1, id);
    if s.tasks[id].parent.Some? {
      var p := s.tasks[id].parent.value;
      UpdateTells(s1, p);
      UpdateAnnounces(s1, p);
      var r := NotifyUpdate(s1, p);
      ClimbSame(s, s1, r, p);
      forall y | id <= y < |s.tasks|
        ensures s1.tasks[y] == r.tasks[y]
      {
        UpdateKeepsBelow(s1, p, y);
      }
      ProgressBelow(s1, r, id);
    }
  }

  /** A task that is marked as completed while it was open, and its ancestors. */
  lemma {:induction false} CompletionTells(s: Store, id: nat)
    requires Wf(s) && id < |s.tasks| && !s.tasks[id].completed
    ensures var r := NotifyCompleted(s, id);
            && r.log == s.log + [Progressed(id, 1.0), Completed(id)] + Announced(r, ClimbAbove(s, r, id))
            && |r.tasks| == |s.tasks| && r.tasks[id].completed && GetProgress(r, id) == 1.0
            && forall x :: 0 <= x < |s.tasks| && x != id ==>
                 (r.tasks[x].completed <==> s.tasks[x].completed || (x in ClimbAbove(s, r, id) && IsCompleted(r, x)))
    decreases id, 1
  {
    var s1 := Emit(Emit(Put(s, id, s.tasks[id].(completed := true)), Progressed(id, 1.0)), Completed(id));
    SameShapeWf(s, s1);
    AboveTells(s, s1, id);
    assert s1.log == s.log + [Progressed(id, 1.0), Completed(id)];
  }

  // --------------------------------------------------------------- a restart

  /** The log has grown by the restarts of exactly these tasks: no callback. */
  ghost predicate OnlyRestarts(before: seq<Event>, after: seq<Event>, d: set<nat>) {
    && before <= after
    && (forall k :: |before| <= k < |after| ==> after[k].Restarted? && after[k].id in d)
    && (forall x :: x in d ==> Restarted(x) in after[|before|..])
  }

  lemma OnlyRestartsMore(a: seq<Event>, b: seq<Event>, c: seq<Event>, d: set<nat>, e: set<nat>)
    requires OnlyRestarts(a, b, d) && OnlyRestarts(b, c, e)
    ensures OnlyRestarts(a, c, d + e)
  {
    forall x | x in d + e
      ensures Restarted(x) in c[|a|..]
    {
      if x in d {
        var k :| |a| <= k < |b| && b[k] == Restarted(x);
        assert c[|a|..][k - |a|] == Restarted(x);
      } else {
        var k :| |b| <= k < |c| && c[k] == Restarted(x);
        assert c[|a|..][k - |a|] == Restarted(x);
      }
    }
    forall k | |a| <= k < |c|
      ensures c[k].Restarted? && c[k].id in d + e
    {
      if k < |b| {
        assert c[k] == b[k];
      }
    }
  }

  /** A restart tells nobody; it only counts as one for the tasks it reaches. */
  lemma {:induction false} RestartTellsNobody(s: Store, id: nat)
    requires Wf(s) && id < |s.tasks|
    ensures OnlyRestarts(s.log, Restart(s, id).log, Reached(s, id))
    decreases |s.tasks| - id, |s.tasks| + 1
  {
    var s1 := Emit(Put(s, id, Rewound(s.tasks[id])), Restarted(id));
    RewoundWf(s, id);
    assert s1.log[|s.log|..] == [Restarted(id)];
    if s.tasks[id].kind.Finite? {
      RestartSlotsTellNobody(s1, id, 0);
      ReachedFromSame(s, s1, id, 0);
      OnlyRestartsMore(s.log, s1.log, Restart(s, id).log, {id}, ReachedFrom(s1, id, 0));
    }
  }

  lemma {:induction false} RestartSlotsTellNobody(s: Store, id: nat, i: nat)
    requires Wf(s) && id < |s.tasks| && s.tasks[id].kind.Finite? && i <= |s.tasks[id].kind.slots|
    ensures OnlyRestarts(s.log, RestartSlots(s, id, i).log, ReachedFrom(s, id, i))
    decreases |s.tasks| - id, 0, |s.tasks[id].kind.slots| - i, 1
  {
    var slots, index := s.tasks[id].kind.slots, s.tasks[id].kind.index;
    assert WfTask(s, id);
    if i < |slots| {
      assert WfSlot(s, id, slots[i]);
      match slots[i]
      case Todo =>
        RestartSlotsTellNobody(s, id, i + 1);
      case Finished =>
        var s1 := PutSlots(s, id, slots[i := Todo], index);
        assert SameHolders(s, s1);
        RestartRestTellsNobody(s, s1, id, i);
      case Sub(c) =>
        var s1 := Restart(s, c);
        RestartTellsNobody(s, c);
        RestartRewinds(s, c);
        RewoundHolders(s, s1);
        RestartRestTellsNobody(s, s1, id, i);
        OnlyRestartsMore(s.log, s1.log, RestartSlots(s, id, i).log, Reached(s, c), ReachedFrom(s, id, i + 1));
    }
  }

  /** The rest of the loop, after one slot. */
  lemma {:induction false} RestartRestTellsNobody(s: Store, s1: Store, id: nat, i: nat)
    requires Wf(s) && Wf(s1) && id < |s.tasks| && SameHolders(s, s1)
    requires s.tasks[id].kind.Finite? && i < |s.tasks[id].kind.slots|
    ensures s1.tasks[id].kind.Finite? && |s1.tasks[id].kind.slots| == |s.tasks[id].kind.slots|
    ensures OnlyRestarts(s1.log, RestartSlots(s1, id, i + 1).log, ReachedFrom(s, id, i + 1))
    decreases |s.tasks| - id, 0, |s.tasks[id].kind.slots| - i, 0
  {
    ReachedFromSame(s, s1, id, i + 1);
    RestartSlotsTellNobody(s1, id, i + 1);
  }

  // ---------------------------------------------------------------- any call

  /** Listeners of what the call starts, and then those that its update climbs to. */
  ghost predicate StartsAndTells(s: Store, r: Store, id: nat, before: seq<Event>, after: seq<Event>)
    requires Wf(s) && Wf(r) && id < |s.tasks| <= |r.tasks|
  {
    exists n :: |before| <= n <= |after|
             && Told(before, after[..n], Woken(s, id), TellsStart())
             && after[n..] == Announced(r, Climb(s, r, id))
  }

  /** The failure, and then the update of the parent. */
  ghost predicate FailsAndTells(s: Store, r: Store, id: nat, before: seq<Event>, after: seq<Event>)
    requires Wf(s) && Wf(r) && id < |s.tasks| <= |r.tasks|
  {
    exists n :: |before| <= n <= |after|
             && Told(before, after[..n], Path(s, id), TellsFailure(id))
             && after[n..] == Announced(r, ClimbAbove(s, r, id))
  }

  /** What a call fires, by the tree `s` it finds and the tree `r` it leaves. */
  ghost predicate Fires(s: Store, op: Op, r: Store, before: seq<Event>, after: seq<Event>)
    requires Wf(s) && Wf(r) && Callable(s, op) && |s.tasks| <= |r.tasks|
  {
    var id := op.id;
    match op
    case SetMaxOf(_, _, trigger) =>
      after == before + if s.tasks[id].started && trigger then Announced(r, Climb(s, r, id)) else []
    case SetMaxValueOf(_, _, trigger) =>
      after == before + if s.tasks[id].started && trigger then Announced(r, Climb(s, r, id)) else []
    case CompleteOf(_) =>
      after == before + if s.tasks[id].completed then []
                        else [Progressed(id, 1.0), Completed(id)] + Announced(r, ClimbAbove(s, r, id))
    case FailOf(_) => FailsAndTells(s, r, id, before, after)
    case RestartOf(_, trigger) =>
      var q := Restart(s, id);
      && OnlyRestarts(before, q.log, Reached(s, id))
      && if trigger then |q.tasks| <= |r.tasks| && StartsAndTells(q, r, id, q.log, after) else after == q.log
    case _ => StartsAndTells(s, r, id, before, after)
  }

  /** Starting, a change of `id` itself that fires nothing, and its update. */
  lemma StartThenTells(s: Store, s1: Store, id: nat)
    requires Wf(s) && id < |s.tasks| && Wf(s1) && |s.tasks| <= |s1.tasks|
    requires s1.log == NotifyStarted(s, id).log
    requires forall x :: 0 <= x <= id ==> s1.tasks[x].parent == s.tasks[x].parent && s1.tasks[x].completed == s.tasks[x].completed
    ensures StartsAndTells(s, NotifyUpdate(s1, id), id, s.log, NotifyUpdate(s1, id).log)
  {
    var r := NotifyUpdate(s1, id);
    StartingTells(s, id);
    UpdateTells(s1, id);
    ClimbSame(s, s1, r, id);
    var n := |s1.log|;
    assert r.log[..n] == s1.log && r.log[n..] == Announced(r, Climb(s, r, id));
  }

  lemma FailTells(s: Store, id: nat)
    requires Wf(s) && id < |s.tasks|
    ensures FailsAndTells(s, Fail(s, id), id, s.log, Fail(s, id).log)
  {
    var s1 := Put(s, id, s.tasks[id].(completed := true));
    SameShapeWf(s, s1);
    var s2 := NotifyFailed(s1, id, id);
    PathSame(s, s1, id);
    FailureClimbs(s1, id, id);
    AboveTells(s, s2, id);
    var r := Fail(s, id);
    assert WfTask(s, id);
    var n := |s2.log|;
    assert r.log[..n] == s2.log && r.log[n..] == Announced(r, ClimbAbove(s, r, id));
  }

  lemma ResizedTells(s: Store, s1: Store, id: nat)
    requires Wf(s) && id < |s.tasks| && Wf(s1) && |s.tasks| == |s1.tasks| && s1.log == s.log
    requires forall x :: 0 <= x <= id ==> s1.tasks[x].parent == s.tasks[x].parent && s1.tasks[x].completed == s.tasks[x].completed
    ensures var r := NotifyUpdate(s1, id); r.log == s.log + Announced(r, Climb(s, r, id))
  {
    UpdateTells(s1, id);
    ClimbSame(s, s1, NotifyUpdate(s1, id), id);
  }

  lemma StartKeepsFlags(s: Store, id: nat)
    requires Wf(s) && id < |s.tasks|
    ensures forall x :: 0 <= x < |s.tasks| ==> NotifyStarted(s, id).tasks[x].completed == s.tasks[x].completed
  {
    StartingWakes(s, id);
  }

  lemma BeginTells(s: Store, id: nat, kind: Kind)
    requires Wf(s) && id < |s.tasks| && s.tasks[id].kind.Finite?
    requires kind == Finite([], 0) || kind == Variable(0, 0)
    ensures StartsAndTells(s, Begin(s, id, kind), id, s.log, Begin(s, id, kind).log)
  {
    StartKeepsFlags(s, id);
    var s1 := AddTask(NotifyStarted(s, id), id, kind);
    StartThenTells(s, FillSlot(s1, id, Sub(|s.tasks|)), id);
  }

  lemma RestartTells(s: Store, id: nat, trigger: bool)
    requires Wf(s) && id < |s.tasks|
    ensures Fires(s, RestartOf(id, trigger), RestartAndNotify(s, id, trigger), s.log, RestartAndNotify(s, id, trigger).log)
  {
    RestartTellsNobody(s, id);
    if trigger {
      var q := Restart(s, id);
      StartKeepsFlags(q, id);
      StartThenTells(q, NotifyStarted(q, id), id);
    }
  }

  /** The calls that start their task. */
  lemma StartingCallTells(s: Store, op: Op)
    requires Wf(s) && Callable(s, op)
    requires op.DoneOf? || op.UpdateOf? || op.DoingOf? || op.BeginFinite? || op.BeginVariable?
    ensures |s.tasks| <= |Apply(s, op).tasks|
    ensures StartsAndTells(s, Apply(s, op), op.id, s.log, Apply(s, op).log)
  {
    var id := op.id;
    StartKeepsFlags(s, id);
    match op
    case DoneOf(_) => StartThenTells(s, FillSlot(NotifyStarted(s, id), id, Finished), id);
    case UpdateOf(_, value) => StartThenTells(s, SetVariable(NotifyStarted(s, id), id, value, s.tasks[id].kind.max), id);
    case DoingOf(_) => StartThenTells(s, NotifyStarted(s, id), id);
    case BeginFinite(_) => BeginTells(s, id, Finite([], 0));
    case BeginVariable(_) => BeginTells(s, id, Variable(0, 0));
  }

  lemma SetMaxTells(s: Store, op: Op)
    requires Wf(s) && Callable(s, op) && (op.SetMaxOf? || op.SetMaxValueOf?)
    ensures |s.tasks| <= |Apply(s, op).tasks|
    ensures Fires(s, op, Apply(s, op), s.log, Apply(s, op).log)
  {
    var id := op.id;
    if s.tasks[id].started && op.trigger {
      match op
      case SetMaxOf(_, n, _) => ResizedTells(s, SetMaxSlots(s, id, n), id);
      case SetMaxValueOf(_, max, _) => ResizedTells(s, SetVariable(s, id, s.tasks[id].kind.current, max), id);
    }
  }

  /** Every call fires exactly this. */
  lemma CallTells(s: Store, op: Op)
    requires Wf(s) && Callable(s, op)
    ensures |s.tasks| <= |Apply(s, op).tasks|
    ensures Fires(s, op, Apply(s, op), s.log, Apply(s, op).log)
  {
    match op
    case SetMaxOf(_, _, _) => SetMaxTells(s, op);
    case SetMaxValueOf(_, _, _) => SetMaxTells(s, op);
    case CompleteOf(id) =>
      if !s.tasks[id].completed {
        CompletionTells(s, id);
      }
    case FailOf(id) => FailTells(s, id);
    case RestartOf(id, trigger) => RestartTells(s, id, trigger);
    case _ => StartingCallTells(s, op);
  }

  /** Nothing that has been fired is taken back. */
  lemma LogGrows(s: Store, op: Op)
    requires Wf(s)
    ensures s.log <= Apply(s, op).log
  {
    if Callable(s, op) {
      CallTells(s, op);
    }
  }
}
