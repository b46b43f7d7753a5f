/** What the notifications of a task do to the tree and to the log: which flags
    change, and which callbacks are fired. */
module ProgressEffects {
  import opened FsmGraph
  import opened Progress

  /** The task and its ancestors. */
  ghost function Path(s: Store, id: nat): (r: set<nat>)
    requires Wf(s) && id < |s.tasks|
    ensures id in r && forall x :: x in r ==> x <= id
    decreases id
  {
    assert WfTask(s, id);
    {id} + if s.tasks[id].parent.None? then {} else Path(s, s.tasks[id].parent.value)
  }

  lemma {:induction false} PathClimbs(s: Store, id: nat, x: nat)
    requires Wf(s) && id < |s.tasks| && x in Path(s, id) && s.tasks[x].parent.Some?
    ensures s.tasks[x].parent.value in Path(s, id)
    decreases id
  {
    assert WfTask(s, id);
    if x != id {
      PathClimbs(s, s.tasks[id].parent.value, x);
    } else {
      assert s.tasks[id].parent.value in Path(s, s.tasks[id].parent.value);
    }
  }

  // --------------------------------------------------------------- starting

  /** What starting a task starts: the task and its ancestors, up to the first
      that has already started. */
  ghost function Woken(s: Store, id: nat): (r: set<nat>)
    requires Wf(s) && id < |s.tasks|
    ensures r <= Path(s, id) && forall x :: x in r ==> x <= id && !s.tasks[x].started
    ensures s.tasks[id].started || id in r
    decreases id
  {
    assert WfTask(s, id);
    if s.tasks[id].started then {}
    else {id} + if s.tasks[id].parent.None? then {} else Woken(s, s.tasks[id].parent.value)
  }

  /** Which tasks are woken depends only on who has started and on the parents. */
  lemma {:induction false} WokenSame(s: Store, r: Store, id: nat)
    requires Wf(s) && Wf(r) && id < |s.tasks| && id < |r.tasks|
    requires forall x :: 0 <= x <= id ==> s.tasks[x].parent == r.tasks[x].parent && s.tasks[x].started == r.tasks[x].started
    ensures Woken(s, id) == Woken(r, id)
    decreases id
  {
    assert WfTask(s, id);
    if !s.tasks[id].started && s.tasks[id].parent.Some? {
      WokenSame(s, r, s.tasks[id].parent.value);
    }
  }

  /** Starting a task starts exactly the tasks it wakes, and changes nothing else
      in the tree. */
  lemma {:induction false} StartingWakes(s: Store, id: nat)
    requires Wf(s) && id < |s.tasks|
    ensures forall x :: 0 <= x < |s.tasks| ==>
              NotifyStarted(s, id).tasks[x] == if x in Woken(s, id) then s.tasks[x].(started := true) else s.tasks[x]
    decreases id
  {
    var t := s.tasks[id];
    assert WfTask(s, id);
    if !t.started {
      var s1 := Emit(Put(s, id, t.(started := true)), Started(id));
      SameShapeWf(s, s1);
      if t.parent.Some? {
        WokenSame(s, s1, t.parent.value);
        StartingWakes(s1, t.parent.value);
      }
    }
  }

  ghost predicate IsTold(e: Event, tasks: set<nat>, told: nat -> Event) {
    exists x :: x in tasks && e == told(x)
  }

  /** The log has grown by one event for each of the tasks, those above after those
      below. */
  ghost predicate Told(before: seq<Event>, after: seq<Event>, tasks: set<nat>, told: nat -> Event) {
    && before <= after
    && (forall k :: |before| <= k < |after| ==> IsTold(after[k], tasks, told))
    && (forall x :: x in tasks ==> told(x) in after[|before|..])
    && Upwards(after[|before|..])
  }

  /** From tasks to their ancestors, which were created before them. */
  ghost predicate Upwards(events: seq<Event>) {
    forall i, j :: 0 <= i < j < |events| ==> events[i].id > events[j].id
  }

  /** One event more, in front of others. */
  lemma ToldFirst(before: seq<Event>, after: seq<Event>, tasks: set<nat>, told: nat -> Event, id: nat)
    requires Told(before + [told(id)], after, tasks, told)
    requires forall x :: x in tasks ==> told(x).id < told(id).id
    ensures Told(before, after, {id} + tasks, told)
  {
    var first := before + [told(id)];
    assert after[|before|] == first[|before|] == told(id);
    assert after[|before|..] == [told(id)] + after[|first|..];
    forall k | |before| <= k < |after|
      ensures IsTold(after[k], {id} + tasks, told)
    {
      if k == |before| {
        assert id in {id} + tasks;
      } else {
        assert IsTold(after[k], tasks, told);
        var x :| x in tasks && after[k] == told(x);
        assert x in {id} + tasks;
      }
    }
    ToldBelow(first, after, tasks, told, told(id).id);
    UpwardsFirst(told(id), after[|first|..]);
  }

  lemma ToldBelow(before: seq<Event>, after: seq<Event>, tasks: set<nat>, told: nat -> Event, bound: nat)
    requires Told(before, after, tasks, told) && forall x :: x in tasks ==> told(x).id < bound
    ensures forall e :: e in after[|before|..] ==> e.id < bound
  {
    forall e | e in after[|before|..]
      ensures e.id < bound
    {
      var k :| |before| <= k < |after| && after[k] == e;
      var x :| x in tasks && after[k] == told(x);
    }
  }

  lemma UpwardsFirst(e: Event, rest: seq<Event>)
    requires Upwards(rest) && forall f :: f in rest ==> f.id < e.id
    ensures Upwards([e] + rest)
  {
  }

  lemma ToldNothing(log: seq<Event>, told: nat -> Event)
    ensures Told(log, log, {}, told)
  {
  }

  function TellsStart(): nat -> Event {
    (x: nat) => Started(x)
  }

  /** It tells exactly the listeners of the tasks that it starts. */
  lemma {:induction false} StartingTells(s: Store, id: nat)
    requires Wf(s) && id < |s.tasks|
    ensures Told(s.log, NotifyStarted(s, id).log, Woken(s, id), TellsStart())
    decreases id
  {
    var t := s.tasks[id];
    var told := TellsStart();
    assert WfTask(s, id);
    if t.started {
      ToldNothing(s.log, told);
    } else {
      var s1 := Emit(Put(s, id, t.(started := true)), Started(id));
      SameShapeWf(s, s1);
      if t.parent.Some? {
        WokenSame(s, s1, t.parent.value);
        StartingTells(s1, t.parent.value);
        ToldFirst(s.log, NotifyStarted(s, id).log, Woken(s, t.parent.value), told, id);
      } else {
        ToldNothing(s1.log, told);
        ToldFirst(s.log, s1.log, {}, told, id);
      }
    }
  }

  // --------------------------------------------------- completion is stable

  /** A task that is complete does not depend on the tasks before it. */
  lemma {:induction false} CompletionBelow(s: Store, r: Store, x: nat)
    requires Wf(s) && Wf(r) && x < |s.tasks| <= |r.tasks|
    requires forall y :: x <= y < |s.tasks| ==> s.tasks[y] == r.tasks[y]
    ensures IsCompleted(s, x) == IsCompleted(r, x)
    decreases |s.tasks| - x
  {
    assert WfTask(s, x) && WfTask(r, x);
    if s.tasks[x].kind.Finite? {
      var slots := s.tasks[x].kind.slots;
      forall k | 0 <= k < |slots|
        ensures SlotComplete(s, x, slots[k]) == SlotComplete(r, x, slots[k])
      {
        assert WfSlot(s, x, slots[k]);
        if slots[k].Sub? {
          CompletionBelow(s, r, slots[k].task);
        }
      }
    }
  }

  /** Marking a task that is complete as completed changes no answer. */
  lemma {:induction false} MarkingKeepsAnswers(s: Store, r: Store, id: nat, x: nat)
    requires Wf(s) && Wf(r) && id < |s.tasks| && x < |s.tasks|
    requires IsCompleted(s, id) && r.tasks == s.tasks[id := s.tasks[id].(completed := true)]
    ensures IsCompleted(s, x) == IsCompleted(r, x)
    decreases |s.tasks| - x
  {
    assert WfTask(s, x) && WfTask(r, x);
    if s.tasks[x].kind.Finite? {
      var slots := s.tasks[x].kind.slots;
      forall k | 0 <= k < |slots|
        ensures SlotComplete(s, x, slots[k]) == SlotComplete(r, x, slots[k])
      {
        assert WfSlot(s, x, slots[k]);
        if slots[k].Sub? {
          MarkingKeepsAnswers(s, r, id, slots[k].task);
        }
      }
    }
  }

  lemma SameTasksSameAnswers(s: Store, r: Store)
    requires Wf(s) && Wf(r) && r.tasks == s.tasks
    ensures forall x :: 0 <= x < |s.tasks| ==> IsCompleted(s, x) == IsCompleted(r, x)
  {
    forall x | 0 <= x < |s.tasks|
      ensures IsCompleted(s, x) == IsCompleted(r, x)
    {
      CompletionBelow(s, r, x);
    }
  }

  // --------------------------------------------------------------- updating

  /** `x` was open in `s` and is marked as completed in `r`. */
  ghost predicate Marked(s: Store, r: Store, x: nat) {
    x < |s.tasks| && x < |r.tasks| && !s.tasks[x].completed && r.tasks[x].completed
  }

  /** `r` is `s` with some tasks of `path` marked as completed, each of which was
      complete, and with exactly their completions and some progress in the log. */
  ghost predicate Announces(s: Store, r: Store, path: set<nat>)
    requires Wf(s)
  {
    && |r.tasks| == |s.tasks|
    && (forall x :: 0 <= x < |s.tasks| ==>
          && r.tasks[x] == s.tasks[x].(completed := r.tasks[x].completed)
          && (s.tasks[x].completed ==> r.tasks[x].completed))
    && (forall x :: 0 <= x < |s.tasks| && Marked(s, r, x) ==> x in path && IsCompleted(s, x))
    && s.log <= r.log
    && (forall k :: |s.log| <= k < |r.log| ==>
          r.log[k].Progressed? || (r.log[k].Completed? && Marked(s, r, r.log[k].id)))
    && (forall x :: 0 <= x < |s.tasks| && Marked(s, r, x) ==> Completed(x) in r.log[|s.log|..])
  }

  /** An update of a task marks nothing but tasks that are complete, on the way
      up from it, tells the listeners of exactly those, and changes no answer of
      any task; and the task itself is marked if it is complete. */
  lemma {:induction false} UpdateAnnounces(s: Store, id: nat)
    requires Wf(s) && id < |s.tasks|
    ensures var r := NotifyUpdate(s, id);
            && Announces(s, r, Path(s, id))
            && (IsCompleted(s, id) ==> r.tasks[id].completed)
            && forall x :: 0 <= x < |s.tasks| ==> IsCompleted(r, x) == IsCompleted(s, x)
    decreases id, 1
  {
    assert WfTask(s, id);
    if IsCompleted(s, id) {
      CompletionAnnounces(s, id);
    } else {
      var s1 := Emit(s, Progressed(id, GetProgress(s, id)));
      SameShapeWf(s, s1);
      SameTasksSameAnswers(s, s1);
      if s.tasks[id].parent.Some? {
        var p := s.tasks[id].parent.value;
        PathSame(s, s1, p);
        UpdateAnnounces(s1, p);
        AnnouncesMore(s, s1, NotifyUpdate(s1, p), Path(s, p), Path(s, id));
      }
    }
  }

  lemma {:induction false} CompletionAnnounces(s: Store, id: nat)
    requires Wf(s) && id < |s.tasks| && IsCompleted(s, id)
    ensures var r := NotifyCompleted(s, id);
            && Announces(s, r, Path(s, id))
            && r.tasks[id].completed
            && forall x :: 0 <= x < |s.tasks| ==> IsCompleted(r, x) == IsCompleted(s, x)
    decreases id, 0
  {
    var t := s.tasks[id];
    assert WfTask(s, id);
    if !t.completed {
      var s1 := Emit(Emit(Put(s, id, t.(completed := true)), Progressed(id, 1.0)), Completed(id));
      SameShapeWf(s, s1);
      forall x | 0 <= x < |s.tasks|
        ensures IsCompleted(s, x) == IsCompleted(s1, x)
      {
        MarkingKeepsAnswers(s, s1, id, x);
      }
      MarkedOne(s, s1, id);
      if t.parent.Some? {
        var p := t.parent.value;
        PathSame(s, s1, p);
        UpdateAnnounces(s1, p);
        AnnouncesMore(s, s1, NotifyUpdate(s1, p), Path(s, p), Path(s, id));
      }
    }
  }

  lemma {:induction false} PathSame(s: Store, r: Store, id: nat)
    requires Wf(s) && Wf(r) && id < |s.tasks| && id < |r.tasks|
    requires forall x :: 0 <= x <= id ==> s.tasks[x].parent == r.tasks[x].parent
    ensures Path(s, id) == Path(r, id)
    decreases id
  {
    assert WfTask(s, id);
    if s.tasks[id].parent.Some? {
      PathSame(s, r, s.tasks[id].parent.value);
    }
  }

  lemma MarkedOne(s: Store, r: Store, id: nat)
    requires Wf(s) && id < |s.tasks| && !s.tasks[id].completed && IsCompleted(s, id)
    requires r.tasks == s.tasks[id := s.tasks[id].(completed := true)]
    requires r.log == s.log + [Progressed(id, 1.0)] + [Completed(id)]
    ensures Announces(s, r, Path(s, id))
  {
    assert r.log[|s.log|..][1] == Completed(id);
  }

  /** One announcement after another. */
  lemma AnnouncesMore(s: Store, q: Store, r: Store, above: set<nat>, path: set<nat>)
    requires Wf(s) && Wf(q) && Announces(s, q, path) && Announces(q, r, above) && above <= path
    requires forall x :: 0 <= x < |s.tasks| ==> IsCompleted(q, x) == IsCompleted(s, x)
    ensures Announces(s, r, path)
  {
    forall x | 0 <= x < |s.tasks| && Marked(s, r, x)
      ensures Completed(x) in r.log[|s.log|..]
    {
      if Marked(s, q, x) {
        var k :| |s.log| <= k < |q.log| && q.log[k] == Completed(x);
        assert r.log[|s.log|..][k - |s.log|] == Completed(x);
      } else {
        assert Marked(q, r, x);
        var k :| |q.log| <= k < |r.log| && r.log[k] == Completed(x);
        assert r.log[|s.log|..][k - |s.log|] == Completed(x);
      }
    }
    forall k | |s.log| <= k < |r.log|
      ensures r.log[k].Progressed? || (r.log[k].Completed? && Marked(s, r, r.log[k].id))
    {
      if k < |q.log| {
        assert r.log[k] == q.log[k];
      }
    }
  }

  // ---------------------------------------------------------------- failing

  function TellsFailure(origin: nat): nat -> Event {
    (x: nat) => Failed(x, origin)
  }

  /** A failure is told to the listeners of the task and of all its ancestors,
      and to no others. */
  lemma {:induction false} FailureClimbs(s: Store, id: nat, origin: nat)
    requires Wf(s) && id < |s.tasks|
    ensures Told(s.log, NotifyFailed(s, id, origin).log, Path(s, id), TellsFailure(origin))
    decreases id
  {
    var s1 := Emit(s, Failed(id, origin));
    var told := TellsFailure(origin);
    SameShapeWf(s, s1);
    assert WfTask(s, id);
    if s.tasks[id].parent.Some? {
      var p := s.tasks[id].parent.value;
      PathSame(s, s1, p);
      FailureClimbs(s1, p, origin);
      ToldFirst(s.log, NotifyFailed(s, id, origin).log, Path(s, p), told, id);
    } else {
      ToldNothing(s1.log, told);
      ToldFirst(s.log, s1.log, {}, told, id);
    }
  }

  /** Failing a task marks it, and tells of the failure all its ancestors and
      nobody else. */
  lemma FailingMarks(s: Store, id: nat)
    requires Wf(s) && id < |s.tasks|
    ensures var r := Fail(s, id);
            && |r.tasks| == |s.tasks| && r.tasks[id].completed
            && s.log <= r.log
            && forall x: nat, origin: nat :: Failed(x, origin) in r.log[|s.log|..] <==> origin == id && x in Path(s, id)
  {
    var s1 := Put(s, id, s.tasks[id].(completed := true));
    SameShapeWf(s, s1);
    PathSame(s, s1, id);
    FailureClimbs(s1, id, id);
    FailingEnds(NotifyFailed(s1, id, id), id);
    forall x: nat, origin: nat
      ensures Failed(x, origin) in Fail(s, id).log[|s.log|..] <==> origin == id && x in Path(s, id)
    {
      FailuresOnly(s.log, NotifyFailed(s1, id, id).log, Fail(s, id).log, Path(s, id), id, x, origin);
    }
  }

  /** The update of the parent, which follows a failure. */
  lemma FailingEnds(s: Store, id: nat)
    requires Wf(s) && id < |s.tasks| && s.tasks[id].completed
    ensures WfTask(s, id)
    ensures var r := if s.tasks[id].parent.Some? then NotifyUpdate(s, s.tasks[id].parent.value) else s;
            && |r.tasks| == |s.tasks| && r.tasks[id].completed && s.log <= r.log
            && forall k :: |s.log| <= k < |r.log| ==> !r.log[k].Failed?
  {
    assert WfTask(s, id);
    if s.tasks[id].parent.Some? {
      UpdateAnnounces(s, s.tasks[id].parent.value);
    }
  }

  /** A log that has grown by failures and then by other events. */
  lemma FailuresOnly(a: seq<Event>, b: seq<Event>, c: seq<Event>, tasks: set<nat>, id: nat, x: nat, origin: nat)
    requires Told(a, b, tasks, TellsFailure(id)) && b <= c
    requires forall k :: |b| <= k < |c| ==> !c[k].Failed?
    ensures Failed(x, origin) in c[|a|..] <==> origin == id && x in tasks
  {
    if origin == id && x in tasks {
      var k :| |a| <= k < |b| && b[k] == TellsFailure(id)(x);
      assert c[|a|..][k - |a|] == c[k] == b[k];
    }
    if Failed(x, origin) in c[|a|..] {
      var k :| |a| <= k < |c| && c[k] == Failed(x, origin);
      assert c[k] == b[k];
      var y :| y in tasks && b[k] == TellsFailure(id)(y);
    }
  }
}
