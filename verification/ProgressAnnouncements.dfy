/** Whether every completion is announced: when a task's answer, its flag and
    what its listeners have been told agree, and exactly which calls keep it so. */
module ProgressAnnouncements {
  import opened FsmGraph
  import opened Progress
  import opened ProgressCoherence
  import opened ProgressEffects
  import opened ProgressRuns

  /** Every task answers that it is completed exactly when its flag says so. */
  ghost predicate Coherent(s: Store) {
    Wf(s) && forall id :: 0 <= id < |s.tasks| ==> (IsCompleted(s, id) <==> s.tasks[id].completed)
  }

  /** The task is not complete without being marked. */
  ghost predicate Flagged(s: Store, id: nat)
    requires Wf(s) && id < |s.tasks|
  {
    IsCompleted(s, id) ==> s.tasks[id].completed
  }

  ghost predicate FlaggedOutside(s: Store, d: set<nat>)
    requires Wf(s)
  {
    forall x :: 0 <= x < |s.tasks| && x !in d ==> Flagged(s, x)
  }

  /** A task that is marked answers so, unless it is a variable task that has not
      started. */
  lemma MarkedIsComplete(s: Store, id: nat)
    requires Wf(s) && id < |s.tasks| && VariablesStartFirst(s) && s.tasks[id].completed
    ensures IsCompleted(s, id)
  {
  }

  lemma CoherentParts(s: Store)
    requires Wf(s)
    ensures Coherent(s) <==> VariablesStartFirst(s) && FlaggedOutside(s, {})
  {
    if VariablesStartFirst(s) && FlaggedOutside(s, {}) {
      forall id | 0 <= id < |s.tasks|
        ensures IsCompleted(s, id) <==> s.tasks[id].completed
      {
        assert Flagged(s, id);
        if s.tasks[id].completed {
          MarkedIsComplete(s, id);
        }
      }
    }
  }

  /** What a change of `id` may affect before the notification has climbed: the
      task and its ancestors up to the first that is already closed, where the
      notification stops. */
  ghost function Suspects(s: Store, id: nat): (r: set<nat>)
    requires Wf(s) && id < |s.tasks|
    ensures id in r
    ensures forall x :: x in r ==> x <= id
    decreases id
  {
    assert WfTask(s, id);
    if s.tasks[id].completed || s.tasks[id].parent.None? then {id}
    else {id} + Suspects(s, s.tasks[id].parent.value)
  }

  ghost function SuspectsAbove(s: Store, id: nat): (r: set<nat>)
    requires Wf(s) && id < |s.tasks|
    ensures forall x :: x in r ==> x < id
  {
    assert WfTask(s, id);
    if s.tasks[id].parent.None? then {} else Suspects(s, s.tasks[id].parent.value)
  }

  lemma {:induction false} SuspectsClimb(s: Store, id: nat, c: nat)
    requires Wf(s) && id < |s.tasks| && c in Suspects(s, id) && c < |s.tasks|
    requires !s.tasks[c].completed && s.tasks[c].parent.Some?
    ensures s.tasks[c].parent.value in Suspects(s, id)
    decreases id
  {
    assert WfTask(s, id);
    if c != id {
      SuspectsClimb(s, s.tasks[id].parent.value, c);
    }
  }

  /** Suspects depend only on the flags and the parents. */
  lemma {:induction false} SuspectsSame(s: Store, r: Store, id: nat)
    requires Wf(s) && Wf(r) && id < |s.tasks| && id < |r.tasks|
    requires forall x :: 0 <= x <= id ==> s.tasks[x].parent == r.tasks[x].parent && s.tasks[x].completed == r.tasks[x].completed
    ensures Suspects(s, id) == Suspects(r, id)
    decreases id
  {
    assert WfTask(s, id);
    if !s.tasks[id].completed && s.tasks[id].parent.Some? {
      SuspectsSame(s, r, s.tasks[id].parent.value);
    }
  }

  lemma {:induction false} SuspectsOnPath(s: Store, id: nat)
    requires Wf(s) && id < |s.tasks|
    ensures Suspects(s, id) <= Path(s, id)
    decreases id
  {
    assert WfTask(s, id);
    if !s.tasks[id].completed && s.tasks[id].parent.Some? {
      SuspectsOnPath(s, s.tasks[id].parent.value);
    }
  }

  /** A task outside `d` completes as before if `d` only touches it through
      tasks that complete as before. */
  lemma {:induction false} CompletionFrame(s: Store, r: Store, d: set<nat>, x: nat)
    requires Wf(s) && Wf(r) && |s.tasks| <= |r.tasks| && x < |s.tasks| && x !in d
    requires forall y :: 0 <= y < |s.tasks| && y !in d ==> s.tasks[y] == r.tasks[y]
    requires forall c :: c in d && c < |s.tasks| && s.tasks[c].parent.Some? && s.tasks[c].parent.value !in d
               ==> IsCompleted(s, c) == IsCompleted(r, c)
    ensures IsCompleted(s, x) == IsCompleted(r, x)
    decreases |s.tasks| - x
  {
    assert WfTask(s, x) && WfTask(r, x);
    if s.tasks[x].kind.Finite? {
      var slots := s.tasks[x].kind.slots;
      forall k | 0 <= k < |slots|
        ensures SlotComplete(s, x, slots[k]) == SlotComplete(r, x, slots[k])
      {
        assert WfSlot(s, x, slots[k]) && WfSlot(r, x, slots[k]);
        if slots[k].Sub? && slots[k].task !in d {
          CompletionFrame(s, r, d, slots[k].task);
        }
      }
    }
  }

  // ------------------------------------------------------ what an update does

  /** An update reaches every suspect: it is marked if it is complete, and no
      other task is touched. */
  lemma {:induction false} UpdateReachesSuspects(s: Store, id: nat)
    requires Wf(s) && id < |s.tasks| && VariablesStartFirst(s)
    ensures var r := NotifyUpdate(s, id);
            && (forall x :: x in Suspects(s, id) && IsCompleted(s, x) ==> r.tasks[x].completed)
            && (forall x :: 0 <= x < |s.tasks| && x !in Suspects(s, id) ==> r.tasks[x] == s.tasks[x])
    decreases id, 1
  {
    assert WfTask(s, id);
    UpdateAnnounces(s, id);
    if IsCompleted(s, id) {
      CompletionReachesSuspects(s, id);
    } else {
      var s1 := Emit(s, Progressed(id, GetProgress(s, id)));
      SameShapeWf(s, s1);
      SameTasksSameAnswers(s, s1);
      if s.tasks[id].completed {
        MarkedIsComplete(s, id);
      }
      if s.tasks[id].parent.Some? {
        SuspectsSame(s, s1, s.tasks[id].parent.value);
        UpdateReachesSuspects(s1, s.tasks[id].parent.value);
      }
    }
  }

  lemma {:induction false} CompletionReachesSuspects(s: Store, id: nat)
    requires Wf(s) && id < |s.tasks| && VariablesStartFirst(s) && IsCompleted(s, id)
    ensures var r := NotifyCompleted(s, id);
            && (forall x :: x in Suspects(s, id) && IsCompleted(s, x) ==> r.tasks[x].completed)
            && (forall x :: 0 <= x < |s.tasks| && x !in Suspects(s, id) ==> r.tasks[x] == s.tasks[x])
    decreases id, 0
  {
    var t := s.tasks[id];
    assert WfTask(s, id);
    CompletionAnnounces(s, id);
    if !t.completed {
      var s1 := Emit(Emit(Put(s, id, t.(completed := true)), Progressed(id, 1.0)), Completed(id));
      SameShapeWf(s, s1);
      if t.parent.Some? {
        forall x | 0 <= x < |s.tasks|
          ensures IsCompleted(s, x) == IsCompleted(s1, x)
        {
          MarkingKeepsAnswers(s, s1, id, x);
        }
        SuspectsSame(s, s1, t.parent.value);
        UpdateReachesSuspects(s1, t.parent.value);
      }
    }
  }

  /** After an update everything is coherent exactly when everything but the
      suspects was. */
  lemma UpdateAnnouncesIff(s: Store, id: nat)
    requires Wf(s) && id < |s.tasks| && VariablesStartFirst(s)
    ensures Coherent(NotifyUpdate(s, id)) <==> FlaggedOutside(s, Suspects(s, id))
  {
    var r := NotifyUpdate(s, id);
    UpdateReachesSuspects(s, id);
    UpdateAnnounces(s, id);
    StartsKept(s, r, Path(s, id));
    CoherentParts(r);
    forall x | 0 <= x < |s.tasks| && x in Suspects(s, id)
      ensures Flagged(r, x)
    {
      assert IsCompleted(r, x) == IsCompleted(s, x);
    }
    forall x | 0 <= x < |s.tasks| && x !in Suspects(s, id)
      ensures Flagged(r, x) <==> Flagged(s, x)
    {
      assert IsCompleted(r, x) == IsCompleted(s, x);
    }
    if FlaggedOutside(s, Suspects(s, id)) {
      assert forall x :: 0 <= x < |r.tasks| ==> Flagged(r, x);
    }
    if FlaggedOutside(r, {}) {
      assert forall x :: 0 <= x < |s.tasks| && x !in Suspects(s, id) ==> Flagged(r, x);
    }
  }

  /** Only tasks that are complete get marked, so no variable task that has not
      started. */
  lemma StartsKept(s: Store, r: Store, path: set<nat>)
    requires Wf(s) && Announces(s, r, path) && VariablesStartFirst(s)
    ensures VariablesStartFirst(r)
  {
    forall id | 0 <= id < |r.tasks| && r.tasks[id].kind.Variable? && r.tasks[id].completed
      ensures r.tasks[id].started
    {
      if !s.tasks[id].completed {
        assert Marked(s, r, id);
      }
    }
  }

  // ------------------------------------------ a change, and then an update

  /** All slots are done, as far as the flags of the sub-tasks say. */
  ghost predicate AllDone(s: Store, slots: seq<Slot>) {
    forall k :: 0 <= k < |slots| ==> SlotDone(s, slots[k])
  }

  ghost predicate SlotDone(s: Store, slot: Slot) {
    slot == Finished || (slot.Sub? && slot.task < |s.tasks| && s.tasks[slot.task].completed)
  }

  /** None of the woken tasks that the update will not reach is open with all its
      slots done. */
  ghost predicate WakesQuietly(s: Store, woken: set<nat>, suspects: set<nat>) {
    forall x :: x in woken && x !in suspects && x < |s.tasks| && s.tasks[x].kind.Finite? ==>
      s.tasks[x].completed || !AllDone(s, s.tasks[x].kind.slots)
  }

  ghost predicate StartsQuietly(s: Store, id: nat)
    requires Wf(s) && id < |s.tasks|
  {
    WakesQuietly(s, Woken(s, id), Suspects(s, id))
  }

  /** `r` is `s` with `id` started and changed, and perhaps with new tasks. */
  ghost predicate Touched(s: Store, r: Store, id: nat)
    requires Wf(s) && id < |s.tasks|
  {
    && |s.tasks| <= |r.tasks|
    && (forall x :: 0 <= x < |s.tasks| && x != id ==>
          r.tasks[x] == if x in Woken(s, id) then s.tasks[x].(started := true) else s.tasks[x])
    && r.tasks[id].parent == s.tasks[id].parent
    && r.tasks[id].completed == s.tasks[id].completed
    && r.tasks[id].kind.Finite? == s.tasks[id].kind.Finite?
    && (forall x :: |s.tasks| <= x < |r.tasks| ==> !r.tasks[x].started && !r.tasks[x].completed)
  }

  /** Tasks off the path answer as before. */
  lemma OffPathSame(s: Store, r: Store, id: nat, x: nat)
    requires Wf(s) && Wf(r) && id < |s.tasks| && Touched(s, r, id) && x < |s.tasks| && x !in Path(s, id)
    ensures IsCompleted(s, x) == IsCompleted(r, x)
  {
    var d := Path(s, id);
    forall c | c in d && c < |s.tasks| && s.tasks[c].parent.Some?
      ensures s.tasks[c].parent.value in d
    {
      PathClimbs(s, id, c);
    }
    CompletionFrame(s, r, d, x);
  }

  /** A slot that is not done keeps the task above it incomplete. */
  lemma {:induction false} AboveStaysOpen(s: Store, r: Store, id: nat, x: nat)
    requires Wf(s) && Wf(r) && id < |s.tasks| && Touched(s, r, id) && VariablesStartFirst(s)
    requires FlaggedOutside(s, {id}) && StartsQuietly(s, id)
    requires x in Path(s, id) && x !in Suspects(s, id) && !s.tasks[x].completed
    ensures !IsCompleted(r, x)
    decreases |s.tasks| - x
  {
    assert WfTask(s, x) && WfTask(r, x);
    assert x != id;
    OnPathFinite(s, id, x);
    var slots := s.tasks[x].kind.slots;
    assert r.tasks[x].kind == s.tasks[x].kind;
    if r.tasks[x].started {
      var k := OpenSlot(s, id, x);
      assert WfSlot(s, x, slots[k]) && WfSlot(r, x, slots[k]);
      if slots[k].Sub? {
        var y := slots[k].task;
        if y in Path(s, id) {
          if y in Suspects(s, id) {
            SuspectsClimb(s, id, y);
          }
          AboveStaysOpen(s, r, id, y);
        } else {
          OffPathSame(s, r, id, y);
          assert Flagged(s, y);
        }
      }
      assert !SlotComplete(r, x, slots[k]);
    }
  }

  lemma {:induction false} OnPathFinite(s: Store, id: nat, x: nat)
    requires Wf(s) && id < |s.tasks| && x in Path(s, id) && x != id
    ensures s.tasks[x].kind.Finite?
    decreases id
  {
    assert WfTask(s, id);
    if x != s.tasks[id].parent.value {
      OnPathFinite(s, s.tasks[id].parent.value, x);
    }
  }

  /** An open task above the suspects, started or woken quietly, has a slot that
      is not done. */
  lemma OpenSlot(s: Store, id: nat, x: nat) returns (k: nat)
    requires Wf(s) && id < |s.tasks| && VariablesStartFirst(s) && FlaggedOutside(s, {id}) && StartsQuietly(s, id)
    requires x in Path(s, id) && x !in Suspects(s, id) && !s.tasks[x].completed && s.tasks[x].kind.Finite?
    requires s.tasks[x].started || x in Woken(s, id)
    ensures k < |s.tasks[x].kind.slots| && !SlotDone(s, s.tasks[x].kind.slots[k])
  {
    var slots := s.tasks[x].kind.slots;
    assert WfTask(s, x);
    if s.tasks[x].started {
      assert x !in {id} && Flagged(s, x) && !IsCompleted(s, x);
      k :| 0 <= k < |slots| && !SlotComplete(s, x, slots[k]);
      assert WfSlot(s, x, slots[k]);
      if SlotDone(s, slots[k]) {
        MarkedIsComplete(s, slots[k].task);
      }
    } else {
      assert !AllDone(s, slots);
      k :| 0 <= k < |slots| && !SlotDone(s, slots[k]);
    }
  }

  /** Everything but the suspects stays coherent exactly when the start is quiet. */
  lemma TouchedIff(s: Store, r: Store, id: nat)
    requires Wf(s) && Wf(r) && id < |s.tasks| && Touched(s, r, id)
    requires VariablesStartFirst(s) && VariablesStartFirst(r) && FlaggedOutside(s, {id})
    ensures FlaggedOutside(r, Suspects(s, id)) <==> StartsQuietly(s, id)
  {
    if StartsQuietly(s, id) {
      forall x | 0 <= x < |r.tasks| && x !in Suspects(s, id)
        ensures Flagged(r, x)
      {
        if x < |s.tasks| {
          if x in Path(s, id) {
            if !s.tasks[x].completed {
              AboveStaysOpen(s, r, id, x);
            }
          } else {
            OffPathSame(s, r, id, x);
            assert Flagged(s, x);
          }
        }
      }
    } else {
      var x :| x in Woken(s, id) && x !in Suspects(s, id) && x < |s.tasks| && s.tasks[x].kind.Finite?
                && !s.tasks[x].completed && AllDone(s, s.tasks[x].kind.slots);
      NoisyIsComplete(s, r, id, x);
      assert !Flagged(r, x);
    }
  }

  lemma NoisyIsComplete(s: Store, r: Store, id: nat, x: nat)
    requires Wf(s) && Wf(r) && id < |s.tasks| && Touched(s, r, id) && VariablesStartFirst(r)
    requires x in Woken(s, id) && x != id && x < |s.tasks| && s.tasks[x].kind.Finite? && AllDone(s, s.tasks[x].kind.slots)
    ensures IsCompleted(r, x)
  {
    var slots := s.tasks[x].kind.slots;
    assert WfTask(r, x) && WfTask(s, x);
    forall k | 0 <= k < |slots|
      ensures SlotComplete(r, x, slots[k])
    {
      assert WfSlot(r, x, slots[k]) && WfSlot(s, x, slots[k]) && SlotDone(s, slots[k]);
      if slots[k].Sub? {
        MarkedIsComplete(r, slots[k].task);
      }
    }
  }

  /** A change of a task, announced by its update: coherent afterwards exactly
      when the start is quiet. */
  lemma TouchThenUpdate(s: Store, r: Store, id: nat)
    requires Wf(s) && Wf(r) && id < |s.tasks| && Touched(s, r, id)
    requires VariablesStartFirst(s) && VariablesStartFirst(r) && FlaggedOutside(s, {id})
    ensures Coherent(NotifyUpdate(r, id)) <==> StartsQuietly(s, id)
  {
    SuspectsSame(s, r, id);
    TouchedIff(s, r, id);
    UpdateAnnouncesIff(r, id);
  }

  /** The start itself. */
  lemma StartTouches(s: Store, id: nat)
    requires Wf(s) && id < |s.tasks|
    ensures Touched(s, NotifyStarted(s, id), id) && NotifyStarted(s, id).tasks[id].started
    ensures VariablesStartFirst(s) ==> VariablesStartFirst(NotifyStarted(s, id))
  {
    StartingWakes(s, id);
  }

  // --------------------------------------------------- completing and failing

  /** Marking an open task makes only its ancestors suspect. */
  lemma CloseTask(s: Store, r: Store, id: nat)
    requires Coherent(s) && Wf(r) && id < |s.tasks| && !s.tasks[id].completed
    requires s.tasks[id].kind.Finite? || s.tasks[id].started
    requires r.tasks == s.tasks[id := s.tasks[id].(completed := true)]
    ensures VariablesStartFirst(r) && FlaggedOutside(r, SuspectsAbove(r, id))
  {
    CoherentParts(s);
    assert WfTask(s, id) && WfTask(r, id);
    if s.tasks[id].parent.Some? {
      SuspectsSame(s, r, s.tasks[id].parent.value);
    }
    var above := SuspectsAbove(r, id);
    var d := {id} + above;
    forall c | c in d && c < |s.tasks| && s.tasks[c].parent.Some? && s.tasks[c].parent.value !in d
      ensures IsCompleted(s, c) == IsCompleted(r, c)
    {
      if c != id && !r.tasks[c].completed {
        assert WfTask(r, id);
        SuspectsClimb(r, s.tasks[id].parent.value, c);
      }
      MarkedIsComplete(s, c);
      MarkedIsComplete(r, c);
    }
    forall x | 0 <= x < |r.tasks| && x !in above
      ensures Flagged(r, x)
    {
      if x != id {
        CompletionFrame(s, r, d, x);
      }
    }
  }

  /** An unstarted variable task that is marked answers wrongly from then on. */
  lemma MarkedTooEarly(r: Store, id: nat)
    requires Wf(r) && id < |r.tasks| && r.tasks[id].kind.Variable? && r.tasks[id].completed && !r.tasks[id].started
    ensures !Coherent(r)
  {
    assert !IsCompleted(r, id);
  }

  lemma CompleteIff(s: Store, id: nat)
    requires Coherent(s) && id < |s.tasks|
    ensures Coherent(Complete(s, id)) <==> s.tasks[id].kind.Finite? || s.tasks[id].started
  {
    var t := s.tasks[id];
    if !t.completed {
      var s1 := Emit(Emit(Put(s, id, t.(completed := true)), Progressed(id, 1.0)), Completed(id));
      SameShapeWf(s, s1);
      CloseThenUpdateIff(s, s1, id);
      assert WfTask(s, id);
      assert Complete(s, id) == if t.parent.Some? then NotifyUpdate(s1, t.parent.value) else s1;
    }
  }

  /** Marking a task and updating its parent, if it has one. */
  lemma CloseThenUpdateIff(s: Store, s1: Store, id: nat)
    requires Coherent(s) && Wf(s1) && id < |s.tasks| && !s.tasks[id].completed
    requires s1.tasks == s.tasks[id := s.tasks[id].(completed := true)]
    ensures WfTask(s, id)
    ensures var t := s.tasks[id];
            Coherent(if t.parent.Some? then NotifyUpdate(s1, t.parent.value) else s1) <==> t.kind.Finite? || t.started
  {
    var t := s.tasks[id];
    assert WfTask(s, id);
    if t.kind.Finite? || t.started {
      CloseTask(s, s1, id);
      if t.parent.Some? {
        UpdateAnnouncesIff(s1, t.parent.value);
      } else {
        CoherentParts(s1);
      }
    } else if t.parent.Some? {
      UpdateAnnounces(s1, t.parent.value);
      MarkedTooEarly(NotifyUpdate(s1, t.parent.value), id);
    } else {
      MarkedTooEarly(s1, id);
    }
  }

  lemma FailIff(s: Store, id: nat)
    requires Coherent(s) && id < |s.tasks|
    ensures Coherent(Fail(s, id)) <==> s.tasks[id].kind.Finite? || s.tasks[id].started
  {
    var t := s.tasks[id];
    var s1 := Put(s, id, t.(completed := true));
    SameShapeWf(s, s1);
    var s2 := NotifyFailed(s1, id, id);
    assert WfTask(s, id);
    if t.completed {
      assert s2.tasks == s.tasks;
      SameTasksSameAnswers(s, s2);
      CoherentParts(s2);
      if t.parent.Some? {
        UpdateAnnouncesIff(s2, t.parent.value);
      }
    } else {
      CloseThenUpdateIff(s, s2, id);
    }
  }

  // ---------------------------------------------------- changes of a maximum

  /** A change of one task that starts nothing and announces nothing. */
  lemma SilentChangeIff(s: Store, r: Store, id: nat)
    requires Coherent(s) && Wf(r) && id < |s.tasks| && |r.tasks| == |s.tasks|
    requires r.tasks[id].parent == s.tasks[id].parent && r.tasks[id].completed == s.tasks[id].completed
    requires r.tasks[id].started == s.tasks[id].started && r.tasks[id].kind.Finite? == s.tasks[id].kind.Finite?
    requires forall y :: 0 <= y < |s.tasks| && y != id ==> s.tasks[y] == r.tasks[y]
    ensures Coherent(r) <==> (IsCompleted(r, id) <==> s.tasks[id].completed)
  {
    if IsCompleted(r, id) <==> s.tasks[id].completed {
      forall x | 0 <= x < |r.tasks|
        ensures IsCompleted(r, x) <==> r.tasks[x].completed
      {
        if x != id {
          CompletionFrame(s, r, {id}, x);
        }
      }
    }
  }

  /** Slots are complete exactly when the flags of the sub-tasks say so. */
  lemma DoneIsComplete(s: Store, r: Store, id: nat, slots: seq<Slot>)
    requires Coherent(s) && Wf(r) && id < |s.tasks| && |r.tasks| == |s.tasks|
    requires forall k :: 0 <= k < |slots| ==> WfSlot(s, id, slots[k])
    requires forall y :: id < y < |s.tasks| ==> s.tasks[y] == r.tasks[y]
    requires r.tasks[id] == s.tasks[id].(kind := r.tasks[id].kind) && r.tasks[id].kind.Finite? && r.tasks[id].kind.slots == slots
    ensures IsCompleted(r, id) <==> s.tasks[id].completed || (s.tasks[id].started && AllDone(s, slots))
  {
    assert WfTask(r, id);
    forall k | 0 <= k < |slots|
      ensures WfSlot(r, id, slots[k]) && (SlotComplete(r, id, slots[k]) <==> SlotDone(s, slots[k]))
    {
      assert WfSlot(s, id, slots[k]) && WfSlot(r, id, slots[k]);
      if slots[k].Sub? {
        CompletionBelow(s, r, slots[k].task);
      }
    }
  }

  lemma SetMaxIff(s: Store, id: nat, n: nat, trigger: bool)
    requires Coherent(s) && id < |s.tasks| && s.tasks[id].kind.Finite?
    ensures var t := s.tasks[id];
            Coherent(SetMax(s, id, n, trigger)) <==>
            trigger || !t.started || t.completed || !AllDone(s, Resize(t.kind.slots, n))
  {
    var t := s.tasks[id];
    var slots := Resize(t.kind.slots, n);
    var s1 := SetMaxSlots(s, id, n);
    CoherentParts(s);
    assert WfTask(s, id);
    if t.started && trigger {
      TouchThenUpdate(s, s1, id);
    } else {
      SilentChangeIff(s, s1, id);
      forall k | 0 <= k < |slots|
        ensures WfSlot(s, id, slots[k])
      {
      }
      DoneIsComplete(s, s1, id, slots);
    }
  }

  lemma SetMaxValueIff(s: Store, id: nat, max: nat, trigger: bool)
    requires Coherent(s) && id < |s.tasks| && s.tasks[id].kind.Variable?
    ensures var t := s.tasks[id];
            Coherent(SetMaxValue(s, id, max, trigger)) <==>
            trigger || !t.started || t.completed || t.kind.current != max
  {
    var s1 := SetVariable(s, id, s.tasks[id].kind.current, max);
    CoherentParts(s);
    if s.tasks[id].started && trigger {
      TouchThenUpdate(s, s1, id);
    } else {
      SilentChangeIff(s, s1, id);
    }
  }

  // ------------------------------------------------------- calls that start

  lemma DoingIff(s: Store, id: nat)
    requires Wf(s) && id < |s.tasks| && VariablesStartFirst(s) && FlaggedOutside(s, {id})
    ensures Coherent(Doing(s, id)) <==> StartsQuietly(s, id)
  {
    StartTouches(s, id);
    TouchThenUpdate(s, NotifyStarted(s, id), id);
  }

  lemma DoneIff(s: Store, id: nat)
    requires Coherent(s) && id < |s.tasks| && s.tasks[id].kind.Finite?
    ensures Coherent(Done(s, id)) <==> StartsQuietly(s, id)
  {
    CoherentParts(s);
    StartTouches(s, id);
    TouchThenUpdate(s, FillSlot(NotifyStarted(s, id), id, Finished), id);
  }

  lemma UpdateIff(s: Store, id: nat, value: nat)
    requires Coherent(s) && id < |s.tasks| && s.tasks[id].kind.Variable?
    ensures Coherent(Update(s, id, value)) <==> StartsQuietly(s, id)
  {
    CoherentParts(s);
    StartTouches(s, id);
    TouchThenUpdate(s, SetVariable(NotifyStarted(s, id), id, value, s.tasks[id].kind.max), id);
  }

  lemma BeginIff(s: Store, id: nat, kind: Kind)
    requires Coherent(s) && id < |s.tasks| && s.tasks[id].kind.Finite?
    requires kind == Finite([], 0) || kind == Variable(0, 0)
    ensures Coherent(Begin(s, id, kind)) <==> StartsQuietly(s, id)
  {
    CoherentParts(s);
    StartTouches(s, id);
    var s1 := AddTask(NotifyStarted(s, id), id, kind);
    TouchThenUpdate(s, FillSlot(s1, id, Sub(|s.tasks|)), id);
  }

  // -------------------------------------------------------------- restarts

  /** `b` is `a` put back to its beginning. */
  ghost predicate IsRewound(a: Task, b: Task) {
    && b.parent == a.parent
    && !b.completed
    && b.started == (a.started && !a.completed)
    && match a.kind
       case Finite(slots, _) =>
         && b.kind.Finite? && b.kind.index == 0
         && |b.kind.slots| == |slots|
         && (forall k :: 0 <= k < |slots| ==> b.kind.slots[k] == if slots[k].Sub? then slots[k] else Todo)
       case Variable(_, max) => b.kind == Variable(0, max)
  }

  ghost predicate RewoundOrSame(s: Store, r: Store) {
    && |r.tasks| == |s.tasks|
    && forall x :: 0 <= x < |s.tasks| ==> r.tasks[x] == s.tasks[x] || IsRewound(s.tasks[x], r.tasks[x])
  }

  lemma {:induction false} RestartRewinds(s: Store, id: nat)
    requires Wf(s) && id < |s.tasks|
    ensures RewoundOrSame(s, Restart(s, id))
    ensures IsRewound(s.tasks[id], Restart(s, id).tasks[id])
    decreases |s.tasks| - id, |s.tasks| + 1
  {
    var t := s.tasks[id];
    var s1 := Emit(Put(s, id, Rewound(t)), Restarted(id));
    RewoundWf(s, id);
    if t.kind.Finite? {
      RestartSlotsRewinds(s1, id, 0);
      assert TaskSlotsRewound(s1.tasks[id], Restart(s, id).tasks[id], 0);
    }
  }

  /** What the slot loop does from slot `i` on: slots before it are left, later
      ones are undone, and sub-tasks are rewound. */
  ghost predicate SlotsRewound(s: Store, r: Store, id: nat, i: nat)
    requires id < |s.tasks| && s.tasks[id].kind.Finite?
  {
    && |r.tasks| == |s.tasks|
    && (forall x :: 0 <= x < |s.tasks| && x != id ==> r.tasks[x] == s.tasks[x] || IsRewound(s.tasks[x], r.tasks[x]))
    && TaskSlotsRewound(s.tasks[id], r.tasks[id], i)
  }

  ghost predicate TaskSlotsRewound(a: Task, b: Task, i: nat)
    requires a.kind.Finite?
  {
    && b.kind.Finite? && b.kind.index == a.kind.index
    && b.parent == a.parent && b.started == a.started && b.completed == a.completed
    && |b.kind.slots| == |a.kind.slots|
    && forall k :: 0 <= k < |a.kind.slots| ==>
         b.kind.slots[k] == if k < i || a.kind.slots[k].Sub? then a.kind.slots[k] else Todo
  }

  /** One turn of the slot loop, and then the rest of it. */
  lemma SlotsRewoundStep(s: Store, q: Store, r: Store, id: nat, i: nat)
    requires id < |s.tasks| && s.tasks[id].kind.Finite? && i < |s.tasks[id].kind.slots|
    requires |q.tasks| == |s.tasks|
    requires forall x :: 0 <= x < |s.tasks| && x != id ==> q.tasks[x] == s.tasks[x] || IsRewound(s.tasks[x], q.tasks[x])
    requires var slots := s.tasks[id].kind.slots;
             q.tasks[id] == s.tasks[id].(kind := s.tasks[id].kind.(slots := slots[i := if slots[i].Sub? then slots[i] else Todo]))
    requires SlotsRewound(q, r, id, i + 1)
    ensures SlotsRewound(s, r, id, i)
  {
  }

  lemma {:induction false} RestartSlotsRewinds(s: Store, id: nat, i: nat)
    requires Wf(s) && id < |s.tasks| && s.tasks[id].kind.Finite? && i <= |s.tasks[id].kind.slots|
    ensures SlotsRewound(s, RestartSlots(s, id, i), id, i)
    decreases |s.tasks| - id, 0, |s.tasks[id].kind.slots| - i
  {
    var Finite(slots, index) := s.tasks[id].kind;
    assert WfTask(s, id);
    if i < |slots| {
      match slots[i]
      case Todo =>
        RestartSlotsRewinds(s, id, i + 1);
      case Finished =>
        var s1 := PutSlots(s, id, slots[i := Todo], index);
        RestartSlotsRewinds(s1, id, i + 1);
        SlotsRewoundStep(s, s1, RestartSlots(s, id, i), id, i);
      case Sub(c) =>
        assert WfSlot(s, id, slots[i]);
        var s1 := Restart(s, c);
        RestartRewinds(s, c);
        RestartSlotsRewinds(s1, id, i + 1);
        assert slots[i := slots[i]] == slots;
        SlotsRewoundStep(s, s1, RestartSlots(s, id, i), id, i);
    }
  }

  /** The tasks that a restart restarts: the task and those held in its slots. */
  ghost function Reached(s: Store, id: nat): (r: set<nat>)
    requires Wf(s) && id < |s.tasks|
    ensures id in r && forall x :: x in r ==> id <= x < |s.tasks|
    decreases |s.tasks| - id, |s.tasks| + 1
  {
    {id} + if s.tasks[id].kind.Finite? then ReachedFrom(s, id, 0) else {}
  }

  ghost function ReachedFrom(s: Store, id: nat, i: nat): (r: set<nat>)
    requires Wf(s) && id < |s.tasks| && s.tasks[id].kind.Finite? && i <= |s.tasks[id].kind.slots|
    ensures forall x :: x in r ==> id < x < |s.tasks|
    decreases |s.tasks| - id, 0, |s.tasks[id].kind.slots| - i
  {
    var slots := s.tasks[id].kind.slots;
    assert WfTask(s, id);
    if i == |slots| then {}
    else
      assert WfSlot(s, id, slots[i]);
      (if slots[i].Sub? then Reached(s, slots[i].task) else {}) + ReachedFrom(s, id, i + 1)
  }

  /** The same sub-tasks in the same slots. */
  ghost predicate SameSubs(a: Kind, b: Kind) {
    && a.Finite? == b.Finite?
    && (a.Finite? ==>
          && |a.slots| == |b.slots|
          && forall k :: 0 <= k < |a.slots| ==> (a.slots[k].Sub? || b.slots[k].Sub? ==> a.slots[k] == b.slots[k]))
  }

  ghost predicate SameHolders(s: Store, r: Store) {
    |r.tasks| == |s.tasks| && forall x :: 0 <= x < |s.tasks| ==> SameSubs(s.tasks[x].kind, r.tasks[x].kind)
  }

  lemma RewoundHolders(s: Store, r: Store)
    requires RewoundOrSame(s, r)
    ensures SameHolders(s, r)
  {
    forall x | 0 <= x < |s.tasks|
      ensures SameSubs(s.tasks[x].kind, r.tasks[x].kind)
    {
      assert r.tasks[x] == s.tasks[x] || IsRewound(s.tasks[x], r.tasks[x]);
    }
  }

  lemma {:induction false} ReachedSame(s: Store, r: Store, id: nat)
    requires Wf(s) && Wf(r) && id < |s.tasks| && SameHolders(s, r)
    ensures Reached(s, id) == Reached(r, id)
    decreases |s.tasks| - id, |s.tasks| + 1
  {
    assert SameSubs(s.tasks[id].kind, r.tasks[id].kind);
    if s.tasks[id].kind.Finite? {
      ReachedFromSame(s, r, id, 0);
    }
  }

  lemma {:induction false} ReachedFromSame(s: Store, r: Store, id: nat, i: nat)
    requires Wf(s) && Wf(r) && id < |s.tasks| && SameHolders(s, r)
    requires s.tasks[id].kind.Finite? && i <= |s.tasks[id].kind.slots|
    ensures SameSubs(s.tasks[id].kind, r.tasks[id].kind)
    ensures ReachedFrom(s, id, i) == ReachedFrom(r, id, i)
    decreases |s.tasks| - id, 0, |s.tasks[id].kind.slots| - i
  {
    var slots := s.tasks[id].kind.slots;
    assert WfTask(s, id) && WfTask(r, id) && SameSubs(s.tasks[id].kind, r.tasks[id].kind);
    if i < |slots| {
      assert WfSlot(s, id, slots[i]) && WfSlot(r, id, r.tasks[id].kind.slots[i]);
      if slots[i].Sub? {
        ReachedSame(s, r, slots[i].task);
      }
      ReachedFromSame(s, r, id, i + 1);
    }
  }

  /** The tasks of `d` have been rewound, and no others. */
  ghost predicate RewoundExactly(s: Store, r: Store, d: set<nat>) {
    && |r.tasks| == |s.tasks|
    && forall x :: 0 <= x < |s.tasks| ==> if x in d then IsRewound(s.tasks[x], r.tasks[x]) else r.tasks[x] == s.tasks[x]
  }

  /** The same, leaving open what has happened to `id`. */
  ghost predicate RewoundBeside(s: Store, r: Store, d: set<nat>, id: nat) {
    && |r.tasks| == |s.tasks|
    && forall x :: 0 <= x < |s.tasks| && x != id ==> if x in d then IsRewound(s.tasks[x], r.tasks[x]) else r.tasks[x] == s.tasks[x]
  }

  lemma RewoundBesideMore(s: Store, q: Store, r: Store, d: set<nat>, e: set<nat>, id: nat)
    requires RewoundBeside(s, q, d, id) && RewoundBeside(q, r, e, id)
    ensures RewoundBeside(s, r, d + e, id)
  {
  }

  /** A restart rewinds exactly the tasks it reaches. */
  lemma {:induction false} RestartReaches(s: Store, id: nat)
    requires Wf(s) && id < |s.tasks|
    ensures RewoundExactly(s, Restart(s, id), Reached(s, id))
    decreases |s.tasks| - id, |s.tasks| + 1
  {
    var t := s.tasks[id];
    var s1 := Emit(Put(s, id, Rewound(t)), Restarted(id));
    RewoundWf(s, id);
    RestartRewinds(s, id);
    if t.kind.Finite? {
      assert SameHolders(s, s1);
      ReachedFromSame(s, s1, id, 0);
      RestartSlotsReach(s1, id, 0);
    }
  }

  lemma {:induction false} RestartSlotsReach(s: Store, id: nat, i: nat)
    requires Wf(s) && id < |s.tasks| && s.tasks[id].kind.Finite? && i <= |s.tasks[id].kind.slots|
    ensures RewoundBeside(s, RestartSlots(s, id, i), ReachedFrom(s, id, i), id)
    decreases |s.tasks| - id, 0, |s.tasks[id].kind.slots| - i, 1
  {
    var slots, index := s.tasks[id].kind.slots, s.tasks[id].kind.index;
    assert WfTask(s, id);
    if i < |slots| {
      assert WfSlot(s, id, slots[i]);
      match slots[i]
      case Todo =>
        RestartSlotsReach(s, id, i + 1);
      case Finished =>
        var s1 := PutSlots(s, id, slots[i := Todo], index);
        assert SameHolders(s, s1) && RewoundBeside(s, s1, {}, id);
        RestartSlotsFrom(s, s1, id, i, {});
      case Sub(c) =>
        var s1 := Restart(s, c);
        RestartReaches(s, c);
        RestartRewinds(s, c);
        RewoundHolders(s, s1);
        RestartSlotsFrom(s, s1, id, i, Reached(s, c));
    }
  }

  /** The rest of the loop, after one slot. */
  lemma {:induction false} RestartSlotsFrom(s: Store, s1: Store, id: nat, i: nat, d: set<nat>)
    requires Wf(s) && Wf(s1) && id < |s.tasks| && SameHolders(s, s1) && RewoundBeside(s, s1, d, id)
    requires s.tasks[id].kind.Finite? && i < |s.tasks[id].kind.slots|
    ensures s1.tasks[id].kind.Finite? && |s1.tasks[id].kind.slots| == |s.tasks[id].kind.slots|
    ensures RewoundBeside(s, RestartSlots(s1, id, i + 1), d + ReachedFrom(s, id, i + 1), id)
    decreases |s.tasks| - id, 0, |s.tasks[id].kind.slots| - i, 0
  {
    ReachedFromSame(s, s1, id, i + 1);
    RestartSlotsReach(s1, id, i + 1);
    RewoundBesideMore(s, s1, RestartSlots(s1, id, i + 1), d, ReachedFrom(s1, id, i + 1), id);
  }

  /** Whatever a task reaches, it reaches through its slots. */
  lemma {:induction false} ReachesSubs(s: Store, id: nat, x: nat, k: nat)
    requires Wf(s) && id < |s.tasks| && x in Reached(s, id)
    requires s.tasks[x].kind.Finite? && k < |s.tasks[x].kind.slots| && s.tasks[x].kind.slots[k].Sub?
    ensures s.tasks[x].kind.slots[k].task in Reached(s, id)
    decreases |s.tasks| - id, |s.tasks| + 1
  {
    if x == id {
      HoldsSub(s, id, 0, k);
    } else {
      ReachesSubsFrom(s, id, 0, x, k);
    }
  }

  lemma {:induction false} HoldsSub(s: Store, id: nat, i: nat, k: nat)
    requires Wf(s) && id < |s.tasks| && s.tasks[id].kind.Finite? && i <= k < |s.tasks[id].kind.slots|
    requires s.tasks[id].kind.slots[k].Sub?
    ensures s.tasks[id].kind.slots[k].task in ReachedFrom(s, id, i)
    decreases k - i
  {
    assert WfTask(s, id);
    assert WfSlot(s, id, s.tasks[id].kind.slots[i]);
    if i < k {
      HoldsSub(s, id, i + 1, k);
    }
  }

  lemma {:induction false} ReachesSubsFrom(s: Store, id: nat, i: nat, x: nat, k: nat)
    requires Wf(s) && id < |s.tasks| && s.tasks[id].kind.Finite? && i <= |s.tasks[id].kind.slots|
    requires x in ReachedFrom(s, id, i)
    requires s.tasks[x].kind.Finite? && k < |s.tasks[x].kind.slots| && s.tasks[x].kind.slots[k].Sub?
    ensures s.tasks[x].kind.slots[k].task in ReachedFrom(s, id, i)
    decreases |s.tasks| - id, 0, |s.tasks[id].kind.slots| - i
  {
    var slots := s.tasks[id].kind.slots;
    assert WfTask(s, id);
    assert WfSlot(s, id, slots[i]);
    if slots[i].Sub? && x in Reached(s, slots[i].task) {
      ReachesSubs(s, slots[i].task, x, k);
    } else {
      ReachesSubsFrom(s, id, i + 1, x, k);
    }
  }

  /** A variable task that is complete as soon as it is put back to 0. */
  ghost predicate Stalled(s: Store, x: nat) {
    x < |s.tasks| && var t := s.tasks[x]; t.kind.Variable? && t.started && !t.completed && t.kind.max == 0
  }

  ghost predicate NoneStalled(s: Store, d: set<nat>) {
    forall x :: x in d ==> !Stalled(s, x)
  }

  lemma OpenHasSlots(s: Store, x: nat)
    requires Coherent(s) && x < |s.tasks| && s.tasks[x].kind.Finite? && s.tasks[x].started && !s.tasks[x].completed
    ensures s.tasks[x].kind.slots != []
  {
  }

  /** Without such tasks, nothing that a restart reaches is complete after it. */
  lemma {:induction false} ReachedIsOpen(s: Store, r: Store, id: nat, x: nat)
    requires Coherent(s) && Wf(r) && id < |s.tasks| && x < |s.tasks| && x in Reached(s, id)
    requires RewoundExactly(s, r, Reached(s, id)) && NoneStalled(s, Reached(s, id))
    ensures !IsCompleted(r, x)
    decreases |s.tasks| - x
  {
    assert WfTask(s, x) && WfTask(r, x);
    assert IsRewound(s.tasks[x], r.tasks[x]);
    if s.tasks[x].kind.Finite? {
      if r.tasks[x].started {
        OpenHasSlots(s, x);
        var first := r.tasks[x].kind.slots[0];
        assert WfSlot(r, x, first);
        if first.Sub? {
          ReachesSubs(s, id, x, 0);
          ReachedIsOpen(s, r, id, first.task);
        }
        assert !SlotComplete(r, x, first);
      }
    } else {
      assert !Stalled(s, x);
    }
  }

  /** And nothing is complete that is not marked. */
  lemma {:induction false} RestartMakesNothing(s: Store, r: Store, id: nat, x: nat)
    requires Coherent(s) && Wf(r) && id < |s.tasks| && x < |s.tasks|
    requires RewoundExactly(s, r, Reached(s, id)) && NoneStalled(s, Reached(s, id))
    ensures Flagged(r, x)
    decreases |s.tasks| - x
  {
    assert WfTask(s, x) && WfTask(r, x);
    if x in Reached(s, id) {
      ReachedIsOpen(s, r, id, x);
    } else if s.tasks[x].kind.Finite? && !s.tasks[x].completed && s.tasks[x].started {
      var slots := s.tasks[x].kind.slots;
      assert !IsCompleted(s, x);
      var k :| 0 <= k < |slots| && !SlotComplete(s, x, slots[k]);
      assert WfSlot(s, x, slots[k]) && WfSlot(r, x, slots[k]);
      if slots[k].Sub? {
        RestartMakesNothing(s, r, id, slots[k].task);
        if slots[k].task in Reached(s, id) {
          ReachedIsOpen(s, r, id, slots[k].task);
        }
      }
      assert !SlotComplete(r, x, slots[k]);
    }
  }

  /** A restart stays coherent exactly when it reaches no such task. */
  lemma RestartIff(s: Store, id: nat)
    requires Coherent(s) && id < |s.tasks|
    ensures VariablesStartFirst(Restart(s, id))
    ensures Coherent(Restart(s, id)) <==> NoneStalled(s, Reached(s, id))
  {
    var r := Restart(s, id);
    RestartReaches(s, id);
    CoherentParts(s);
    CoherentParts(r);
    if NoneStalled(s, Reached(s, id)) {
      forall x | 0 <= x < |r.tasks|
        ensures Flagged(r, x)
      {
        RestartMakesNothing(s, r, id, x);
      }
    } else {
      var x :| x in Reached(s, id) && Stalled(s, x);
      StalledIsComplete(s, r, Reached(s, id), x);
    }
  }

  lemma StalledIsComplete(s: Store, r: Store, d: set<nat>, x: nat)
    requires Wf(s) && Wf(r) && RewoundExactly(s, r, d) && x in d && Stalled(s, x)
    ensures IsCompleted(r, x) && !r.tasks[x].completed
  {
    assert IsRewound(s.tasks[x], r.tasks[x]);
  }

  // ------------------------------------------- a restart that is announced

  ghost function WokenAbove(s: Store, id: nat): set<nat>
    requires Wf(s) && id < |s.tasks|
  {
    assert WfTask(s, id);
    if s.tasks[id].parent.None? then {} else Woken(s, s.tasks[id].parent.value)
  }

  /** What starting the task again wakes once it has been put back. */
  ghost predicate RestartsQuietly(s: Store, id: nat)
    requires Wf(s) && id < |s.tasks|
  {
    WakesQuietly(s, if s.tasks[id].started && !s.tasks[id].completed then {} else {id} + WokenAbove(s, id),
                 {id} + SuspectsAbove(s, id))
  }

  /** The same, said of the store after the restart. */
  lemma QuietAfterRestart(s: Store, q: Store, id: nat)
    requires Coherent(s) && Wf(q) && id < |s.tasks| && RewoundExactly(s, q, Reached(s, id))
    ensures StartsQuietly(q, id) <==> RestartsQuietly(s, id)
  {
    assert IsRewound(s.tasks[id], q.tasks[id]);
    assert WfTask(s, id) && WfTask(q, id);
    if s.tasks[id].parent.Some? {
      var p := s.tasks[id].parent.value;
      WokenSame(s, q, p);
      SuspectsSame(s, q, p);
    }
    var woken := if s.tasks[id].started && !s.tasks[id].completed then {} else {id} + WokenAbove(s, id);
    var suspects := {id} + SuspectsAbove(s, id);
    assert Woken(q, id) == woken && Suspects(q, id) == suspects;
    forall x | x in woken && x !in suspects && x < |s.tasks| && s.tasks[x].kind.Finite?
      ensures q.tasks[x] == s.tasks[x] && (AllDone(s, s.tasks[x].kind.slots) <==> AllDone(q, s.tasks[x].kind.slots))
    {
      SlotsAboveSame(s, q, id, x);
    }
  }

  /** The slots of a task above the suspects hold nothing that was restarted. */
  lemma SlotsAboveSame(s: Store, q: Store, id: nat, x: nat)
    requires Coherent(s) && Wf(q) && id < |s.tasks| && RewoundExactly(s, q, Reached(s, id))
    requires x < id && x !in SuspectsAbove(s, id) && s.tasks[x].kind.Finite?
    ensures AllDone(s, s.tasks[x].kind.slots) <==> AllDone(q, s.tasks[x].kind.slots)
  {
    var slots := s.tasks[x].kind.slots;
    assert WfTask(s, x) && WfTask(s, id);
    forall k | 0 <= k < |slots|
      ensures SlotDone(s, slots[k]) <==> SlotDone(q, slots[k])
    {
      assert WfSlot(s, x, slots[k]);
      if slots[k].Sub? && slots[k].task in Reached(s, id) {
        ReachedBelow(s, id, slots[k].task);
      }
    }
  }

  /** What a restart reaches is the task itself or below what it reaches. */
  lemma {:induction false} ReachedBelow(s: Store, id: nat, x: nat)
    requires Wf(s) && id < |s.tasks| && x in Reached(s, id)
    ensures x == id || (s.tasks[x].parent.Some? && s.tasks[x].parent.value >= id)
    decreases |s.tasks| - id, |s.tasks| + 1
  {
    if x != id {
      ReachedBelowFrom(s, id, 0, x);
    }
  }

  lemma {:induction false} ReachedBelowFrom(s: Store, id: nat, i: nat, x: nat)
    requires Wf(s) && id < |s.tasks| && s.tasks[id].kind.Finite? && i <= |s.tasks[id].kind.slots| && x in ReachedFrom(s, id, i)
    ensures s.tasks[x].parent.Some? && s.tasks[x].parent.value >= id
    decreases |s.tasks| - id, 0, |s.tasks[id].kind.slots| - i
  {
    var slots := s.tasks[id].kind.slots;
    assert WfTask(s, id) && WfSlot(s, id, slots[i]);
    if slots[i].Sub? && x in Reached(s, slots[i].task) {
      ReachedBelow(s, slots[i].task, x);
    } else {
      ReachedBelowFrom(s, id, i + 1, x);
    }
  }

  /** A restart that is announced: an update repairs the task itself, but nothing
      below it. */
  lemma RestartAndNotifyIff(s: Store, id: nat)
    requires Coherent(s) && id < |s.tasks|
    ensures Coherent(RestartAndNotify(s, id, true))
       <==> NoneStalled(s, Reached(s, id) - {id}) && RestartsQuietly(s, id)
  {
    var q := Restart(s, id);
    RestartReaches(s, id);
    RestartIff(s, id);
    CoherentParts(s);
    CoherentParts(q);
    if NoneStalled(s, Reached(s, id)) {
      QuietAfterRestart(s, q, id);
      DoingIff(q, id);
    } else if Stalled(s, id) {
      assert Reached(s, id) == {id};
      StalledRestart(s, q, id);
    } else {
      var x :| x in Reached(s, id) && Stalled(s, x);
      StalledIsComplete(s, q, Reached(s, id), x);
      BelowStaysAsItIs(q, id, x);
    }
  }

  /** A stalled task that is restarted itself is marked by its own update. */
  lemma StalledRestart(s: Store, q: Store, id: nat)
    requires Coherent(s) && Wf(q) && id < |s.tasks| && Stalled(s, id) && Reached(s, id) == {id}
    requires RewoundExactly(s, q, {id})
    ensures Coherent(Doing(q, id)) && RestartsQuietly(s, id)
  {
    CoherentParts(s);
    assert IsRewound(s.tasks[id], q.tasks[id]);
    assert NotifyStarted(q, id) == q;
    TouchThenUpdate(s, q, id);
  }

  /** What is below a task is not touched by starting and updating it. */
  lemma BelowStaysAsItIs(q: Store, id: nat, x: nat)
    requires Wf(q) && id < x < |q.tasks| && IsCompleted(q, x) && !q.tasks[x].completed
    ensures !Coherent(Doing(q, id))
  {
    StartingWakes(q, id);
    var q1 := NotifyStarted(q, id);
    UpdateAnnounces(q1, id);
    var r := NotifyUpdate(q1, id);
    CompletionBelow(q, q1, x);
    assert !Marked(q1, r, x);
    assert IsCompleted(r, x) && !r.tasks[x].completed;
  }

  // ------------------------------------------------------------ main results

  /** What a caller can see before the call: the flags, the slots and whether an
      update is asked for. */
  ghost predicate Heeds(s: Store, op: Op)
    requires Wf(s) && Callable(s, op)
  {
    var id, t := op.id, s.tasks[op.id];
    match op
    case SetMaxOf(_, n, trigger) => trigger || !t.started || t.completed || !AllDone(s, Resize(t.kind.slots, n))
    case SetMaxValueOf(_, max, trigger) => trigger || !t.started || t.completed || t.kind.current != max
    case CompleteOf(_) => t.kind.Finite? || t.started
    case FailOf(_) => t.kind.Finite? || t.started
    case RestartOf(_, trigger) =>
      if trigger then NoneStalled(s, Reached(s, id) - {id}) && RestartsQuietly(s, id) else NoneStalled(s, Reached(s, id))
    case _ => StartsQuietly(s, id)
  }

  /** Of every call on a coherent store: it is coherent afterwards if and only if
      the caller heeds this. */
  lemma CoherentAfterIff(s: Store, op: Op)
    requires Coherent(s) && Callable(s, op)
    ensures Coherent(Apply(s, op)) <==> Heeds(s, op)
  {
    match op
    case SetMaxOf(id, n, trigger) => SetMaxIff(s, id, n, trigger);
    case DoneOf(id) => DoneIff(s, id);
    case BeginFinite(id) => BeginIff(s, id, Finite([], 0));
    case BeginVariable(id) => BeginIff(s, id, Variable(0, 0));
    case SetMaxValueOf(id, max, trigger) => SetMaxValueIff(s, id, max, trigger);
    case UpdateOf(id, value) => UpdateIff(s, id, value);
    case CompleteOf(id) => CompleteIff(s, id);
    case FailOf(id) => FailIff(s, id);
    case DoingOf(id) =>
      CoherentParts(s);
      DoingIff(s, id);
    case RestartOf(id, trigger) =>
      if trigger {
        RestartAndNotifyIff(s, id);
      } else {
        RestartIff(s, id);
      }
  }

  /** Every call of the run is heedful when it is made; calls of methods that the
      task does not have do nothing. */
  ghost predicate HeedfulRun(ops: seq<Op>) {
    ops == [] ||
    var init := ops[..|ops| - 1];
    HeedfulRun(init) && (Callable(Run(NewRoot(), init), ops[|ops| - 1]) ==> Heeds(Run(NewRoot(), init), ops[|ops| - 1]))
  }

  /** The tree is coherent after every call of the run. */
  ghost predicate CoherentThroughout(ops: seq<Op>) {
    Coherent(Run(NewRoot(), ops)) && (ops == [] || CoherentThroughout(ops[..|ops| - 1]))
  }

  /** Over every run: no announcement is ever missing if and only if every call is
      heedful. */
  lemma {:induction false} NoAnnouncementLostIff(ops: seq<Op>)
    ensures CoherentThroughout(ops) <==> HeedfulRun(ops)
    decreases |ops|
  {
    if ops == [] {
      assert !IsCompleted(NewRoot(), 0);
    } else {
      var init, op := ops[..|ops| - 1], ops[|ops| - 1];
      NoAnnouncementLostIff(init);
      var s := Run(NewRoot(), init);
      if CoherentThroughout(init) && Callable(s, op) {
        CoherentAfterIff(s, op);
      }
    }
  }

  /** What coherence means to a listener: a task answers that it is completed
      exactly when the last thing it has been told of the task since its restart
      is its completion or its failure. */
  lemma AnswersMatchLog(ops: seq<Op>, id: nat)
    requires Coherent(Run(NewRoot(), ops)) && id < |Run(NewRoot(), ops).tasks|
    ensures IsCompleted(Run(NewRoot(), ops), id) <==> Closed(Run(NewRoot(), ops).log, id)
  {
    RunLog(ops);
  }

  // ------------------------------------------------- concrete runs that fail

  lemma FirstCall(op: Op)
    ensures Run(NewRoot(), [op]) == Apply(NewRoot(), op)
  {
    assert [op][..0] == [];
  }

  lemma NextCall(ops: seq<Op>, op: Op)
    ensures Run(NewRoot(), ops + [op]) == Apply(Run(NewRoot(), ops), op)
  {
    assert (ops + [op])[..|ops|] == ops;
  }

  /** The root with `n` slots, none of them done. */
  lemma RootWithSlots(n: nat)
    ensures var s := Run(NewRoot(), [SetMaxOf(0, n, false)]);
            |s.tasks| == 1 && s.tasks[0] == Task(None, false, false, Finite(seq(n, _ => Todo), 0))
  {
    FirstCall(SetMaxOf(0, n, false));
    assert Resize([], n) == seq(n, _ => Todo);
  }

  /** Shrinking a started task to the slots that are done, without an update: it
      answers that it is completed, and nobody has been told. */
  lemma ShrinkingLosesOne()
    ensures var s := Run(NewRoot(), [SetMaxOf(0, 2, false), DoneOf(0)] + [SetMaxOf(0, 1, false)]);
            |s.tasks| == 1 && IsCompleted(s, 0) && !s.tasks[0].completed && !Closed(s.log, 0)
  {
    var first, ops := [SetMaxOf(0, 2, false)], [SetMaxOf(0, 2, false), DoneOf(0)];
    RootWithSlots(2);
    var s1 := Run(NewRoot(), first);
    NextCall(first, DoneOf(0));
    assert first + [DoneOf(0)] == ops;
    var s2 := Run(NewRoot(), ops);
    OneOfTwoDone(s1);
    NextCall(ops, SetMaxOf(0, 1, false));
    ShrunkToDone(s2);
    RunLog(ops + [SetMaxOf(0, 1, false)]);
  }

  lemma ShrunkToDone(s: Store)
    requires Wf(s) && s.tasks == [Task(None, true, false, Finite([Finished, Todo], 1))]
    ensures var r := SetMax(s, 0, 1, false);
            |r.tasks| == 1 && IsCompleted(r, 0) && !r.tasks[0].completed
  {
    var r := SetMaxSlots(s, 0, 1);
    assert r.tasks[0].kind.slots == [Finished];
    assert WfTask(r, 0) && SlotComplete(r, 0, Finished);
  }

  lemma OneOfTwoDone(s: Store)
    requires Wf(s) && |s.tasks| == 1 && s.tasks[0] == Task(None, false, false, Finite(seq(2, _ => Todo), 0))
    ensures Done(s, 0).tasks == [Task(None, true, false, Finite([Finished, Todo], 1))]
  {
    StartingWakes(s, 0);
    var s1 := FillSlot(NotifyStarted(s, 0), 0, Finished);
    assert s1.tasks[0].kind.slots == [Finished, Todo];
    assert WfTask(s1, 0) && !SlotComplete(s1, 0, s1.tasks[0].kind.slots[1]);
    UpdateAnnounces(s1, 0);
    assert !Marked(s1, NotifyUpdate(s1, 0), 0);
  }

  /** A variable task that is begun in the only slot and completed before it has
      started: it reports progress 1, and answers that it is not completed. */
  lemma CompletedBeforeItStarts()
    ensures var s := Run(NewRoot(), [SetMaxOf(0, 1, false), BeginVariable(0)] + [CompleteOf(1)]);
            |s.tasks| == 2 && GetProgress(s, 1) == 1.0 && !IsCompleted(s, 1)
  {
    var first, ops := [SetMaxOf(0, 1, false)], [SetMaxOf(0, 1, false), BeginVariable(0)];
    RootWithSlots(1);
    var s1 := Run(NewRoot(), first);
    NextCall(first, BeginVariable(0));
    assert first + [BeginVariable(0)] == ops;
    BeginsUnstarted(s1, 0);
    var s2 := Run(NewRoot(), ops);
    NextCall(ops, CompleteOf(1));
    var s3 := Emit(Emit(Put(s2, 1, s2.tasks[1].(completed := true)), Progressed(1, 1.0)), Completed(1));
    SameShapeWf(s2, s3);
    assert WfTask(s2, 1);
    UpdateAnnounces(s3, 0);
    assert Complete(s2, 1) == NotifyUpdate(s3, 0);
  }

  lemma BeginsUnstarted(s: Store, id: nat)
    requires Wf(s) && id < |s.tasks| && s.tasks[id].kind.Finite?
    ensures Begin(s, id, Variable(0, 0)).tasks[|s.tasks|] == Task(Some(id), false, false, Variable(0, 0))
  {
    var s1 := AddTask(NotifyStarted(s, id), id, Variable(0, 0));
    var s2 := FillSlot(s1, id, Sub(|s.tasks|));
    UpdateKeepsBelow(s2, id, |s.tasks|);
  }

  lemma UpdateKeepsBelow(s: Store, id: nat, x: nat)
    requires Wf(s) && id < x < |s.tasks|
    ensures NotifyUpdate(s, id).tasks[x] == s.tasks[x]
  {
    UpdateAnnounces(s, id);
    assert x !in Path(s, id);
    assert !Marked(s, NotifyUpdate(s, id), x);
  }
}
