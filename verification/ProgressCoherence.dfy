/** The value a task tree reports, and whether its tasks say they are completed. */
module ProgressCoherence {
  import opened FsmGraph
  import opened Progress
  import opened ProgressRuns

  // ------------------------------------------------- the reported progress

  /** No variable task has run past its maximum, and a maximum is not zero. */
  ghost predicate Bounded(s: Store) {
    forall id :: 0 <= id < |s.tasks| && s.tasks[id].kind.Variable? ==>
      s.tasks[id].kind.current <= s.tasks[id].kind.max && s.tasks[id].kind.max > 0
  }

  ghost predicate NoEmptyTask(s: Store) {
    forall id :: 0 <= id < |s.tasks| && s.tasks[id].kind.Finite? ==> s.tasks[id].kind.slots != []
  }

  /** No variable task was completed or failed before it started. */
  ghost predicate VariablesStartFirst(s: Store) {
    forall id :: 0 <= id < |s.tasks| && s.tasks[id].kind.Variable? && s.tasks[id].completed ==> s.tasks[id].started
  }

  /** What the first `n` slots are worth: one for each that is done, and its
      progress for each sub-task. */
  ghost function Worth(s: Store, id: nat, n: nat): real
    requires Wf(s) && id < |s.tasks| && s.tasks[id].kind.Finite? && n <= |s.tasks[id].kind.slots|
    decreases n
  {
    assert WfTask(s, id);
    if n == 0 then 0.0
    else
      var slot := s.tasks[id].kind.slots[n - 1];
      Worth(s, id, n - 1) + if slot.Finished? then 1.0 else if slot.Sub? then GetProgress(s, slot.task) else 0.0
  }

  lemma {:induction false} SumIsWorth(s: Store, id: nat, step: real, n: nat)
    requires Wf(s) && id < |s.tasks| && s.tasks[id].kind.Finite? && n <= |s.tasks[id].kind.slots|
    ensures SumSlots(s, id, step, n) == step * Worth(s, id, n)
    decreases n
  {
    assert WfTask(s, id);
    if n > 0 {
      SumIsWorth(s, id, step, n - 1);
      var w, v := Worth(s, id, n - 1), SlotProgress(s, id, s.tasks[id].kind.slots[n - 1]);
      assert step * w + step * v == step * (w + v);
    }
  }

  lemma Share(w: real, n: nat)
    requires n > 0
    ensures (1.0 / n as real) * w * n as real == w
  {
    var part := 1.0 / n as real;
    assert part * n as real == 1.0;
    assert part * w * n as real == w * (part * n as real);
  }

  lemma PartOfMaximum(current: nat, max: nat)
    requires max > 0
    ensures (current as real / max as real) * max as real == current as real
  {
  }

  /** The sum of the steps, times the number of the slots. */
  lemma StepsAreWorth(s: Store, id: nat, n: nat)
    requires Wf(s) && id < |s.tasks| && s.tasks[id].kind.Finite? && 0 < n <= |s.tasks[id].kind.slots|
    ensures SumSlots(s, id, 1.0 / n as real, n) * n as real == Worth(s, id, n)
  {
    SumIsWorth(s, id, 1.0 / n as real, n);
    Share(Worth(s, id, n), n);
  }

  /** The part of its maximum, for a variable task; the average of its slots, for a
      finite one, or 0 without any. */
  ghost predicate IsAverage(s: Store, id: nat, value: real)
    requires Wf(s) && id < |s.tasks|
  {
    match s.tasks[id].kind
    case Variable(current, max) => max > 0 ==> value * max as real == current as real
    case Finite(slots, _) => if slots == [] then value == 0.0 else value * |slots| as real == Worth(s, id, |slots|)
  }

  /** What an open task that has started reports. */
  lemma ProgressIsAverage(s: Store, id: nat)
    requires Wf(s) && id < |s.tasks| && s.tasks[id].started && !s.tasks[id].completed
    ensures IsAverage(s, id, GetProgress(s, id))
  {
    if s.tasks[id].kind.Finite? {
      FiniteAverage(s, id);
    } else {
      VariableAverage(s, id);
    }
  }

  lemma FiniteAverage(s: Store, id: nat)
    requires Wf(s) && id < |s.tasks| && s.tasks[id].started && !s.tasks[id].completed && s.tasks[id].kind.Finite?
    ensures IsAverage(s, id, GetProgress(s, id))
  {
    var n := |s.tasks[id].kind.slots|;
    if n > 0 {
      StepsAreWorth(s, id, n);
    }
  }

  lemma VariableAverage(s: Store, id: nat)
    requires Wf(s) && id < |s.tasks| && s.tasks[id].started && !s.tasks[id].completed && s.tasks[id].kind.Variable?
    ensures IsAverage(s, id, GetProgress(s, id))
  {
    var max := s.tasks[id].kind.max;
    if max > 0 {
      PartOfMaximum(s.tasks[id].kind.current, max);
    }
  }

  /** `n` whole steps. */
  ghost function Steps(step: real, n: nat): real {
    if n == 0 then 0.0 else Steps(step, n - 1) + step
  }

  lemma {:induction false} StepsProduct(step: real, n: nat)
    ensures Steps(step, n) == n as real * step
  {
    if n > 0 {
      StepsProduct(step, n - 1);
      var m := (n - 1) as real;
      assert n as real == m + 1.0;
      assert (m + 1.0) * step == m * step + step;
    }
  }

  lemma WholeOfParts(n: nat)
    requires n > 0
    ensures 1.0 / n as real > 0.0 && Steps(1.0 / n as real, n) == 1.0
  {
    StepsProduct(1.0 / n as real, n);
  }

  lemma PartOfStep(step: real, v: real)
    requires step > 0.0 && 0.0 <= v <= 1.0
    ensures 0.0 <= step * v <= step
    ensures step * v == step <==> v == 1.0
  {
    assert step * (1.0 - v) >= 0.0;
  }

  lemma {:induction false} SumInRange(s: Store, id: nat, step: real, n: nat)
    requires Wf(s) && id < |s.tasks| && s.tasks[id].kind.Finite? && n <= |s.tasks[id].kind.slots|
    requires Bounded(s) && step > 0.0
    ensures 0.0 <= SumSlots(s, id, step, n) <= Steps(step, n)
    decreases |s.tasks| - id, 1, n
  {
    assert WfTask(s, id);
    if n > 0 {
      SumInRange(s, id, step, n - 1);
      var slot := s.tasks[id].kind.slots[n - 1];
      assert WfSlot(s, id, slot);
      if slot.Sub? {
        ProgressInRange(s, slot.task);
      }
      var v := SlotProgress(s, id, slot);
      PartOfStep(step, v);
      assert SumSlots(s, id, step, n) == SumSlots(s, id, step, n - 1) + step * v;
    }
  }

  /** Progress is a fraction. */
  lemma {:induction false} ProgressInRange(s: Store, id: nat)
    requires Wf(s) && id < |s.tasks| && Bounded(s)
    ensures 0.0 <= GetProgress(s, id) <= 1.0
    decreases |s.tasks| - id, 2
  {
    var t := s.tasks[id];
    if !t.completed && t.started {
      match t.kind
      case Finite(slots, _) =>
        if slots != [] {
          WholeOfParts(|slots|);
          SumInRange(s, id, 1.0 / |slots| as real, |slots|);
        }
      case Variable(current, max) =>
        FractionInRange(current, max);
    }
  }

  lemma FractionInRange(current: nat, max: nat)
    requires current <= max && max > 0
    ensures 0.0 <= current as real / max as real <= 1.0
    ensures current as real / max as real == 1.0 <==> current == max
  {
  }

  /** A variable task that has started reports 1 exactly when it says it is
      completed, even if it has run past its maximum. */
  lemma VariableFullIff(s: Store, id: nat)
    requires Wf(s) && id < |s.tasks| && s.tasks[id].kind.Variable? && s.tasks[id].kind.max > 0 && s.tasks[id].started
    ensures GetProgress(s, id) == 1.0 <==> IsCompleted(s, id)
  {
    var t := s.tasks[id];
    if !t.completed {
      ProgressIsAverage(s, id);
    }
  }

  /** The steps stay whole exactly when the next slot is full too. */
  lemma SumStaysFullIff(s: Store, id: nat, step: real, n: nat)
    requires Wf(s) && id < |s.tasks| && s.tasks[id].kind.Finite? && 0 < n <= |s.tasks[id].kind.slots|
    requires Bounded(s) && step > 0.0
    ensures WfTask(s, id) && WfSlot(s, id, s.tasks[id].kind.slots[n - 1])
    ensures SumSlots(s, id, step, n) == Steps(step, n)
       <==> SumSlots(s, id, step, n - 1) == Steps(step, n - 1) && SlotProgress(s, id, s.tasks[id].kind.slots[n - 1]) == 1.0
  {
    assert WfTask(s, id);
    SumInRange(s, id, step, n - 1);
    var slot := s.tasks[id].kind.slots[n - 1];
    assert WfSlot(s, id, slot);
    if slot.Sub? {
      ProgressInRange(s, slot.task);
    }
    var v := SlotProgress(s, id, slot);
    var part := step * v;
    PartOfStep(step, v);
    assert SumSlots(s, id, step, n) == SumSlots(s, id, step, n - 1) + part;
    assert Steps(step, n) == Steps(step, n - 1) + step;
  }

  /** The steps add up to the whole exactly when every slot is full. */
  lemma {:induction false} SumFullIff(s: Store, id: nat, step: real, n: nat)
    requires Wf(s) && id < |s.tasks| && s.tasks[id].kind.Finite? && n <= |s.tasks[id].kind.slots|
    requires Bounded(s) && step > 0.0
    ensures WfTask(s, id)
    ensures SumSlots(s, id, step, n) == Steps(step, n)
       <==> forall k :: 0 <= k < n ==> SlotProgress(s, id, s.tasks[id].kind.slots[k]) == 1.0
    decreases n
  {
    assert WfTask(s, id);
    if n > 0 {
      SumFullIff(s, id, step, n - 1);
      SumStaysFullIff(s, id, step, n);
    }
  }

  /** The slots of a finite task that is complete add up to the whole. */
  lemma FullSlots(s: Store, id: nat)
    requires Wf(s) && id < |s.tasks| && Bounded(s) && s.tasks[id].kind.Finite? && s.tasks[id].kind.slots != []
    requires !s.tasks[id].completed && s.tasks[id].started
    ensures WfTask(s, id)
    ensures GetProgress(s, id) == 1.0 <==>
            forall k :: 0 <= k < |s.tasks[id].kind.slots| ==> SlotProgress(s, id, s.tasks[id].kind.slots[k]) == 1.0
  {
    var slots := s.tasks[id].kind.slots;
    WholeOfParts(|slots|);
    SumFullIff(s, id, 1.0 / |slots| as real, |slots|);
  }

  /** A task that says it is completed reports progress 1. */
  lemma {:induction false} CompletedMeansFull(s: Store, id: nat)
    requires Wf(s) && id < |s.tasks| && Bounded(s) && NoEmptyTask(s) && IsCompleted(s, id)
    ensures GetProgress(s, id) == 1.0
    decreases |s.tasks| - id
  {
    var t := s.tasks[id];
    if !t.completed {
      match t.kind
      case Finite(slots, _) =>
        FullSlots(s, id);
        forall k | 0 <= k < |slots|
          ensures SlotProgress(s, id, slots[k]) == 1.0
        {
          assert WfSlot(s, id, slots[k]) && SlotComplete(s, id, slots[k]);
          if slots[k].Sub? {
            CompletedMeansFull(s, slots[k].task);
          }
        }
      case Variable(current, max) =>
        FractionInRange(current, max);
    }
  }

  /** A task reports progress 1 exactly when it says it is completed. */
  lemma {:induction false} FullIffCompleted(s: Store, id: nat)
    requires Wf(s) && id < |s.tasks| && Bounded(s) && NoEmptyTask(s) && VariablesStartFirst(s)
    ensures GetProgress(s, id) == 1.0 <==> IsCompleted(s, id)
    decreases |s.tasks| - id
  {
    var t := s.tasks[id];
    if !t.completed && t.started {
      match t.kind
      case Finite(slots, _) =>
        assert WfTask(s, id);
        FullSlots(s, id);
        forall k | 0 <= k < |slots|
          ensures SlotProgress(s, id, slots[k]) == 1.0 <==> SlotComplete(s, id, slots[k])
        {
          assert WfSlot(s, id, slots[k]);
          if slots[k].Sub? {
            FullIffCompleted(s, slots[k].task);
          }
        }
      case Variable(current, max) =>
        FractionInRange(current, max);
    }
  }

  /** The two answers agree on every task exactly when no variable task was
      completed before it started: such a task reports progress 1 but answers
      that it is not completed. */
  lemma FullIffCompletedExactly(s: Store)
    requires Wf(s) && Bounded(s) && NoEmptyTask(s)
    ensures VariablesStartFirst(s)
       <==> forall id :: 0 <= id < |s.tasks| ==> (GetProgress(s, id) == 1.0 <==> IsCompleted(s, id))
  {
    if VariablesStartFirst(s) {
      forall id | 0 <= id < |s.tasks|
        ensures GetProgress(s, id) == 1.0 <==> IsCompleted(s, id)
      {
        FullIffCompleted(s, id);
      }
    } else {
      var id :| 0 <= id < |s.tasks| && s.tasks[id].kind.Variable? && s.tasks[id].completed && !s.tasks[id].started;
      assert GetProgress(s, id) == 1.0 && !IsCompleted(s, id);
    }
  }
}
