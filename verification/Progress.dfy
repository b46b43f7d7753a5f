/** Progress feedback: finite tasks whose slots may hold sub-tasks, variable
    tasks, and the notifications that climb from a task to its ancestors.

    A store holds every task ever created; a task is known by its position in
    it. The parent of a task was created before it, so notifications climb to
    smaller positions and sub-tasks are found at larger ones. */
module Progress {
  import opened FsmGraph

  /** A slot of a finite task: not done, done, or held by a sub-task. */
  datatype Slot = Todo | Finished | Sub(task: nat)

  datatype Kind =
    | Finite(slots: seq<Slot>, index: nat)
    | Variable(current: nat, max: nat)

  datatype Task = Task(parent: Option<nat>, started: bool, completed: bool, kind: Kind)

  /** The callbacks fired so far, in order, and the restarts between them.
      `Failed(id, origin)` is the failure of `origin` as `id` reports it. */
  datatype Event =
    | Started(id: nat)
    | Progressed(id: nat, value: real)
    | Completed(id: nat)
    | Failed(id: nat, origin: nat)
    | Restarted(id: nat)

  datatype Store = Store(tasks: seq<Task>, log: seq<Event>)

  ghost predicate WfTask(s: Store, id: nat)
    requires id < |s.tasks|
  {
    var t := s.tasks[id];
    && (t.parent.Some? ==> t.parent.value < id && s.tasks[t.parent.value].kind.Finite?)
    && (t.kind.Finite? ==> forall k :: 0 <= k < |t.kind.slots| ==> WfSlot(s, id, t.kind.slots[k]))
  }

  ghost predicate WfSlot(s: Store, id: nat, slot: Slot) {
    slot.Sub? ==> id < slot.task < |s.tasks| && s.tasks[slot.task].parent == Some(id)
  }

  /** Parents come before their children, and a task held in a slot knows the
      task that holds it. */
  ghost predicate Wf(s: Store) {
    forall id :: 0 <= id < |s.tasks| ==> WfTask(s, id)
  }

  // ------------------------------------------------------------- queries

  ghost predicate SlotComplete(s: Store, id: nat, slot: Slot)
    requires Wf(s) && id < |s.tasks| && WfSlot(s, id, slot)
    decreases |s.tasks| - id, 0
  {
    match slot
    case Todo => false
    case Finished => true
    case Sub(c) => IsCompleted(s, c)
  }

  ghost predicate IsCompleted(s: Store, id: nat)
    requires Wf(s) && id < |s.tasks|
    decreases |s.tasks| - id, 1
  {
    var t := s.tasks[id];
    match t.kind
    case Finite(slots, _) =>
      assert WfTask(s, id);
      t.completed || (t.started && forall k :: 0 <= k < |slots| ==> SlotComplete(s, id, slots[k]))
    case Variable(current, max) =>
      t.started && (t.completed || current == max)
  }

  /** How much of its step a slot contributes. */
  ghost function SlotProgress(s: Store, id: nat, slot: Slot): real
    requires Wf(s) && id < |s.tasks| && WfSlot(s, id, slot)
    decreases |s.tasks| - id, 0
  {
    match slot
    case Todo => 0.0
    case Finished => 1.0
    case Sub(c) => GetProgress(s, c)
  }

  /** The contributions of the first `n` slots, a `step` each. */
  ghost function SumSlots(s: Store, id: nat, step: real, n: nat): real
    requires Wf(s) && id < |s.tasks| && s.tasks[id].kind.Finite? && n <= |s.tasks[id].kind.slots|
    decreases |s.tasks| - id, 1, n
  {
    assert WfTask(s, id);
    if n == 0 then 0.0
    else SumSlots(s, id, step, n - 1) + step * SlotProgress(s, id, s.tasks[id].kind.slots[n - 1])
  }

  ghost function GetProgress(s: Store, id: nat): real
    requires Wf(s) && id < |s.tasks|
    decreases |s.tasks| - id, 2
  {
    var t := s.tasks[id];
    if t.completed then 1.0
    else if !t.started then 0.0
    else match t.kind
      case Finite(slots, _) => if slots == [] then 0.0 else SumSlots(s, id, 1.0 / |slots| as real, |slots|)
      // the program divides by a zero max; that case is not modelled
      case Variable(current, max) => if max == 0 then 0.0 else current as real / max as real
  }

  // ------------------------------------------------------- notifications

  function Emit(s: Store, e: Event): Store {
    s.(log := s.log + [e])
  }

  function Put(s: Store, id: nat, t: Task): Store
    requires id < |s.tasks|
  {
    s.(tasks := s.tasks[id := t])
  }

  /** The same tasks with the same parents and the same slots. */
  ghost predicate SameShape(s: Store, r: Store) {
    && |s.tasks| == |r.tasks|
    && forall id :: 0 <= id < |s.tasks| ==> s.tasks[id].parent == r.tasks[id].parent && s.tasks[id].kind == r.tasks[id].kind
  }

  lemma SameShapeWf(s: Store, r: Store)
    requires Wf(s) && SameShape(s, r)
    ensures Wf(r)
  {
    forall id | 0 <= id < |r.tasks|
      ensures WfTask(r, id)
    {
      assert WfTask(s, id);
      if r.tasks[id].kind.Finite? {
        forall k | 0 <= k < |r.tasks[id].kind.slots|
          ensures WfSlot(r, id, r.tasks[id].kind.slots[k])
        {
          assert WfSlot(s, id, s.tasks[id].kind.slots[k]);
        }
      }
    }
  }

  ghost function NotifyStarted(s: Store, id: nat): (r: Store)
    requires Wf(s) && id < |s.tasks|
    ensures SameShape(s, r) && Wf(r)
    decreases id
  {
    var t := s.tasks[id];
    if t.started then s
    else
      var s1 := Emit(Put(s, id, t.(started := true)), Started(id));
      SameShapeWf(s, s1);
      assert WfTask(s, id);
      if t.parent.Some? then NotifyStarted(s1, t.parent.value) else s1
  }

  ghost function NotifyCompleted(s: Store, id: nat): (r: Store)
    requires Wf(s) && id < |s.tasks|
    ensures SameShape(s, r) && Wf(r)
    decreases id, 0
  {
    var t := s.tasks[id];
    if t.completed then s
    else
      var s1 := Emit(Emit(Put(s, id, t.(completed := true)), Progressed(id, 1.0)), Completed(id));
      SameShapeWf(s, s1);
      assert WfTask(s, id);
      if t.parent.Some? then NotifyUpdate(s1, t.parent.value) else s1
  }

  ghost function NotifyUpdate(s: Store, id: nat): (r: Store)
    requires Wf(s) && id < |s.tasks|
    ensures SameShape(s, r) && Wf(r)
    decreases id, 1
  {
    if IsCompleted(s, id) then NotifyCompleted(s, id)
    else
      var s1 := Emit(s, Progressed(id, GetProgress(s, id)));
      SameShapeWf(s, s1);
      assert WfTask(s, id);
      if s.tasks[id].parent.Some? then NotifyUpdate(s1, s.tasks[id].parent.value) else s1
  }

  ghost function NotifyFailed(s: Store, id: nat, origin: nat): (r: Store)
    requires Wf(s) && id < |s.tasks|
    ensures r.tasks == s.tasks && Wf(r)
    decreases id
  {
    var s1 := Emit(s, Failed(id, origin));
    SameShapeWf(s, s1);
    assert WfTask(s, id);
    if s.tasks[id].parent.Some? then NotifyFailed(s1, s.tasks[id].parent.value, origin) else s1
  }

  // ----------------------------------------------------------- operations

  ghost function Complete(s: Store, id: nat): (r: Store)
    requires Wf(s) && id < |s.tasks|
    ensures SameShape(s, r) && Wf(r)
  {
    NotifyCompleted(s, id)
  }

  ghost function Fail(s: Store, id: nat): (r: Store)
    requires Wf(s) && id < |s.tasks|
    ensures SameShape(s, r) && Wf(r)
  {
    var t := s.tasks[id];
    var s1 := Put(s, id, t.(completed := true));
    SameShapeWf(s, s1);
    var s2 := NotifyFailed(s1, id, id);
    assert WfTask(s, id);
    if t.parent.Some? then NotifyUpdate(s2, t.parent.value) else s2
  }

  ghost function Doing(s: Store, id: nat): (r: Store)
    requires Wf(s) && id < |s.tasks|
    ensures SameShape(s, r) && Wf(r)
  {
    NotifyUpdate(NotifyStarted(s, id), id)
  }

  /** A vector resized to `n`, new slots not done. */
  function Resize(slots: seq<Slot>, n: nat): (r: seq<Slot>)
    ensures |r| == n
    ensures forall k :: 0 <= k < n ==> r[k] == if k < |slots| then slots[k] else Todo
  {
    if n <= |slots| then slots[..n] else slots + seq(n - |slots|, _ => Todo)
  }

  ghost function PutSlots(s: Store, id: nat, slots: seq<Slot>, index: nat): (r: Store)
    requires Wf(s) && id < |s.tasks| && s.tasks[id].kind.Finite?
    requires forall k :: 0 <= k < |slots| ==> WfSlot(s, id, slots[k])
    ensures Wf(r)
  {
    var r := Put(s, id, s.tasks[id].(kind := Finite(slots, index)));
    assert Wf(r) by {
      forall x | 0 <= x < |r.tasks|
        ensures WfTask(r, x)
      {
        assert WfTask(s, x);
        if r.tasks[x].kind.Finite? {
          forall k | 0 <= k < |r.tasks[x].kind.slots|
            ensures WfSlot(r, x, r.tasks[x].kind.slots[k])
          {
            assert WfSlot(s, x, r.tasks[x].kind.slots[k]);
          }
        }
      }
    }
    r
  }

  /** `FiniteTask::setMax`. */
  ghost function SetMaxSlots(s: Store, id: nat, n: nat): (r: Store)
    requires Wf(s) && id < |s.tasks| && s.tasks[id].kind.Finite?
    ensures Wf(r)
  {
    assert WfTask(s, id);
    PutSlots(s, id, Resize(s.tasks[id].kind.slots, n), s.tasks[id].kind.index)
  }

  ghost function SetMax(s: Store, id: nat, n: nat, triggerUpdate: bool): (r: Store)
    requires Wf(s) && id < |s.tasks| && s.tasks[id].kind.Finite?
    ensures Wf(r) && |r.tasks| == |s.tasks|
  {
    var s1 := SetMaxSlots(s, id, n);
    if s.tasks[id].started && triggerUpdate then NotifyUpdate(s1, id) else s1
  }

  /** Gives the next free slot, if there is one, the state `slot`. */
  ghost function FillSlot(s: Store, id: nat, slot: Slot): (r: Store)
    requires Wf(s) && id < |s.tasks| && s.tasks[id].kind.Finite? && WfSlot(s, id, slot)
    ensures Wf(r)
  {
    var Finite(slots, index) := s.tasks[id].kind;
    assert WfTask(s, id);
    if index < |slots| then PutSlots(s, id, slots[index := slot], index + 1) else s
  }

  ghost function Done(s: Store, id: nat): (r: Store)
    requires Wf(s) && id < |s.tasks| && s.tasks[id].kind.Finite?
    ensures Wf(r) && |r.tasks| == |s.tasks|
  {
    NotifyUpdate(FillSlot(NotifyStarted(s, id), id, Finished), id)
  }

  ghost function AddTask(s: Store, id: nat, kind: Kind): (r: Store)
    requires Wf(s) && id < |s.tasks| && s.tasks[id].kind.Finite?
    requires kind == Finite([], 0) || kind == Variable(0, 0)
    ensures Wf(r)
  {
    var r := s.(tasks := s.tasks + [Task(Some(id), false, false, kind)]);
    assert Wf(r) by {
      forall x | 0 <= x < |r.tasks|
        ensures WfTask(r, x)
      {
        if x < |s.tasks| {
          assert WfTask(s, x);
          if r.tasks[x].kind.Finite? {
            forall k | 0 <= k < |r.tasks[x].kind.slots|
              ensures WfSlot(r, x, r.tasks[x].kind.slots[k])
            {
              assert WfSlot(s, x, r.tasks[x].kind.slots[k]);
            }
          }
        }
      }
    }
    r
  }

  /** `FiniteTask::begin`: a new sub-task, which is at the end of the store. */
  ghost function Begin(s: Store, id: nat, kind: Kind): (r: Store)
    requires Wf(s) && id < |s.tasks| && s.tasks[id].kind.Finite?
    requires kind == Finite([], 0) || kind == Variable(0, 0)
    ensures Wf(r) && |r.tasks| == |s.tasks| + 1
  {
    var s1 := AddTask(NotifyStarted(s, id), id, kind);
    NotifyUpdate(FillSlot(s1, id, Sub(|s.tasks|)), id)
  }

  ghost function SetVariable(s: Store, id: nat, current: nat, max: nat): (r: Store)
    requires Wf(s) && id < |s.tasks| && s.tasks[id].kind.Variable?
    ensures Wf(r)
  {
    var r := Put(s, id, s.tasks[id].(kind := Variable(current, max)));
    assert Wf(r) by {
      forall x | 0 <= x < |r.tasks|
        ensures WfTask(r, x)
      {
        assert WfTask(s, x);
        if r.tasks[x].kind.Finite? {
          forall k | 0 <= k < |r.tasks[x].kind.slots|
            ensures WfSlot(r, x, r.tasks[x].kind.slots[k])
          {
            assert WfSlot(s, x, r.tasks[x].kind.slots[k]);
          }
        }
      }
    }
    r
  }

  /** `VariableTask::setMax`. */
  ghost function SetMaxValue(s: Store, id: nat, max: nat, triggerUpdate: bool): (r: Store)
    requires Wf(s) && id < |s.tasks| && s.tasks[id].kind.Variable?
    ensures Wf(r) && |r.tasks| == |s.tasks|
  {
    var s1 := SetVariable(s, id, s.tasks[id].kind.current, max);
    if s.tasks[id].started && triggerUpdate then NotifyUpdate(s1, id) else s1
  }

  /** `VariableTask::update`. */
  ghost function Update(s: Store, id: nat, value: nat): (r: Store)
    requires Wf(s) && id < |s.tasks| && s.tasks[id].kind.Variable?
    ensures Wf(r) && |r.tasks| == |s.tasks|
  {
    var s1 := NotifyStarted(s, id);
    NotifyUpdate(SetVariable(s1, id, value, s.tasks[id].kind.max), id)
  }

  /** What a restart leaves alone: everything before `id`, and who is whose
      parent. */
  ghost predicate RestartFrame(s: Store, r: Store, id: nat) {
    && |r.tasks| == |s.tasks|
    && (forall x :: 0 <= x < id && x < |s.tasks| ==> r.tasks[x] == s.tasks[x])
    && (forall x :: 0 <= x < |s.tasks| ==> r.tasks[x].parent == s.tasks[x].parent)
  }

  /** The flags of a restarted task. */
  function Rewound(t: Task): Task {
    Task(t.parent, t.started && !t.completed, false,
         match t.kind
         case Finite(slots, _) => Finite(slots, 0)
         case Variable(_, max) => Variable(0, max))
  }

  ghost function Restart(s: Store, id: nat): (r: Store)
    requires Wf(s) && id < |s.tasks|
    ensures Wf(r) && RestartFrame(s, r, id)
    ensures r.tasks[id].kind.Finite? <==> s.tasks[id].kind.Finite?
    ensures r.tasks[id].kind.Finite? ==> |r.tasks[id].kind.slots| == |s.tasks[id].kind.slots|
    decreases |s.tasks| - id, |s.tasks| + 1
  {
    var s1 := Emit(Put(s, id, Rewound(s.tasks[id])), Restarted(id));
    assert Wf(s1) by { RewoundWf(s, id); }
    if s.tasks[id].kind.Finite? then RestartSlots(s1, id, 0) else s1
  }

  lemma RewoundWf(s: Store, id: nat)
    requires Wf(s) && id < |s.tasks|
    ensures Wf(Emit(Put(s, id, Rewound(s.tasks[id])), Restarted(id)))
  {
    var r := Emit(Put(s, id, Rewound(s.tasks[id])), Restarted(id));
    forall x | 0 <= x < |r.tasks|
      ensures WfTask(r, x)
    {
      assert WfTask(s, x);
      if r.tasks[x].kind.Finite? {
        forall k | 0 <= k < |r.tasks[x].kind.slots|
          ensures WfSlot(r, x, r.tasks[x].kind.slots[k])
        {
          assert WfSlot(s, x, r.tasks[x].kind.slots[k]);
        }
      }
    }
  }

  /** The slot loop of `FiniteTask::restart` from slot `i` on. */
  ghost function RestartSlots(s: Store, id: nat, i: nat): (r: Store)
    requires Wf(s) && id < |s.tasks| && s.tasks[id].kind.Finite? && i <= |s.tasks[id].kind.slots|
    ensures Wf(r) && RestartFrame(s, r, id)
    ensures r.tasks[id].kind.Finite?
    ensures |r.tasks[id].kind.slots| == |s.tasks[id].kind.slots|
    decreases |s.tasks| - id, 0, |s.tasks[id].kind.slots| - i
  {
    var Finite(slots, index) := s.tasks[id].kind;
    assert WfTask(s, id);
    if i == |slots| then s
    else match slots[i]
      case Todo => RestartSlots(s, id, i + 1)
      case Finished => RestartSlots(PutSlots(s, id, slots[i := Todo], index), id, i + 1)
      case Sub(c) =>
        assert WfSlot(s, id, slots[i]);
        RestartSlots(Restart(s, c), id, i + 1)
  }

  /** `restart` with its optional update. */
  ghost function RestartAndNotify(s: Store, id: nat, triggerUpdate: bool): (r: Store)
    requires Wf(s) && id < |s.tasks|
    ensures Wf(r) && |r.tasks| == |s.tasks|
  {
    var s1 := Restart(s, id);
    if triggerUpdate then Doing(s1, id) else s1
  }
}
