/** The task tree as the program keeps it: objects with pointers to their parents
    and sub-tasks, whose fields are updated in place. Each method is proved
    against the function of module `Progress` on the store that the objects show,
    and says which fields change and what is fired. */
module ProgressBoard {
  import opened FsmGraph
  import opened Progress
  import opened ProgressAnnouncements
  import opened ProgressCallbacks
  import ProgressCoherence
  import opened ProgressEffects
  import opened ProgressRuns

  /** 0, 1 and 2 in the program. */
  datatype SlotState = NotDone | IsDone | HasTask

  /** All tasks, the callbacks they have fired, and the store they show. */
  class Board {
    var objects: seq<ProgressTask>
    var fired: seq<Event>
    ghost var store: Store

    constructor ()
      ensures objects == [] && fired == [] && store == Store([], []) && Valid()
    {
      objects, fired, store := [], [], Store([], []);
    }

    ghost predicate Has(task: ProgressTask)
      reads this
    {
      task.id < |objects| && objects[task.id] == task
    }

    /** The object shows the task of the store at its position, and its pointers
        lead to objects of the board. */
    ghost predicate Shown(o: ProgressTask, i: nat)
      reads this, o
    {
      && i < |store.tasks|
      && o.id == i && o.board == this && o.Shows(store.tasks[i])
      && (o.parent != null ==> Has(o.parent) && o.parent.board == this)
      && (forall k :: 0 <= k < |o.taskObjects| && o.taskObjects[k] != null ==>
            Has(o.taskObjects[k]) && o.taskObjects[k].board == this)
    }

    /** All objects but one show their tasks. */
    ghost predicate PartlyValid(but: nat)
      reads this, objects
    {
      && Wf(store) && |store.tasks| == |objects| && store.log == fired
      && forall i {:trigger objects[i]} :: 0 <= i < |objects| && i != but ==> Shown(objects[i], i)
    }

    ghost predicate Valid()
      reads this, objects
    {
      && Wf(store) && |store.tasks| == |objects| && store.log == fired
      && forall i {:trigger objects[i]} :: 0 <= i < |objects| ==> Shown(objects[i], i)
    }

    /** Every task answers that it is completed exactly when its flag says so. */
    ghost predicate AnswersAgree()
      requires Valid()
      reads this, objects
    {
      forall i {:trigger objects[i]} :: 0 <= i < |objects| ==> (IsCompleted(store, i) <==> objects[i].completed)
    }

    lemma AgreeIffCoherent()
      requires Valid()
      ensures AnswersAgree() <==> Coherent(store)
    {
      forall i | 0 <= i < |objects|
        ensures objects[i].completed == store.tasks[i].completed
      {
        assert Shown(objects[i], i);
      }
      if AnswersAgree() {
        forall i | 0 <= i < |store.tasks|
          ensures IsCompleted(store, i) <==> store.tasks[i].completed
        {
          assert objects[i].completed == store.tasks[i].completed;
        }
      }
    }

    /** The flags are those of the store. */
    lemma FlagsShown()
      requires Valid()
      ensures forall i {:trigger objects[i]} :: 0 <= i < |objects| ==>
                objects[i].completed == store.tasks[i].completed && objects[i].started == store.tasks[i].started
    {
      forall i | 0 <= i < |objects|
        ensures objects[i].completed == store.tasks[i].completed && objects[i].started == store.tasks[i].started
      {
        assert Shown(objects[i], i);
      }
    }

    /** A task without a parent. */
    method AddRoot(finite: bool) returns (task: ProgressTask)
      requires Valid()
      modifies this
      ensures Valid() && Has(task) && fresh(task) && task.finite == finite && task.parent == null
      ensures objects == old(objects) + [task] && fired == old(fired)
      ensures store.tasks == old(store.tasks) + [Task(None, false, false, if finite then Finite([], 0) else Variable(0, 0))]
    {
      ghost var before := store;
      task := new ProgressTask(this, |objects|, null, finite);
      objects := objects + [task];
      store := before.(tasks := before.tasks + [Task(None, false, false, if finite then Finite([], 0) else Variable(0, 0))]);
      RootWf(before, store);
    }

    /** Any call on any task. It fires exactly what `Fires` says; the flags go on
        agreeing with what has been fired, and the answers with the flags exactly
        if the caller heeds the rules. */
    method Perform(op: Op)
      requires Valid()
      modifies this, objects
      ensures Valid() && old(objects) <= objects
      ensures forall i {:trigger objects[i]} :: |old(objects)| <= i < |objects| ==> fresh(objects[i])
      ensures store == Apply(old(store), op) && |old(store).tasks| <= |store.tasks|
      ensures old(Callable(store, op)) ==> Fires(old(store), op, store, old(fired), fired)
      ensures old(FlagsMatchLog(store)) ==>
                FlagsMatchLog(store) && forall i :: 0 <= i < |objects| ==> (objects[i].completed <==> Closed(fired, i))
      ensures old(AnswersAgree()) && old(Callable(store, op)) ==> (AnswersAgree() <==> old(Heeds(store, op)))
    {
      ghost var before := store;
      PerformKeeps(before, op);
      AgreeIffCoherent();
      if op.id < |objects| {
        assert Shown(objects[op.id], op.id);
        objects[op.id].Perform(op);
      }
      AgreeIffCoherent();
      FlagsShown();
    }
  }

  lemma WfTaskSlots(s: Store, id: nat)
    requires Wf(s) && id < |s.tasks| && s.tasks[id].kind.Finite?
    ensures forall k :: 0 <= k < |s.tasks[id].kind.slots| ==> WfSlot(s, id, s.tasks[id].kind.slots[k])
  {
    assert WfTask(s, id);
  }

  /** What one more slot adds. */
  lemma NextStep(s: Store, id: nat, step: real, i: nat)
    requires Wf(s) && id < |s.tasks| && s.tasks[id].kind.Finite? && i < |s.tasks[id].kind.slots|
    ensures var slot := s.tasks[id].kind.slots[i];
            && WfSlot(s, id, slot)
            && SumSlots(s, id, step, i + 1) == SumSlots(s, id, step, i)
                 + (if slot.Todo? then 0.0 else if slot.Finished? then step else step * GetProgress(s, slot.task))
  {
    assert WfTask(s, id);
  }

  /** What one call keeps. */
  lemma PerformKeeps(s: Store, op: Op)
    requires Wf(s)
    ensures FlagsMatchLog(s) ==> FlagsMatchLog(Apply(s, op))
    ensures Coherent(s) && Callable(s, op) ==> (Coherent(Apply(s, op)) <==> Heeds(s, op))
    ensures |s.tasks| <= |Apply(s, op).tasks|
    ensures Callable(s, op) ==> Fires(s, op, Apply(s, op), s.log, Apply(s, op).log)
  {
    if Callable(s, op) {
      CallTells(s, op);
    }
    if FlagsMatchLog(s) {
      ApplyLog(s, op);
    }
    if Coherent(s) && Callable(s, op) {
      CoherentAfterIff(s, op);
    }
  }

  lemma RootWf(s: Store, r: Store)
    requires Wf(s) && |r.tasks| == |s.tasks| + 1 && r.tasks[..|s.tasks|] == s.tasks
    requires r.tasks[|s.tasks|].parent.None? && (r.tasks[|s.tasks|].kind.Finite? ==> r.tasks[|s.tasks|].kind.slots == [])
    ensures Wf(r)
  {
    forall id | 0 <= id < |r.tasks|
      ensures WfTask(r, id)
    {
      if id < |s.tasks| {
        assert WfTask(s, id) && r.tasks[id] == s.tasks[id];
        if s.tasks[id].kind.Finite? {
          forall k | 0 <= k < |s.tasks[id].kind.slots|
            ensures WfSlot(r, id, s.tasks[id].kind.slots[k])
          {
            assert WfSlot(s, id, s.tasks[id].kind.slots[k]);
          }
        }
      }
    }
  }

  /** A finite task or a variable task: `finite` says which, and which of the
      fields below it has. */
  class ProgressTask {
    const board: Board
    const id: nat
    const parent: ProgressTask?
    const finite: bool
    var started: bool
    var completed: bool
    var tasks: seq<SlotState>
    var taskObjects: seq<ProgressTask?>
    var taskIndex: nat
    var current: nat
    var max: nat

    constructor (b: Board, position: nat, above: ProgressTask?, isFinite: bool)
      ensures board == b && id == position && parent == above && finite == isFinite
      ensures !started && !completed && tasks == [] && taskObjects == [] && taskIndex == 0 && current == 0 && max == 0
    {
      board, id, parent, finite := b, position, above, isFinite;
      started, completed, tasks, taskObjects, taskIndex, current, max := false, false, [], [], 0, 0, 0;
    }

    ghost predicate SlotShows(k: nat, slot: Slot)
      requires k < |tasks| && k < |taskObjects|
      reads this
    {
      match slot
      case Todo => tasks[k] == NotDone
      case Finished => tasks[k] == IsDone
      case Sub(c) => tasks[k] == HasTask && taskObjects[k] != null && taskObjects[k].id == c
    }

    /** The fields are those of the task. */
    ghost predicate Shows(t: Task)
      reads this
    {
      && t.parent == (if parent == null then None else Some(parent.id))
      && t.started == started && t.completed == completed
      && t.kind.Finite? == finite
      && (finite ==>
            && |t.kind.slots| == |tasks| == |taskObjects| && t.kind.index == taskIndex
            && forall k :: 0 <= k < |tasks| ==> SlotShows(k, t.kind.slots[k]))
      && (!finite ==> t.kind == Variable(current, max))
    }

    ghost predicate Ready()
      reads this, board, board.objects
    {
      board.Valid() && board.Has(this)
    }

    /** What the board says about this task and its parent. */
    lemma Known()
      requires Ready()
      ensures id < |board.store.tasks| && WfTask(board.store, id) && Shows(board.store.tasks[id])
      ensures parent != null ==> parent.board == board && parent.Ready() && parent.id < id
    {
      assert board.Shown(board.objects[id], id);
      assert WfTask(board.store, id);
    }

    /** And about one of its slots. */
    lemma KnownSlot(k: nat)
      requires Ready() && finite && k < |tasks|
      ensures id < |board.store.tasks| && board.store.tasks[id].kind.Finite?
      ensures |tasks| == |taskObjects| == |board.store.tasks[id].kind.slots|
      ensures SlotShows(k, board.store.tasks[id].kind.slots[k]) && WfSlot(board.store, id, board.store.tasks[id].kind.slots[k])
      ensures tasks[k] == HasTask ==>
                && taskObjects[k] != null && taskObjects[k].board == board && taskObjects[k].Ready() && id < taskObjects[k].id
                && board.store.tasks[id].kind.slots[k] == Sub(taskObjects[k].id)
    {
      assert board.Shown(board.objects[id], id);
      assert WfTask(board.store, id);
      assert SlotShows(k, board.store.tasks[id].kind.slots[k]);
    }

    // -------------------------------------------------------------- queries

    method CheckCompleted() returns (b: bool)
      requires Ready()
      ensures b == IsCompleted(board.store, id)
      decreases |board.objects| - id
    {
      Known();
      ghost var t := board.store.tasks[id];
      if finite {
        if completed {
          return true;
        }
        if !started {
          return false;
        }
        for i := 0 to |tasks|
          invariant forall k :: 0 <= k < i ==> SlotComplete(board.store, id, t.kind.slots[k])
        {
          KnownSlot(i);
          if tasks[i] == NotDone {
            assert !SlotComplete(board.store, id, t.kind.slots[i]);
            return false;
          } else if tasks[i] == HasTask {
            var sub := taskObjects[i].CheckCompleted();
            if !sub {
              assert !SlotComplete(board.store, id, t.kind.slots[i]);
              return false;
            }
          }
        }
        return true;
      } else {
        if !started {
          return false;
        }
        if completed {
          return true;
        }
        return current == max;
      }
    }

    /** What the first `n` slots are worth: one for each that is done, and for each
        sub-task what it reports. */
    ghost function Worth(n: nat): real
      requires Ready() && finite && n <= |tasks|
      reads this, board, board.objects
      decreases n
    {
      if n == 0 then 0.0
      else
        KnownSlot(n - 1);
        Worth(n - 1) +
        if tasks[n - 1] == IsDone then 1.0
        else if tasks[n - 1] == HasTask then GetProgress(board.store, taskObjects[n - 1].id) else 0.0
    }

    /** 1 for a task that is completed, and 0 for one that has not started or has no
        slots; otherwise the part of the maximum, or the average of the slots. */
    ghost predicate IsValue(value: real)
      requires Ready()
      reads this, board, board.objects
    {
      if completed then value == 1.0
      else if !started then value == 0.0
      else if finite then if tasks == [] then value == 0.0 else value * |tasks| as real == Worth(|tasks|)
      else max > 0 ==> value * max as real == current as real
    }

    lemma {:induction false} ShownWorth(n: nat)
      requires Ready() && finite && n <= |tasks|
      ensures id < |board.store.tasks| && board.store.tasks[id].kind.Finite? && n <= |board.store.tasks[id].kind.slots|
      ensures Worth(n) == ProgressCoherence.Worth(board.store, id, n)
      decreases n
    {
      Known();
      if n > 0 {
        KnownSlot(n - 1);
        ShownWorth(n - 1);
      }
    }

    /** The value of the task, by its fields. */
    lemma KnownProgress()
      requires Ready()
      ensures id < |board.store.tasks|
      ensures IsValue(GetProgress(board.store, id))
    {
      Known();
      if !completed && started {
        ProgressCoherence.ProgressIsAverage(board.store, id);
        if finite {
          ShownWorth(|tasks|);
        }
      }
    }

    method ReadProgress() returns (value: real)
      requires Ready()
      ensures value == GetProgress(board.store, id) && IsValue(value)
      decreases |board.objects| - id, 1
    {
      Known();
      KnownProgress();
      if completed {
        return 1.0;
      }
      if !started {
        return 0.0;
      }
      if finite {
        value := 0.0;
        if tasks != [] {
          value := AddSlots(1.0 / |tasks| as real);
        }
      } else {
        value := if max == 0 then 0.0 else current as real / max as real;
      }
    }

    /** What one turn of the loop over the slots adds. */
    lemma KnownStep(stepSize: real, i: nat)
      requires Ready() && finite && i < |tasks|
      ensures id < |board.store.tasks| && board.store.tasks[id].kind.Finite? && |board.store.tasks[id].kind.slots| == |tasks| == |taskObjects|
      ensures tasks[i] == HasTask ==>
                taskObjects[i] != null && taskObjects[i].board == board && taskObjects[i].Ready() && id < taskObjects[i].id
      ensures SumSlots(board.store, id, stepSize, i + 1) == SumSlots(board.store, id, stepSize, i)
                + (if tasks[i] == IsDone then stepSize
                   else if tasks[i] == HasTask then stepSize * GetProgress(board.store, taskObjects[i].id) else 0.0)
    {
      KnownSlot(i);
      NextStep(board.store, id, stepSize, i);
    }

    /** The loop over the slots, with a step for each. */
    method AddSlots(stepSize: real) returns (value: real)
      requires Ready() && finite
      ensures id < |board.store.tasks| && board.store.tasks[id].kind.Finite? && |board.store.tasks[id].kind.slots| == |tasks|
      ensures value == SumSlots(board.store, id, stepSize, |tasks|)
      decreases |board.objects| - id, 0
    {
      Known();
      value := 0.0;
      for i := 0 to |tasks|
        invariant value == SumSlots(board.store, id, stepSize, i)
      {
        KnownStep(stepSize, i);
        if tasks[i] == IsDone {
          value := value + stepSize;
        } else if tasks[i] == HasTask {
          var sub := taskObjects[i].ReadProgress();
          value := value + stepSize * sub;
        }
      }
    }

    // --------------------------------------------------------- single changes

    method Fire(e: Event)
      requires Ready()
      modifies board`fired, board`store
      ensures Ready() && board.store == Emit(old(board.store), e)
    {
      ghost var before := board.store;
      board.fired := board.fired + [e];
      board.store := Emit(before, e);
      SameShapeWf(before, board.store);
    }

    method SetStarted(value: bool)
      requires Ready()
      modifies this`started, board`store
      ensures Ready() && started == value
      ensures id < |old(board.store.tasks)|
      ensures board.store == Put(old(board.store), id, old(board.store).tasks[id].(started := value))
    {
      ghost var before := board.store;
      Known();
      started := value;
      board.store := Put(before, id, before.tasks[id].(started := value));
      SameShapeWf(before, board.store);
    }

    method SetCompleted(value: bool)
      requires Ready()
      modifies this`completed, board`store
      ensures Ready() && completed == value
      ensures id < |old(board.store.tasks)|
      ensures board.store == Put(old(board.store), id, old(board.store).tasks[id].(completed := value))
    {
      ghost var before := board.store;
      Known();
      completed := value;
      board.store := Put(before, id, before.tasks[id].(completed := value));
      SameShapeWf(before, board.store);
    }

    /** The slots of a finite task, as they have been set to show `slots`. */
    ghost method ShowSlots(slots: seq<Slot>)
      requires finite && board.Has(this) && board.PartlyValid(id)
      requires id < |board.store.tasks| && board.store.tasks[id].kind.Finite?
      requires ShownApartFromKind(board.store.tasks[id]) && PointersKnown()
      requires |slots| == |tasks| == |taskObjects|
      requires forall k :: 0 <= k < |slots| ==> SlotShows(k, slots[k]) && WfSlot(board.store, id, slots[k])
      modifies board`store
      ensures Ready() && board.store == PutSlots(old(board.store), id, slots, taskIndex)
    {
      ghost var before := board.store;
      board.store := PutSlots(before, id, slots, taskIndex);
    }

    ghost predicate ShownApartFromKind(t: Task)
      reads this
    {
      && t.parent == (if parent == null then None else Some(parent.id))
      && t.started == started && t.completed == completed && t.kind.Finite? == finite
    }

    ghost predicate PointersKnown()
      reads this, board
    {
      && (parent != null ==> board.Has(parent) && parent.board == board)
      && (forall k :: 0 <= k < |taskObjects| && taskObjects[k] != null ==>
            board.Has(taskObjects[k]) && taskObjects[k].board == board)
    }

    /** The next free slot, if there is one, is done. */
    method FillDone()
      requires Ready() && finite
      modifies this`tasks, this`taskIndex, board`store
      ensures Ready()
      ensures id < |old(board.store).tasks| && old(board.store).tasks[id].kind.Finite?
      ensures board.store == FillSlot(old(board.store), id, Finished)
      ensures old(taskIndex) < |old(tasks)| ==>
                tasks == old(tasks)[old(taskIndex) := IsDone] && taskIndex == old(taskIndex) + 1
      ensures old(taskIndex) >= |old(tasks)| ==> tasks == old(tasks) && taskIndex == old(taskIndex)
    {
      ghost var before := board.store;
      Known();
      ghost var slots := before.tasks[id].kind.slots;
      if taskIndex < |tasks| {
        ghost var filled := slots[taskIndex := Finished];
        tasks := tasks[taskIndex := IsDone];
        taskIndex := taskIndex + 1;
        forall k | 0 <= k < |tasks|
          ensures SlotShows(k, filled[k]) && WfSlot(before, id, filled[k])
        {
          assert old(SlotShows(k, slots[k]));
          assert WfSlot(before, id, slots[k]);
        }
        ShowSlots(filled);
      }
    }

    /** The next free slot, if there is one, holds a sub-task. */
    method FillWith(sub: ProgressTask)
      requires Ready() && finite && sub.board == board && board.Has(sub) && sub.parent == this && id < sub.id
      modifies this`tasks, this`taskObjects, this`taskIndex, board`store
      ensures Ready()
      ensures id < |old(board.store).tasks| && old(board.store).tasks[id].kind.Finite? && WfSlot(old(board.store), id, Sub(sub.id))
      ensures board.store == FillSlot(old(board.store), id, Sub(sub.id))
      ensures old(taskIndex) < |old(tasks)| ==>
                && tasks == old(tasks)[old(taskIndex) := HasTask] && taskIndex == old(taskIndex) + 1
                && |taskObjects| == |tasks| && taskObjects[old(taskIndex)] == sub
      ensures old(taskIndex) >= |old(tasks)| ==> tasks == old(tasks) && taskIndex == old(taskIndex)
    {
      ghost var before := board.store;
      Known();
      assert board.Shown(board.objects[sub.id], sub.id);
      ghost var slots := before.tasks[id].kind.slots;
      if taskIndex < |tasks| {
        ghost var filled := slots[taskIndex := Sub(sub.id)];
        tasks := tasks[taskIndex := HasTask];
        taskObjects := taskObjects[taskIndex := sub];
        taskIndex := taskIndex + 1;
        forall k | 0 <= k < |tasks|
          ensures SlotShows(k, filled[k]) && WfSlot(before, id, filled[k])
        {
          assert old(SlotShows(k, slots[k]));
          assert WfSlot(before, id, slots[k]);
        }
        ShowSlots(filled);
      }
    }

    /** A new task below this one, which no slot holds yet. */
    method NewSub(isFinite: bool) returns (sub: ProgressTask)
      requires Ready() && finite
      modifies board`objects, board`store
      ensures Ready() && fresh(sub) && board.objects == old(board.objects) + [sub]
      ensures sub.board == board && board.Has(sub) && sub.parent == this && sub.finite == isFinite && !sub.started && !sub.completed
      ensures sub.id == |old(board.store).tasks| && id < |old(board.store).tasks| && old(board.store).tasks[id].kind.Finite?
      ensures board.store == AddTask(old(board.store), id, if isFinite then Finite([], 0) else Variable(0, 0))
    {
      ghost var before := board.store;
      Known();
      sub := new ProgressTask(board, |board.objects|, this, isFinite);
      board.objects := board.objects + [sub];
      board.store := AddTask(before, id, if isFinite then Finite([], 0) else Variable(0, 0));
    }

    /** `n` slots: those that there were and still fit, and new ones not done. */
    method ResizeTasks(n: nat)
      requires Ready() && finite
      modifies this`tasks, this`taskObjects, board`store
      ensures Ready()
      ensures id < |old(board.store).tasks| && old(board.store).tasks[id].kind.Finite?
      ensures board.store == SetMaxSlots(old(board.store), id, n)
      ensures |tasks| == n
      ensures forall k :: 0 <= k < n ==> tasks[k] == if k < |old(tasks)| then old(tasks)[k] else NotDone
    {
      ghost var before := board.store;
      Known();
      ghost var slots := before.tasks[id].kind.slots;
      var len := |tasks|;
      if n < len {
        tasks := tasks[..n];
        taskObjects := taskObjects[..n];
      } else if n > len {
        tasks := tasks + seq(n - len, _ => NotDone);
        taskObjects := taskObjects + seq(n - len, _ => null);
      }
      forall k | 0 <= k < n
        ensures SlotShows(k, Resize(slots, n)[k]) && WfSlot(before, id, Resize(slots, n)[k])
      {
        if k < len {
          assert old(SlotShows(k, slots[k]));
          assert WfSlot(before, id, slots[k]);
        }
      }
      ShowSlots(Resize(slots, n));
    }

    /** A done slot is not done any more. */
    method UndoSlot(i: nat)
      requires Ready() && finite && i < |tasks| && tasks[i] == IsDone
      modifies this`tasks, board`store
      ensures Ready() && |tasks| == |old(tasks)|
      ensures id < |old(board.store).tasks| && old(board.store).tasks[id].kind.Finite? && WfTask(old(board.store), id)
      ensures var kind := old(board.store).tasks[id].kind;
              i < |kind.slots| && kind.slots[i] == Finished && board.store == PutSlots(old(board.store), id, kind.slots[i := Todo], kind.index)
    {
      ghost var before := board.store;
      Known();
      KnownSlot(i);
      ghost var slots := before.tasks[id].kind.slots;
      ghost var filled := slots[i := Todo];
      tasks := tasks[i := NotDone];
      forall k | 0 <= k < |tasks|
        ensures SlotShows(k, filled[k]) && WfSlot(before, id, filled[k])
      {
        assert old(SlotShows(k, slots[k]));
        assert WfSlot(before, id, slots[k]);
      }
      ShowSlots(filled);
    }

    method SetIndex(value: nat)
      requires Ready() && finite
      modifies this`taskIndex, board`store
      ensures Ready() && taskIndex == value
      ensures id < |old(board.store).tasks| && old(board.store).tasks[id].kind.Finite?
      ensures board.store == Put(old(board.store), id,
                old(board.store).tasks[id].(kind := old(board.store).tasks[id].kind.(index := value)))
    {
      ghost var before := board.store;
      Known();
      taskIndex := value;
      WfTaskSlots(before, id);
      board.store := PutSlots(before, id, before.tasks[id].kind.slots, value);
    }

    /** The fields of a restarted task, but for its slots. */
    method Reset()
      requires Ready()
      modifies this`started, this`completed, this`taskIndex, this`current, board`store
      ensures Ready()
      ensures id < |old(board.store).tasks| && board.store == Put(old(board.store), id, Rewound(old(board.store).tasks[id]))
    {
      Known();
      if completed {
        SetStarted(false);
      }
      SetCompleted(false);
      Known();
      if finite {
        SetIndex(0);
      } else {
        SetCurrent(0);
      }
    }

    method SetCurrent(value: nat)
      requires Ready() && !finite
      modifies this`current, board`store
      ensures Ready() && current == value
      ensures id < |old(board.store).tasks| && old(board.store).tasks[id].kind.Variable?
      ensures board.store == SetVariable(old(board.store), id, value, old(board.store).tasks[id].kind.max)
    {
      ghost var before := board.store;
      Known();
      current := value;
      board.store := SetVariable(before, id, value, max);
    }

    method SetMaximum(value: nat)
      requires Ready() && !finite
      modifies this`max, board`store
      ensures Ready() && max == value
      ensures id < |old(board.store).tasks| && old(board.store).tasks[id].kind.Variable?
      ensures board.store == SetVariable(old(board.store), id, old(board.store).tasks[id].kind.current, value)
    {
      ghost var before := board.store;
      Known();
      max := value;
      board.store := SetVariable(before, id, current, value);
    }

    // -------------------------------------------------------- notifications

    /** Starts the task and its ancestors up to the first that has started, tells
        exactly their listeners, and changes nothing else. */
    method NotifyStarted()
      requires Ready()
      modifies board`fired, board`store, board.objects`started
      ensures Ready()
      ensures board.store == Progress.NotifyStarted(old(board.store), id)
      ensures started
      ensures forall i {:trigger board.objects[i]} :: 0 <= i < |board.objects| ==>
                board.objects[i].started == (old(board.objects[i].started) || i in Woken(old(board.store), id))
      ensures Told(old(board.fired), board.fired, Woken(old(board.store), id), TellsStart())
      decreases id
    {
      ghost var before := board.store;
      Known();
      if !started {
        SetStarted(true);
        Fire(Started(id));
        if parent != null {
          Known();
          parent.NotifyStarted();
        }
      }
      Known();
      StartingWakes(before, id);
      StartingTells(before, id);
      board.FlagsShown();
    }

    /** Marks the task unless it is marked, and then updates its parent. */
    method NotifyCompleted()
      requires Ready()
      modifies board`fired, board`store, board.objects`completed
      ensures Ready()
      ensures board.store == Progress.NotifyCompleted(old(board.store), id)
      ensures completed
      ensures old(completed) ==> board.store == old(board.store)
      decreases id, 0
    {
      ghost var before := board.store;
      Known();
      if !completed {
        SetCompleted(true);
        Fire(Progressed(id, 1.0));
        Fire(Completed(id));
        if parent != null {
          Known();
          ghost var s1 := board.store;
          parent.NotifyUpdate();
          UpdateKeepsBelow(s1, parent.id, id);
          Known();
        }
      }
    }

    /** Marks the task if it is complete, and then its ancestors as far as that
        makes them complete; tells the listeners on the way exactly what their
        tasks then report, and changes the answer of no task. */
    method NotifyUpdate()
      requires Ready()
      modifies board`fired, board`store, board.objects`completed
      ensures Ready()
      ensures board.store == Progress.NotifyUpdate(old(board.store), id)
      ensures Announces(old(board.store), board.store, Path(old(board.store), id))
      ensures board.fired == old(board.fired) + Announced(board.store, Climb(old(board.store), board.store, id))
      ensures IsCompleted(board.store, id) ==> completed
      ensures forall i {:trigger board.objects[i]} :: 0 <= i < |board.objects| ==>
                board.objects[i].completed == (old(board.objects[i].completed) || Marked(old(board.store), board.store, i))
      decreases id, 1
    {
      ghost var before := board.store;
      Known();
      var complete := CheckCompleted();
      if complete {
        NotifyCompleted();
      } else {
        var value := ReadProgress();
        Fire(Progressed(id, value));
        if parent != null {
          Known();
          parent.NotifyUpdate();
        }
      }
      UpdateAnnounces(before, id);
      UpdateTells(before, id);
      Known();
      board.FlagsShown();
    }

    /** Tells the listeners of the task and of all its ancestors of a failure. */
    method NotifyFailed(origin: nat)
      requires Ready()
      modifies board`fired, board`store
      ensures Ready()
      ensures board.store == Progress.NotifyFailed(old(board.store), id, origin)
      ensures Told(old(board.fired), board.fired, Path(old(board.store), id), TellsFailure(origin))
      decreases id
    {
      ghost var before := board.store;
      Known();
      Fire(Failed(id, origin));
      if parent != null {
        Known();
        parent.NotifyFailed(origin);
      }
      FailureClimbs(before, id, origin);
    }

    // ------------------------------------------------------------ operations

    method Complete()
      requires Ready()
      modifies board`fired, board`store, board.objects`completed
      ensures Ready()
      ensures board.store == Progress.Complete(old(board.store), id)
      ensures completed
    {
      NotifyCompleted();
    }

    /** Marks the task; it and all its ancestors report the failure, and nobody
        else does. */
    method Fail()
      requires Ready()
      modifies board`fired, board`store, board.objects`completed
      ensures Ready()
      ensures board.store == Progress.Fail(old(board.store), id)
      ensures completed && old(board.fired) <= board.fired
      ensures forall x: nat, origin: nat ::
                Failed(x, origin) in board.fired[|old(board.fired)|..] <==> origin == id && x in Path(old(board.store), id)
    {
      ghost var before := board.store;
      Known();
      SetCompleted(true);
      NotifyFailed(id);
      if parent != null {
        Known();
        parent.NotifyUpdate();
      }
      FailingMarks(before, id);
      Known();
    }

    /** Starts the task and announces where it is. */
    method Doing()
      requires Ready()
      modifies board`fired, board`store, board.objects`started, board.objects`completed
      ensures Ready()
      ensures board.store == Progress.Doing(old(board.store), id)
      ensures started && (IsCompleted(board.store, id) ==> completed)
    {
      NotifyStarted();
      NotifyUpdate();
    }

    /** The slots that there were and still fit, and new ones that are not done. */
    method SetMaxTasks(n: nat, triggerUpdate: bool)
      requires Ready() && finite
      modifies board`fired, board`store, this`tasks, this`taskObjects, board.objects`completed
      ensures Ready()
      ensures board.store == SetMax(old(board.store), id, n, triggerUpdate)
      ensures |tasks| == n
      ensures forall k :: 0 <= k < n ==> tasks[k] == if k < |old(tasks)| then old(tasks)[k] else NotDone
      ensures if old(started) && triggerUpdate then IsCompleted(board.store, id) ==> completed
              else board.fired == old(board.fired) && completed == old(completed)
    {
      ResizeTasks(n);
      if started && triggerUpdate {
        NotifyUpdate();
      }
    }

    /** The next free slot, if there is one, is done. */
    method Done()
      requires Ready() && finite
      modifies board`fired, board`store, this`tasks, this`taskIndex, board.objects`started, board.objects`completed
      ensures Ready()
      ensures board.store == Progress.Done(old(board.store), id)
      ensures started && (IsCompleted(board.store, id) ==> completed)
      ensures old(taskIndex) < |old(tasks)| ==>
                tasks == old(tasks)[old(taskIndex) := IsDone] && taskIndex == old(taskIndex) + 1
      ensures old(taskIndex) >= |old(tasks)| ==> tasks == old(tasks) && taskIndex == old(taskIndex)
    {
      NotifyStarted();
      FillDone();
      NotifyUpdate();
    }

    /** A new task below this one, held by the next free slot if there is one. */
    method Begin(isFinite: bool) returns (sub: ProgressTask)
      requires Ready() && finite
      modifies board, board.objects
      ensures Ready() && fresh(sub) && board.objects == old(board.objects) + [sub]
      ensures board.store == Progress.Begin(old(board.store), id, if isFinite then Finite([], 0) else Variable(0, 0))
      ensures board.Has(sub) && sub.parent == this && sub.finite == isFinite && !sub.started && !sub.completed
      ensures started && (IsCompleted(board.store, id) ==> completed)
      ensures old(taskIndex) < |old(tasks)| ==>
                && tasks == old(tasks)[old(taskIndex) := HasTask] && taskObjects[old(taskIndex)] == sub
                && taskIndex == old(taskIndex) + 1
      ensures old(taskIndex) >= |old(tasks)| ==> tasks == old(tasks) && taskIndex == old(taskIndex)
    {
      NotifyStarted();
      sub := NewSub(isFinite);
      FillWith(sub);
      NotifyUpdate();
      sub.Known();
    }

    method SetMaxValue(value: nat, triggerUpdate: bool)
      requires Ready() && !finite
      modifies board`fired, board`store, this`max, board.objects`completed
      ensures Ready()
      ensures board.store == Progress.SetMaxValue(old(board.store), id, value, triggerUpdate)
      ensures max == value
      ensures if old(started) && triggerUpdate then IsCompleted(board.store, id) ==> completed
              else board.fired == old(board.fired) && completed == old(completed)
    {
      SetMaximum(value);
      if started && triggerUpdate {
        NotifyUpdate();
      }
    }

    /** Starts the task and sets its value. */
    method Update(value: nat)
      requires Ready() && !finite
      modifies board`fired, board`store, this`current, board.objects`started, board.objects`completed
      ensures Ready()
      ensures board.store == Progress.Update(old(board.store), id, value)
      ensures started && current == value && (IsCompleted(board.store, id) ==> completed)
    {
      Known();
      NotifyStarted();
      Known();
      SetCurrent(value);
      NotifyUpdate();
    }

    /** Puts the task and all tasks that its slots hold, at any depth, back to
        their beginning, and no others. */
    method Restart(triggerUpdate: bool)
      requires Ready()
      modifies board`fired, board`store, board.objects`started, board.objects`completed, board.objects`tasks, board.objects`taskIndex, board.objects`current
      ensures Ready()
      ensures board.store == RestartAndNotify(old(board.store), id, triggerUpdate)
      ensures !triggerUpdate ==> RewoundExactly(old(board.store), board.store, Reached(old(board.store), id))
      decreases |board.objects| - id
    {
      ghost var before := board.store;
      Known();
      Reset();
      Fire(Restarted(id));
      if finite {
        RestartTasks(before);
      }
      RestartReaches(before, id);
      if triggerUpdate {
        if !started {
          NotifyStarted();
        } else {
          Known();
        }
        NotifyUpdate();
      }
    }

    /** The loop over the slots. */
    method RestartTasks(ghost before: Store)
      requires Ready() && finite
      requires Wf(before) && |before.tasks| == |board.store.tasks|
      requires board.store == Emit(Put(before, id, Rewound(before.tasks[id])), Restarted(id)) && before.tasks[id].kind.Finite?
      modifies board`fired, board`store, board.objects`started, board.objects`completed, board.objects`tasks, board.objects`taskIndex, board.objects`current
      ensures Ready()
      ensures board.store == Progress.Restart(before, id)
      decreases |board.objects| - id, 0
    {
      Known();
      var len := |tasks|;
      var i := 0;
      while i < len
        invariant 0 <= i <= len && Ready() && |tasks| == len
        invariant board.store.tasks[id].kind.Finite? && |board.store.tasks[id].kind.slots| == len
        invariant RestartSlots(board.store, id, i) == Progress.Restart(before, id)
      {
        i := RestartSlot(i);
        Known();
      }
    }

    /** One turn of the loop. */
    method RestartSlot(i: nat) returns (next: nat)
      requires Ready() && finite && i < |tasks|
      requires board.store.tasks[id].kind.Finite? && i < |board.store.tasks[id].kind.slots|
      modifies board`fired, board`store, board.objects`started, board.objects`completed, board.objects`tasks, board.objects`taskIndex, board.objects`current
      ensures Ready() && next == i + 1
      ensures board.store.tasks[id].kind.Finite?
      ensures |board.store.tasks[id].kind.slots| == |old(board.store.tasks[id].kind.slots)|
      ensures RestartSlots(board.store, id, next) == RestartSlots(old(board.store), id, i)
      decreases |board.objects| - id, 0, 0
    {
      KnownSlot(i);
      Known();
      if tasks[i] == IsDone {
        UndoSlot(i);
      } else if tasks[i] == HasTask {
        taskObjects[i].Restart(false);
      }
      next := i + 1;
    }

    /** Calls the method of the task that an operation names, if it has it. */
    method Perform(op: Op)
      requires Ready() && op.id == id
      modifies board, board.objects
      ensures Ready() && old(board.objects) <= board.objects
      ensures forall i {:trigger board.objects[i]} :: |old(board.objects)| <= i < |board.objects| ==> fresh(board.objects[i])
      ensures board.store == Apply(old(board.store), op)
    {
      Known();
      match op
      case CompleteOf(_) => Complete();
      case FailOf(_) => Fail();
      case DoingOf(_) => Doing();
      case RestartOf(_, trigger) => Restart(trigger);
      case _ =>
        if finite {
          PerformFinite(op);
        } else {
          PerformVariable(op);
        }
    }

    method PerformFinite(op: Op)
      requires Ready() && op.id == id && finite
      requires !(op.CompleteOf? || op.FailOf? || op.DoingOf? || op.RestartOf?)
      modifies board, board.objects
      ensures Ready() && old(board.objects) <= board.objects
      ensures forall i {:trigger board.objects[i]} :: |old(board.objects)| <= i < |board.objects| ==> fresh(board.objects[i])
      ensures board.store == Apply(old(board.store), op)
    {
      Known();
      match op
      case SetMaxOf(_, n, trigger) => SetMaxTasks(n, trigger);
      case DoneOf(_) => Done();
      case BeginFinite(_) => var _ := Begin(true);
      case BeginVariable(_) => var _ := Begin(false);
      case _ =>
    }

    method PerformVariable(op: Op)
      requires Ready() && op.id == id && !finite
      requires !(op.CompleteOf? || op.FailOf? || op.DoingOf? || op.RestartOf?)
      modifies board, board.objects
      ensures Ready() && board.objects == old(board.objects)
      ensures board.store == Apply(old(board.store), op)
    {
      Known();
      match op
      case SetMaxValueOf(_, value, trigger) => SetMaxValue(value, trigger);
      case UpdateOf(_, value) => Update(value);
      case _ =>
    }
  }

  /** Any run on a tree of objects that starts with one finite task: the flags of
      all objects agree with what has been fired, and if the run is heedful the
      answers of all objects agree with their flags. */
  method Play(ops: seq<Op>) returns (board: Board)
    ensures board.Valid() && board.store == Run(NewRoot(), ops)
    ensures forall i :: 0 <= i < |board.objects| ==> (board.objects[i].completed <==> Closed(board.fired, i))
    ensures HeedfulRun(ops) ==> board.AnswersAgree()
  {
    board := new Board();
    var _ := board.AddRoot(true);
    assert board.store == NewRoot();
    assert ops[..0] == [];
    for n := 0 to |ops|
      invariant fresh(board) && (forall i {:trigger board.objects[i]} :: 0 <= i < |board.objects| ==> fresh(board.objects[i]))
      invariant board.Valid() && board.store == Run(NewRoot(), ops[..n])
    {
      assert ops[..n + 1][..n] == ops[..n];
      board.Perform(ops[n]);
    }
    assert ops[..|ops|] == ops;
    RunLog(ops);
    NoAnnouncementLostIff(ops);
    board.AgreeIffCoherent();
    board.FlagsShown();
  }
}
