# libcernvm: a verified model of its core

This project models the parts of the CernVM library whose correctness is least
obvious from reading them, and proves what they are for:

* **The auto-routed finite-state machine** (`Graph`, `RouteSearch`, `Steering`,
  `SteeringRuns`, `Machine`, `Drain`, `PauseProtocol`). The clipped depth-first
  search of `FSMGoto` is proved to return the one best route: a shortest walk,
  and of the shortest the one that follows the links registered first. The
  steering calls are functions on a state, with handlers given as arbitrary
  scripts of calls, so what is proved holds whatever a handler does; the class
  `SimpleFSM` updates its fields step by step and is proved equal to them.
* **The VirtualBox session on top of it** (`VBoxGraph`, `VBoxRegistry`,
  `VBoxSession`): the graph its constructor registers, which orders of actions
  are possible in any run, which commands find a route, and how often errors
  are healed.
* **Progress feedback** (`Progress`, `ProgressBoard`, `ProgressRuns`,
  `ProgressEffects`, `ProgressCallbacks`, `ProgressCoherence`,
  `ProgressAnnouncements`): trees of finite and variable tasks, as objects that
  point to each other, with notifications that climb the parents.
* **ThinIPC messages** (`ThinIPC`): the typed buffer, the chunks it is cut into
  and the receiver that puts them together.
* **Configuration** (`Parameters`, `LocalConfig`, `ConfigSync`): parameter
  groups in one flat map, the text format with its escapes, and the two-sided
  merge.
* **Codecs** (`Base64`, `SplitArguments`, with `Strings` and `Octets`).

Code that works step by step is a class or a method with loops, proved against
a specification function; the properties are lemmas about those functions.

## What turned out differently from what the code suggests

Each of these has an exact condition, and a lemma at a concrete input.

* `FSMJump` keeps `fsmGotoMutex`, which is not recursive, while it runs the
  handler. The call never returns if and only if the handler goes or jumps
  anywhere itself (`SteeringRuns.JumpHangsIff`, `SteeringRuns.JumpThatHangs`).
* A step leaves `fsmInsideHandler` set if and only if its handler throws anything
  but an interruption (`SteeringRuns.WedgesIffThrows`,
  `SteeringRuns.ThrowThatWedges`). From then on no node is entered, until a
  handler that was jumped to is interrupted (`SteeringRuns.WedgedRun`).
* `FSMGoto(101)`, with which a session is opened, finds a route only from the
  nodes 1, 2, 100, 102 and 103 (`VBoxGraph.OpenFindsARouteIff`).
* When `FSMGoto` finds no route, or one without handlers, a meter that had
  started and was open answers that it is completed, while its flag is clear and
  no listener has been told (`Drain.MeterWithoutHandlers`).
* A variable task that is completed or failed before it starts reports progress
  1 and answers that it is not completed
  (`ProgressCoherence.FullIffCompletedExactly`,
  `ProgressAnnouncements.CompletedBeforeItStarts`).
* A task can be complete without anybody being told, for instance after a started
  task has been shrunk to its done slots without an update
  (`ProgressAnnouncements.ShrinkingLosesOne`). For each call it is proved exactly
  when that happens (`ProgressAnnouncements.CoherentAfterIff`).
* A ThinIPC message of the chunk capacity, or of one byte less, does not arrive
  (`ThinIPC.FaithfulIff`, `ThinIPC.MessageOfTheCapacityIsLost`); `readInt` on a
  platform with 8-byte `long` returns what was written only if the next four
  bytes happen to continue its sign (`ThinIPC.LongReadBackIff`,
  `ThinIPC.FirstOfTwoIntsIsLost`).
* A write that would take a ThinIPC message past 32767 bytes writes nothing, but
  `writeShort` and `writeString` leave a size that is not that of the buffer
  (`ThinIPC.Message.WriteShort`, `ThinIPC.Message.WriteString`).
* `LocalConfig::save` and `load` return false even when they succeed, since an
  inner variable shadows the answer; so they do not empty `keysDeleted` either
  (`ConfigSync.Config.Save`, `ConfigSync.Config.Load`).
* A second `sync` after a merge changes memory again exactly when some printed
  line spells a key that memory does not have, which takes a key with `=` or a
  newline (`ConfigSync.SyncTwice`, `ConfigSync.SecondMergeAddsAKey`).
* Locking a parameter group again while it is locked and changed forgets the
  changes: the unlock does not commit them (`Parameters.NothingForgottenIff`,
  `Parameters.SecondLockForgets`).
* Unlocking a parameter group that is not locked commits again what an earlier
  unlock has committed, as the mark of a change is left set
  (`Parameters.BookIsHistory`).
* A key that was erased is not in memory after a merging `sync`, but it is read
  back from the file if the line of another key spells it, which takes a key with
  `=` or a newline (`ConfigSync.Config.EditAndSync`).
* The loop of `splitArguments` never ends exactly when the line ends inside an
  open quote with a space or a quote of the other kind after the opening
  (`SplitArguments.NeverEndsIff`, `SplitArguments.OpenQuoteNeverEnds`).
* `VBoxSession::CheckIntegrity` would skew to node 210
  (src/Hypervisor/Virtualbox/VBoxSession.cpp:1215), but it is the handler of no
  node, so it never runs in the machine.

## Model

| member | source | states |
|---|---|---|
| `RouteSearch.FindRoute` | src/SimpleFSM.cpp:275-281 | The search `FSMGoto` starts returns a path if and only if the target is another node that can be reached, and then the unique best route: simple, along links, no longer than any walk, and lexicographically first by link order among the shortest. |
| `RouteSearch.Search.FindShortestPath` | src/SimpleFSM.cpp:207-254 | One activation, with the clip length and best path it shares: either no completion of its prefix is short enough to matter and nothing changes, or the best of all completions has become the best path. It terminates by the number of nodes less the prefix. |
| `RouteSearch.SearchNextChild` | src/SimpleFSM.cpp:215-252 | Clipping a child's search never loses a better route, and a later route of equal length never replaces an earlier one. |
| `RouteSearch.TargetIsNextChild` | src/SimpleFSM.cpp:227-247 | The early return at a child that is the target discards nothing: that path beats every other completion. |
| `RouteSearch.SearchedIsRoute` | src/SimpleFSM.cpp:275-284 | What the finished search over simple completions says about all walks between the two nodes. |
| `FsmGraph.BestRouteUnique` | src/SimpleFSM.cpp:203-206 | There is at most one best route, so the route is a function of the graph. |
| `FsmGraph.RouteExistsIff` | src/SimpleFSM.cpp:203-206 | A best route exists exactly when the target is another node and reachable. |
| `FsmGraph.Shorten` | src/SimpleFSM.cpp:222-224 | Skipping visited nodes loses nothing: every walk can be shortened to a simple one between the same ends, strictly if it was not simple. |
| `FsmGraph.SimpleFits` | src/SimpleFSM.cpp:276 | The initial clip length is no restriction: a simple path has at most as many nodes as are registered. |
| `Machine.ReadLinks` | src/SimpleFSM.cpp:59-65 | The variable arguments of a registration are read up to the first 0. |
| `Machine.LinkNodes` | src/SimpleFSM.cpp:80-98 | The double loop of `FSMRegistryEnd` gives each node exactly the children it was registered with, in order. |
| `Machine.SimpleFSM.RegistryBegin` | src/SimpleFSM.cpp:34-43 | Empties the registry and the path and forgets the root and the current node; no other field changes. |
| `Machine.SimpleFSM.RegistryAdd` | src/SimpleFSM.cpp:48-68 | A node is registered without children and its links are kept aside; registering an id again replaces both. |
| `Machine.SimpleFSM.RegistryEnd` | src/SimpleFSM.cpp:73-111 | Links the nodes and puts the machine at the root; the result is well formed if every link was registered. |
| `Machine.SimpleFSM.Register` | include/CernVM/SimpleFSM.h:59-68 | The registry macros around any list of declarations give the graph of those declarations, the last one for an id winning. |
| `Machine.SimpleFSM.RecalibrateProgress` | src/SimpleFSM.cpp:299-318 | Counting handlers on the path, restarting and resizing the meter is the function `Recalibrate`. |
| `Machine.SimpleFSM.FSMGoto` | src/SimpleFSM.cpp:261-339 | The whole new state is that of `Goto`, where the path is the best route, stripped. |
| `Machine.SimpleFSM.FSMSkew` | src/SimpleFSM.cpp:390-421 | The whole new state is that of `Skew`: with work pending, the path is the best route from the skewed node, which stays on it, to the old target, or empty if there is none; with nothing pending it stays empty; a state that is not registered changes nothing. |
| `Machine.SimpleFSM.CallHandlerOfCurrent` | src/SimpleFSM.cpp:116-156 | Running a handler script in place, with its three outcomes, is `CallHandler`; it succeeds exactly if the handler returned, and raises exactly for an interruption in the thread of the machine. |
| `Machine.SimpleFSM.TakeNext` | src/SimpleFSM.cpp:165-191 | The loop over state nodes and the change of the current node are `Take`. |
| `Machine.SimpleFSM.FSMContinue` | src/SimpleFSM.cpp:161-201 | The whole new state and the answer are those of `Continue`. |
| `Machine.SimpleFSM.FSMJump` | src/SimpleFSM.cpp:345-384 | The whole new state is that of `Jump`, including the mutex that stays taken. |
| `Machine.SimpleFSM.PerformAll` | src/SimpleFSM.cpp:161-421 | Any sequence of calls, with calls from inside handlers, leaves the fields as `ExecAll` says; so the theorems about `ExecAll` hold of the class. |
| `SteeringRuns.EveryRunIsSound` | src/SimpleFSM.cpp:161-201 | Over every run from the registered machine, whatever handlers do: each event follows from the ones before it, and between calls a pending path is a chain of links that ends at the target and starts at a child of the current node, or at the current node after a skew. |
| `SteeringRuns.EntersOverLinks` | src/SimpleFSM.cpp:176-191 | In every run, a node is entered over a link from the node the machine was at, unless a skew has just put it there. |
| `SteeringRuns.HandlersRunOnEntry` | src/SimpleFSM.cpp:193-195 | In every run, a handler runs only straight after its node was entered or jumped to. |
| `SteeringRuns.SkewSteady` | src/SimpleFSM.cpp:390-421 | A skew keeps the invariant on trace and pending path. |
| `SteeringRuns.SkewReroutes` | src/SimpleFSM.cpp:390-421 | What a skew does to the path: an empty one stays empty; any other becomes the best route from the skewed node, with that node first, to the old target, or is cleared if there is none. |
| `SteeringRuns.JumpHangsIff` | src/SimpleFSM.cpp:349-377 | A jump never returns if and only if its node has a handler that itself goes or jumps. |
| `SteeringRuns.JumpThatHangs` | src/SimpleFSM.cpp:349-377 | A graph of two nodes and a handler for which it does not return. |
| `SteeringRuns.SinksNeverHang` | src/SimpleFSM.cpp:345-384 | If no handler of a jump goes or jumps, no run hangs and the mutex is free after it. |
| `SteeringRuns.WedgesIffThrows` | src/SimpleFSM.cpp:126-153 | After a step that returns, with a handler that does not jump to one that is interrupted, `fsmInsideHandler` is set if and only if the handler threw, and the step has succeeded if and only if it returned. |
| `SteeringRuns.StepAnswers` | src/SimpleFSM.cpp:116-156 | What a step with a handler answers: it succeeds exactly if the handler returned, raises exactly for an interruption in the thread of the machine, and fails otherwise. |
| `SteeringRuns.JumpAnswers` | src/SimpleFSM.cpp:363-384 | A jump that returns raises exactly if it ran a handler that was interrupted. |
| `SteeringRuns.CallsFreeMutex` | src/SimpleFSM.cpp:261-384 | Every run that returns leaves `fsmGotoMutex` free. |
| `SteeringRuns.ThrowThatWedges` | src/SimpleFSM.cpp:142-150 | A run from the registered machine that leaves the flag set. |
| `SteeringRuns.WedgedCall` | src/SimpleFSM.cpp:126-130 | With the flag left set no call enters a node, and exactly one kind of call clears it: a jump whose handler is interrupted. |
| `SteeringRuns.WedgedRun` | src/SimpleFSM.cpp:163-164 | So over every run without an interrupted jump, every `FSMContinue` of the run returns false and no node is entered. |
| `Drain.DrainPath` | src/SimpleFSM.cpp:438-452 | Calling `FSMContinue` until it returns false empties any pending path, with a script of its own for each handler: every node entered in order, only the last reported as final, every handler run once. |
| `Drain.GotoReachesTarget` | src/SimpleFSM.cpp:287-294 | After a successful `FSMGoto`, that visits exactly the route after its first node and stops at the target within as many steps as the route has links, whatever each of the handlers reports. |
| `Drain.SkewReachesTarget` | src/SimpleFSM.cpp:390-421 | After a skew with work pending, following the path enters the skewed node first, runs its handler, goes on along the best route and stops at the old target. |
| `Drain.HandlerRedirects` | src/SimpleFSM.cpp:193-199 | A handler that goes somewhere from inside, after any calls and before reports: when the step is over the machine is where those calls have left it, and what is pending is the best route from there. |
| `Drain.ContinueTakes` | src/SimpleFSM.cpp:161-201 | One step takes the path up to its next handler, and what is still to be visited does not change. |
| `Drain.RecalibrateMeters` | src/SimpleFSM.cpp:312-316 | `FSMGoto` gives the meter one clean slot for each handler ahead, if it held no sub-tasks before. |
| `Drain.DoneAdvances` | src/ProgressFeedback.cpp:355-380 | One `FSMDone` fills the next slot, and the completion is fired by the last one only. |
| `Drain.MeteredReports` | src/ProgressFeedback.cpp:287-322 | A meter that has started reports the done part of its slots. |
| `Drain.DoingKeepsMeter` | src/ProgressFeedback.cpp:79-90 | `FSMDoing`, any number of times, leaves the slots and the completion of the meter as they are. |
| `Drain.MeterCompletesWithLastHandler` | src/SimpleFSM.cpp:299-318 | If the meter holds no sub-tasks and a handler is on the route: after `FSMGoto`, and however many steps later with handlers that each report done once and otherwise only what they are doing, the meter is completed exactly when no handler is left ahead, its completion has been fired once from then on and never before, and it reports the part of the handlers that have run. |
| `Drain.MeterWithoutHandlers` | src/SimpleFSM.cpp:299-318 | If no handler is on the route, or there is no route: the flag of the meter is clear, nothing has been fired, and it answers that it is completed exactly when it had started and was open. |
| `PauseProtocol.NextKeeps` | src/SimpleFSM.cpp:426-554 | Every step of any thread keeps the invariant: one holder of the mutex, nothing pending while it looks for a route, no lost work, no sleeper with the flag cleared and nobody to notify it, and a path that leads to the last target. |
| `PauseProtocol.RunSteps` | src/SimpleFSM.cpp:426-554 | The invariant holds after every interleaving of steps of any number of threads. |
| `PauseProtocol.SleepsOnlyWhenDrained` | src/SimpleFSM.cpp:513-537 | In every interleaving, when the worker sleeps and no thread is between publishing a route and its wakeup, the path is empty, although the flag is set again without the lock. |
| `PauseProtocol.SleepsAtTheTarget` | src/SimpleFSM.cpp:433-461 | And then the machine is at the target, if the last thing that steered was an `FSMGoto` that found a route. |
| `PauseProtocol.WorkerSettles` | src/SimpleFSM.cpp:433-537 | From every reachable state in which nobody steers, the worker alone visits all that is pending, and then sleeps with the flag set, within 8 steps for each pending node and 7 more. |
| `PauseProtocol.GotoDrivesWorker` | src/SimpleFSM.cpp:261-322 | After any interleaving, one whole `FSMGoto` of a thread is enough: whatever the worker was about to do, it visits the best route, stops at the target and sleeps again; without a route it only sleeps. |
| `PauseProtocol.PausesOnlyWhenDone` | src/SimpleFSM.cpp:433-537 | The worker turns to its pause only from an `FSMContinue` that finds an empty path, and `fsmtPaused` is set nowhere else. |
| `PauseProtocol.SleeperTestsAgain` | src/SimpleFSM.cpp:517-532 | A sleeper that wakes tests the flag again, and sleeps on exactly if it is set. |
| `PauseProtocol.SteeringMoves` | src/SimpleFSM.cpp:345-421 | Skews and jumps take effect at once in any thread that may steer. |
| `VBoxRegistry.ConstructorGivesGraph` | include/CernVM/Hypervisor/Virtualbox/VBoxSession.h:57-120 | The declarations of the constructor, in its order and with its repeated one, give the graph of `VBoxGraph`. |
| `VBoxRegistry.NewSessionMachine` | include/CernVM/Hypervisor/Virtualbox/VBoxSession.h:53-120 | Filling the registry leaves a machine with that graph, at its entry point. |
| `VBoxGraph.VBoxWellFormed` | include/CernVM/Hypervisor/Virtualbox/VBoxSession.h:57-120 | Every link of the graph is registered. |
| `VBoxGraph.DestroyOnlyAfterRelease` | include/CernVM/Hypervisor/Virtualbox/VBoxSession.h:83-85 | In every run that skews only to 2-7 and 107 and jumps only to 112, DestroyVM is entered only straight after ReleaseVMBoot, and that straight after ReleaseVMScratch. |
| `VBoxGraph.StartOnlyAfterVMAPI` | include/CernVM/Hypervisor/Virtualbox/VBoxSession.h:92-106 | In every such run, StartVM is entered only straight after ConfigureVMAPI or CheckVMAPI. |
| `VBoxGraph.CallsAllowed` | src/Hypervisor/Virtualbox/VBoxSession.cpp:1945-1953 | If the calls of a run, at any depth, skew and jump only where a session does, so do its events. |
| `VBoxGraph.CommandsFindARoute` | src/Hypervisor/Virtualbox/VBoxSession.cpp:1596-1710 | From every node but the fatal error sink, each command (to states 3 to 7) finds a route, unless the machine is there. |
| `VBoxGraph.OpenFindsARouteIff` | src/Hypervisor/Virtualbox/VBoxSession.cpp:1580 | `FSMGoto(101)` finds a route exactly from the nodes before the session state is known and those of the error sequence. |
| `VBoxGraph.FatalIsFinal` | include/CernVM/Hypervisor/Virtualbox/VBoxSession.h:117-118 | Once in the fatal error sink, no sequence of calls without a skew or jump moves the machine. |
| `VBoxSession.Session.ErrorOccured` | src/Hypervisor/Virtualbox/VBoxSession.cpp:2133-2167 | The new counters and the new state of the machine: the meter fails, and then the error is answered by a skew through 2 or a jump to 112; nothing happens while aborting. |
| `VBoxSession.CountIsBurstLength` | src/Hypervisor/Virtualbox/VBoxSession.cpp:2144-2165 | Over every sequence of error times, the error count is the length of the current burst. |
| `VBoxSession.HealsExactlyTheFirstOfABurst` | src/Hypervisor/Virtualbox/VBoxSession.cpp:2148-2162 | An error is answered by a skew if and only if it is among the first two of its burst; every further one jumps to the sink. |
| `VBoxSession.ClockSetBackHeals` | src/Hypervisor/Virtualbox/VBoxSession.cpp:2140-2162 | A clock that has been set back makes the elapsed time wrap, and the error starts a new burst. |
| `VBoxSession.HealedErrorSkews` | src/Hypervisor/Virtualbox/VBoxSession.cpp:2148-2162 | An error that is healed puts the machine at node 2, and leads from there to the old target if it was on its way. |
| `VBoxSession.OtherErrorJumps` | src/Hypervisor/Virtualbox/VBoxSession.cpp:2143-2147 | Any other takes it to node 112 and leaves nothing pending; it hangs exactly if the handler of that node goes or jumps. |
| `VBoxSession.ErrorReportsFailure` | src/Hypervisor/Virtualbox/VBoxSession.cpp:2137-2138 | Either way the meter has reported its failure. |
| `ProgressBoard.ProgressTask.CheckCompleted` | src/ProgressFeedback.cpp:250-282 | Following the pointers to sub-tasks, the loop over slots, and the variable task beside it, decide `IsCompleted`. |
| `ProgressBoard.ProgressTask.ReadProgress` | src/ProgressFeedback.cpp:287-322 | The value, by the fields: 1 if completed, 0 if not started or without slots, else the part of the maximum, or the average over the slots of 1 for each done and the value of each sub-task. It is the value `GetProgress` of the store. |
| `ProgressBoard.ProgressTask.NotifyStarted` | src/ProgressFeedback.cpp:183-204 | Climbing the parent pointers starts exactly the objects from the task up to the first that has started, fires `started` for exactly those, and writes no other field. |
| `ProgressBoard.ProgressTask.NotifyUpdate` | src/ProgressFeedback.cpp:153-178 | Marks the task if it is complete, and its ancestors as far as that makes them complete; tells the listeners on the way, from the task upwards, exactly what their tasks then report; changes the answer of no task. |
| `ProgressBoard.ProgressTask.NotifyFailed` | src/ProgressFeedback.cpp:134-148 | Fires `failed` for exactly the task and all its ancestors, and writes no field of any object. |
| `ProgressBoard.ProgressTask.Fail` | src/ProgressFeedback.cpp:51-73 | The object is marked, and the failure is fired for exactly the task and its ancestors, whatever else the update of the parent fires. |
| `ProgressBoard.ProgressTask.Done` | src/ProgressFeedback.cpp:355-380 | The next free slot is done and no other slot changes, or none if there is none; the task has started, and is marked if it is complete now. |
| `ProgressBoard.ProgressTask.Begin` | src/ProgressFeedback.cpp:385-421 | A new object that points to this one, held by the next free slot if there is one; it has not started. |
| `ProgressBoard.ProgressTask.SetMaxTasks` | src/ProgressFeedback.cpp:327-350 | The slots that still fit are kept and new ones are not done; without an update nothing is fired or marked, and with one the task is marked if it is complete now. |
| `ProgressBoard.ProgressTask.Update` | src/ProgressFeedback.cpp:523-555 | The task has started and has the value, and is marked if it is complete now. |
| `ProgressBoard.ProgressTask.RestartTasks` | src/ProgressFeedback.cpp:434-450 | The loop over slots, with its restarts of sub-tasks through their pointers, is the recursive restart. |
| `ProgressBoard.ProgressTask.Restart` | src/ProgressFeedback.cpp:426-459 | Without an update, exactly the objects held in slots below the task, at any depth, are put back to their beginning; with one, the task is started and updated after that. |
| `ProgressBoard.Board.Perform` | src/ProgressFeedback.cpp:30-586 | Any call on any task fires exactly what `Fires` says; the flags go on agreeing with what has been fired, and the answers with the flags exactly if the caller heeds the conditions. |
| `ProgressBoard.Play` | src/ProgressFeedback.cpp:30-586 | Over every run on objects, each flag is set exactly if the last thing fired for its task since a restart was its completion or failure; if the run is heedful, so is each answer. |
| `ProgressEffects.StartingWakes` | src/ProgressFeedback.cpp:183-204 | A start changes exactly the started flags from the task up to the first that has started. |
| `ProgressEffects.StartingTells` | src/ProgressFeedback.cpp:195-201 | The log of a start holds one event for each task it starts, and no others. |
| `ProgressEffects.UpdateAnnounces` | src/ProgressFeedback.cpp:107-178 | An update marks nothing but tasks on the way up that are complete, logs exactly their completions beside some progress, and changes the answer of no task. |
| `ProgressEffects.FailingMarks` | src/ProgressFeedback.cpp:51-73 | A failed task is marked, and its failure is logged for exactly its ancestors and itself. |
| `ProgressCallbacks.UpdateTells` | src/ProgressFeedback.cpp:107-178 | An update fires exactly this: from the task upwards, as far as the first that is complete and was marked, each task's progress as it reports it afterwards, and its completion if it is complete; those are marked and no others. |
| `ProgressCallbacks.RestartTellsNobody` | src/ProgressFeedback.cpp:426-586 | A restart fires no callback. |
| `ProgressCallbacks.CallTells` | src/ProgressFeedback.cpp:30-586 | Which callbacks every call fires, in which order and with which values, by the tree it finds and the tree it leaves. |
| `ProgressRuns.CompletesOncePerRestart` | src/ProgressFeedback.cpp:107-129 | In every run of calls on a tree, between a completion or own failure of a task and a later completion there is a restart of it. |
| `ProgressRuns.RunLog` | src/ProgressFeedback.cpp:110-114 | In every run, the completed flag of each task agrees with the callbacks it has fired. |
| `ProgressCoherence.ProgressInRange` | src/ProgressFeedback.cpp:287-322 | Progress is between 0 and 1, for every tree whose variable tasks are within a maximum above 0. |
| `ProgressCoherence.ProgressIsAverage` | src/ProgressFeedback.cpp:287-502 | What an open task that has started reports: its part of the maximum, or the average of its slots. |
| `ProgressCoherence.VariableFullIff` | src/ProgressFeedback.cpp:468-502 | A variable task that has started reports 1 exactly when it says it is completed, even past its maximum. |
| `ProgressCoherence.CompletedMeansFull` | src/ProgressFeedback.cpp:250-322 | If every finite task has a slot, a task that answers that it is completed reports progress exactly 1. |
| `ProgressCoherence.FullIffCompletedExactly` | src/ProgressFeedback.cpp:468-502 | Those two answers agree on all tasks if and only if no variable task was completed before it started. |
| `ProgressAnnouncements.UpdateAnnouncesIff` | src/ProgressFeedback.cpp:153-178 | After an update, every task's answer agrees with its flag if and only if that held of all tasks but those the update reaches: from the task up to the first that is marked. |
| `ProgressAnnouncements.RestartReaches` | src/ProgressFeedback.cpp:426-450 | A restart puts back exactly the tasks it reaches through slots. |
| `ProgressAnnouncements.RestartIff` | src/ProgressFeedback.cpp:426-450 | A restart keeps the agreement if and only if it reaches no started, open variable task of maximum 0. |
| `ProgressAnnouncements.RestartAndNotifyIff` | src/ProgressFeedback.cpp:426-459 | With an update, the same of the tasks below, and the start must leave no open ancestor with all its slots done out of reach of the update. |
| `ProgressAnnouncements.CoherentAfterIff` | src/ProgressFeedback.cpp:30-586 | Of every call on a tree whose answers agree with its flags: they agree afterwards if and only if a condition on flags, slots and the update asked for holds before the call. |
| `ProgressAnnouncements.NoAnnouncementLostIff` | src/ProgressFeedback.cpp:107-178 | Over every run from a new task, answers and flags agree after every call if and only if every call meets that condition when it is made. |
| `ProgressAnnouncements.AnswersMatchLog` | src/ProgressFeedback.cpp:110-121 | And then a task answers that it is completed exactly when the last thing fired for it since a restart was its completion or failure. |
| `ProgressAnnouncements.ShrinkingLosesOne` | src/ProgressFeedback.cpp:327-347 | A run after which a task is complete and nobody has been told. |
| `ProgressAnnouncements.CompletedBeforeItStarts` | src/ProgressFeedback.cpp:468-502 | A run after which a variable task reports progress 1 and answers that it is not completed. |
| `ThinIPC.ShortRoundTrip` | src/ThinIPC.cpp:149-162 | A 16-bit value is read back from its two bytes, for negative values too. |
| `ThinIPC.IntRoundTrip` | src/ThinIPC.cpp:194-217 | A 32-bit value is read back from its four bytes. |
| `ThinIPC.LongReadBackIff` | src/ThinIPC.cpp:132-144 | Where `long` has 8 bytes, `readInt` returns what `writeInt` wrote if and only if the four bytes after the field are its sign extension. |
| `ThinIPC.FirstOfTwoIntsIsLost` | src/ThinIPC.cpp:132-144 | Of two ints in a row the first is not read back there. |
| `ThinIPC.ReadsBack` | src/ThinIPC.cpp:132-189 | Any sequence of fields is read back as the same values in the same order by the matching reads, ints where `long` has 4 bytes. |
| `ThinIPC.CutFieldIsNotRead` | src/ThinIPC.cpp:132-189 | Of a field that has been cut short nothing is read, and the cursor stays before it or behind the length of a string. |
| `ThinIPC.CutIsCut` | src/ThinIPC.cpp:315-345 | The chunks make up the 2-byte size and the data, and none is empty or longer than the capacity. |
| `ThinIPC.CutCount` | src/ThinIPC.cpp:315-345 | There are as many chunks as the framed length divided by the capacity, rounded up. |
| `ThinIPC.ReceivesFrame` | src/ThinIPC.cpp:357-407 | What the receiver makes of the chunks of a message, for every size: all of it and only at the last chunk, except at the two sizes where it takes one chunk too few. |
| `ThinIPC.BadSizeIsPassedOver` | src/ThinIPC.cpp:362-376 | A first datagram whose size is not positive is passed over. |
| `ThinIPC.FaithfulIff` | src/ThinIPC.cpp:378-381 | The message arrives whatever is in memory after the buffer, with no chunk left over, if and only if its size is at most the capacity less 2, or above the capacity. |
| `ThinIPC.MessageOfTheCapacityIsLost` | src/ThinIPC.cpp:532-599 | A message of 1024 bytes in chunks of 1024 arrives with two wrong bytes. |
| `ThinIPC.FieldsTravel` | src/ThinIPC.cpp:532-599 | Fields written, sent in chunks, received and read are the same fields, at every such size, ints where `long` has 4 bytes. |
| `ThinIPC.Message.WriteShort` | src/ThinIPC.cpp:222-245 | Writes the two bytes of the value at the cursor and grows the buffer by two; what is before and after them stays, and at the end of the buffer it appends. Past 32767 bytes it writes nothing and takes two from the size. |
| `ThinIPC.Message.WriteInt` | src/ThinIPC.cpp:194-217 | The same with the low four bytes of the value. Past 32767 bytes nothing changes. |
| `ThinIPC.Message.WriteString` | src/ThinIPC.cpp:250-278 | The same with the 16-bit length and the bytes. Past 32767 bytes it writes nothing and leaves the wrapped size less four. |
| `ThinIPC.Message.ReadShort` | src/ThinIPC.cpp:149-162 | Reads at the cursor and moves it, or returns 0 without moving it past the end. |
| `ThinIPC.Message.ReadInt` | src/ThinIPC.cpp:132-144 | Reads a `long` of either size at the cursor and moves it by four. |
| `ThinIPC.Message.ReadString` | src/ThinIPC.cpp:167-189 | Reads a length and that many bytes, or nothing if they are not there. |
| `ThinIPC.Message.GetChunk` | src/ThinIPC.cpp:308-350 | The chunk and what is left of the data make up what was left before; the size goes in front of the first. |
| `ThinIPC.Message.PutChunk` | src/ThinIPC.cpp:357-407 | Takes a chunk in as `Put` says, and returns the size only when the message is complete. |
| `ThinIPC.Send` | src/ThinIPC.cpp:544-563 | The loop over chunks sends exactly the frame cut at the capacity. |
| `ThinIPC.Recv` | src/ThinIPC.cpp:580-599 | The loop over datagrams gives the message that `Receive` defines, and takes no datagram more. |
| `ThinIPC.WriteFields` | src/ThinIPC.cpp:412-480 | Writing fields one after the other leaves their encoding in the buffer. |
| `ThinIPC.ReadFields` | src/ThinIPC.cpp:132-189 | Reading fields one after the other gives what decoding the buffer gives. |
| `ThinIPC.Exchange` | src/ThinIPC.cpp:532-599 | From writing through sending and receiving to reading, over any receiving buffer: the same fields come out, and every chunk has been taken. |
| `Parameters.InOneGroupOnly` | src/ParameterMap.cpp:226-237 | No key is directly in two groups, if names have no separator. |
| `Parameters.InSomeGroup` | src/ParameterMap.cpp:226-237 | Every key is directly in some group. |
| `Parameters.CallRefines` | src/ParameterMap.cpp:73-356 | A call on the flat map is the call on the tree of groups: it does to its own group what it says and nothing to any other. |
| `Parameters.EntryAfter` | src/ParameterMap.cpp:73-356 | What a call makes of each name of its group: a set or a filling that replaces wins, a default and one that does not replace give way, and what is neither named nor cleared stays. |
| `Parameters.RunRefines` | src/ParameterMap.cpp:73-356 | Over every run of set, setDefault, erase, clear and fromMap on any groups, the flat map represents the tree of groups. |
| `Parameters.SameTreeSameMap` | src/ParameterMap.cpp:242-269 | The tree holds all there is in the flat map: two maps that represent the same tree are equal. |
| `Parameters.OtherGroupsKeep` | src/ParameterMap.cpp:73-106 | A call in one group never changes the entries of another. |
| `Parameters.CopyIsExact` | src/ParameterMap.cpp:326-425 | toMap into an empty map and fromMap with clear and replace copy the direct entries of a group to another exactly, and change no other group. |
| `Parameters.NothingForgottenIff` | src/ParameterMap.cpp:192-209 | Over every run of writes, locks and unlocks, every write is committed by the unlock that follows if and only if the view is never locked again over changes. |
| `Parameters.BookIsHistory` | src/ParameterMap.cpp:73-221 | After any calls, a view is locked if the last of its locks and unlocks is a lock, changed if something was written under a lock since the last lock, and has committed once for each write while it was not locked and each unlock after a change. |
| `Parameters.SecondLockForgets` | src/ParameterMap.cpp:192-209 | Four calls after which a write is never committed. |
| `Parameters.ParameterMap.Subgroup` | src/ParameterMap.cpp:226-237 | A subgroup shares the map of its parent, and its prefix is that of the longer path. |
| `Parameters.ParameterMap.CommitChanges` | src/ParameterMap.cpp:214-221 | A commit reaches the root once, whatever is locked on the way. |
| `Parameters.ParameterMap.Get` | src/ParameterMap.cpp:48-68 | In strict mode the loop replaces exactly the unsafe characters of the name. |
| `Parameters.ParameterMap.Set` | src/ParameterMap.cpp:73-90 | The flat map changes as `OnFlat` says and the write is committed or remembered. |
| `Parameters.ParameterMap.Erase` | src/ParameterMap.cpp:95-106 | The flat map changes as `OnFlat` says; nothing is committed or remembered. |
| `Parameters.ParameterMap.EnumKeys` | src/ParameterMap.cpp:242-269 | Lists exactly the names of the direct entries, each once. |
| `Parameters.ParameterMap.Clear` | src/ParameterMap.cpp:156-173 | Removes exactly the direct entries. |
| `Parameters.ParameterMap.FromMap` | src/ParameterMap.cpp:326-356 | The flat map changes as `OnFlat` says; with no map given only the clearing happens, uncommitted. |
| `Parameters.ParameterMap.ToMap` | src/ParameterMap.cpp:405-425 | The direct entries join the map, which keeps its own where it has them. |
| `LocalConfig.EscapeInPlace` | src/LocalConfig.cpp:217-235 | The in-place loop of `saveMap` escapes the value. |
| `LocalConfig.UnescapeInPlace` | src/LocalConfig.cpp:343-359 | The in-place loop of `loadMap` unescapes a value that is not empty. |
| `LocalConfig.UnescapeEscape` | src/LocalConfig.cpp:217-359 | Unescaping inverts escaping on every value, with runs of backslashes. |
| `LocalConfig.EscapeAppend` | src/LocalConfig.cpp:217-235 | Escaping works character by character. |
| `LocalConfig.UnescapeKeeps` | src/LocalConfig.cpp:343-359 | Unescaping leaves alone every string without a pair, with other backslashes in it or at its end. |
| `LocalConfig.UnescapeFirstPair` | src/LocalConfig.cpp:343-359 | Of any other it replaces the first pair, and goes on behind it. |
| `LocalConfig.SaveText` | src/LocalConfig.cpp:210-238 | The loop writes one line for each entry. |
| `LocalConfig.SaveThenLoad` | src/LocalConfig.cpp:194-375 | Loading what was saved gives the map without its empty values, if no key has `=` or a newline. |
| `LocalConfig.SaveThenLoadIff` | src/LocalConfig.cpp:336-366 | A map survives saving and loading if and only if no key has `=` or a newline and no value is empty. |
| `LocalConfig.LoadedIsLoadable` | src/LocalConfig.cpp:336-366 | Whatever the text, the keys that are loaded have neither, and the values are not empty. |
| `LocalConfig.LoadsFirstGiven` | src/LocalConfig.cpp:332-366 | Of every text, exactly what is loaded: a key if some line gives it a value, with the value of the first such line. |
| `ConfigSync.ReadText` | src/LocalConfig.cpp:332-366 | The loop over lines computes the map the text stands for. |
| `ConfigSync.LogIsExact` | src/LocalConfig.cpp:425-512 | Over every sequence of set and erase calls, `keysDeleted` holds each once exactly the keys whose last operation was an erase, and of the keys that were not touched those it held before. |
| `ConfigSync.Config.Save` | src/LocalConfig.cpp:532-559 | Writes the text of the map and returns false. |
| `ConfigSync.Config.Load` | src/LocalConfig.cpp:564-590 | Replaces the map by that of the file and returns false. |
| `ConfigSync.Config.Set` | src/LocalConfig.cpp:496-512 | Sets the entry, takes the key from the log, and writes the file unless locked. |
| `ConfigSync.Config.Erase` | src/LocalConfig.cpp:425-440 | Removes the entry and logs the key once; the file is left alone. |
| `ConfigSync.Config.MergeWith` | src/LocalConfig.cpp:642-677 | The three loops of the merge make memory and the map to be written equal, key by key: our value where we have the key; theirs where we have neither the key nor erased it; nothing else. |
| `ConfigSync.Config.Sync` | src/LocalConfig.cpp:596-684 | What each of the five cases does to memory, log and file; after a merge the file is the text of memory. |
| `ConfigSync.Config.EditAndSync` | src/LocalConfig.cpp:425-684 | A run of set and erase calls, a file that somebody else has replaced, and a merging sync: every key is as its last edit has left it, a key not edited keeps our value or else has theirs unless it was erased before, and an erased key is read back from the new file exactly if the line of another key spells it. |
| `ConfigSync.SecondMergeIsIdleIff` | src/LocalConfig.cpp:637-680 | Merging a map again with what has been written of it leaves it as it is if and only if no printed line spells a key that the map does not have. |
| `ConfigSync.LoadedIff` | src/LocalConfig.cpp:194-375 | A key is read back from the text of a map exactly if one of its lines spells it. |
| `ConfigSync.CleanKeysAreIdle` | src/LocalConfig.cpp:637-680 | So it does whenever no key has `=` or a newline, although empty values are not read back. |
| `ConfigSync.SecondMergeAddsAKey` | src/LocalConfig.cpp:637-680 | A key with `=`, for which the second merge adds another key. |
| `ConfigSync.SyncTwice` | src/LocalConfig.cpp:596-684 | Two calls of `sync` when both sides have changed: the second merges again, and leaves memory as the first has left it exactly under that condition. |
| `Base64.Encode` | src/Utilities.cpp:1408-1456 | The loops with the wrapping 32-bit accumulator compute section 4 of RFC 4648. |
| `Base64.RfcLength` | src/Utilities.cpp:1417-1418 | The encoding has four characters for every three bytes begun. |
| `Base64.Decode` | src/Utilities.cpp:1462-1491 | The loop computes the decoding: the bytes of the groups that legal characters spell, one for each eight bits; or the exception, exactly if some character is not in the alphabet and not skipped. |
| `Base64.BytesOfGroups` | src/Utilities.cpp:1482-1487 | The bytes of the groups of a byte string are that string. |
| `Base64.DecodedLength` | src/Utilities.cpp:1482-1487 | Eight collected bits make a byte, and what is left over is dropped. |
| `Base64.ReverseKnowsTheAlphabet` | src/Utilities.cpp:1479-1481 | Exactly the characters of the alphabet are legal, and each is decoded as its number. |
| `Base64.DecodingSqueezed` | src/Utilities.cpp:1475-1478 | Decoding depends only on what is not white space or padding, and so does whether it fails. |
| `Base64.DecodesWhatWasEncoded` | src/Utilities.cpp:1408-1491 | Decoding an encoding gives the bytes back, with white space put in or padding taken out anywhere. |
| `SplitArguments.Scanning` | src/Utilities.cpp:546-613 | The scanning loop over positions computes `Scan`, whenever it ends. |
| `SplitArguments.Fill` | src/Utilities.cpp:615-640 | The components are put into the buffer in order, as many as fit, with a terminator behind them, and nothing else changes. |
| `SplitArguments.SplitsWhatWasJoined` | src/Utilities.cpp:546-613 | Splitting inverts joining by single spaces, for components that are plain or wrapped in a quote they do not contain. |
| `SplitArguments.ScansAsRead` | src/Utilities.cpp:546-613 | On every line, with quotes anywhere, the loop comes to what a reader gets character by character, who drops what is in front of an opening quote and the character after a closing one. |
| `SplitArguments.SplitsAtSpaces` | src/Utilities.cpp:557-566 | A line without quotes is cut at every space, and only an empty piece at its end is dropped. |
| `SplitArguments.NeverEndsIff` | src/Utilities.cpp:605-610 | Over every line, the loop never ends if and only if the line ends inside an open quote with a space or the other quote in it. |
| `SplitArguments.OpenQuoteNeverEnds` | src/Utilities.cpp:605-610 | A line of four characters for which it never ends. |
| `SplitArguments.SplitArguments` | src/Utilities.cpp:546-643 | The caller finds the joined components in a buffer that is large enough, and their number. |

## Left out

- Handlers are scripts of calls on the machine with an outcome; what the
  VirtualBox handlers do to the hypervisor, to files or to the network is not
  part of this model.
- Sockets are a list of datagrams that arrive in order, and files are strings;
  failures to open, send or allocate are left out, except the unreadable file
  of `sync`.
- A failing `malloc`, but for sizes that have wrapped to negative numbers.
- ThinIPC.Message.WriteString: does not model strings of 32768 bytes and more, because their length does not fit the 16-bit field and the copy is out of bounds; and it says nothing of the buffer when the size wraps to exactly 0, which frees it.
- Drain.MeterCompletesWithLastHandler: does not cover handlers that report through a sub-task of `FSMBegin`, because the source excludes them beside `FSMDoing` and `FSMDone` (src/SimpleFSM.cpp:601-604).
- Threads that touch the machine's fields without its locks (the emptiness test
  and the change of the current node in `FSMContinue`), `FSMThreadStop`,
  `FSMWaitFor` and `FSMWaitInactive`.
- In `PauseProtocol`, `FSMContinue` up to its handler, each section under a lock, and
  a jump with its handler are single steps; handlers return and no interruption
  is requested.
- PauseProtocol.NextKeeps: does not model the interrupt flag of the worker, because `FSMThreadStop` is left out.
- Messages of progress tasks, the spinner, `markLengthy` and `BooleanTask`,
  whose two answers disagree by design.
- Progress of a variable task with maximum 0, which divides by zero, and
  rounding of `double`: progress is a real number.
- The error count is taken not to overflow an `int`.
- The order in which `std::map` lists its keys: loops over maps take them in any
  order, and no statement depends on it.
- Parameters.ParameterMap.EnumKeys: does not state that the names come sorted, because the loop takes the keys in any order.
- `fromParameters`, `fromJSON`, `clearAll`, `getNum`, `setNum` and the boolean
  accessors of `ParameterMap`, and `clear` of `LocalConfig`, which removes the file.
- `LocalConfig` is modelled at its root, without a prefix.
- `readPtr` and `writePtr` of ThinIPC messages, and the addresses of `send` and
  `recv`. A negative string length reads as an empty string: the allocation of
  that many bytes is taken to fail.
- Downloads, checksums, process execution, key store, daemon control, user
  interaction, crash reports, FloppyIO and the ISO image builder.
