/** `SimpleFSM`: the registry, the mutable steering state, and the calls that
    update it. Each call is proved against the function of module `Steering`. */
module Machine {
  import opened FsmGraph
  import P = Progress
  import R = ProgressRuns
  import B = ProgressBoard
  import RouteSearch
  import opened Steering
  import SteeringRuns

  /** The links of a registration, which a 0 ends. */
  function UpToZero(links: seq<int>): (r: seq<int>)
    ensures 0 !in r && r <= links
    ensures |r| < |links| ==> links[|r|] == 0
  {
    if links == [] || links[0] == 0 then [] else [links[0]] + UpToZero(links[1..])
  }

  /** Reads the links of a registration one by one. */
  method ReadLinks(links: seq<int>) returns (v: seq<int>)
    ensures v == UpToZero(links)
  {
    v := [];
    var k := 0;
    while k < |links| && links[k] != 0
      invariant 0 <= k <= |links| && v == links[..k] && 0 !in v
    {
      v := v + [links[k]];
      k := k + 1;
    }
    UpToZeroUnique(links, k);
  }

  lemma {:induction false} UpToZeroUnique(links: seq<int>, k: nat)
    requires k <= |links| && 0 !in links[..k] && (k < |links| ==> links[k] == 0)
    ensures UpToZero(links) == links[..k]
  {
  }

  function LinkedNode(node: Node, links: seq<int>): Node {
    node.(children := node.children + links)
  }

  function Linked(nodes: Registry, links: map<int, seq<int>>): Registry
    requires links.Keys == nodes.Keys
  {
    map id | id in nodes :: LinkedNode(nodes[id], links[id])
  }

  lemma LinkedWellFormed(nodes: Registry, links: map<int, seq<int>>)
    requires links.Keys == nodes.Keys
    requires forall id, c :: id in nodes && c in nodes[id].children + links[id] ==> c in nodes
    ensures WellFormed(Linked(nodes, links))
  {
    forall id, c | id in Linked(nodes, links) && c in Linked(nodes, links)[id].children
      ensures c in nodes
    {
      assert c in nodes[id].children + links[id];
    }
  }

  /** The double loop of `FSMRegistryEnd`, over nodes and their links. */
  method LinkNodes(nodes: Registry, links: map<int, seq<int>>) returns (linked: Registry)
    requires links.Keys == nodes.Keys
    ensures linked == Linked(nodes, links)
  {
    linked := nodes;
    var done := {};
    while exists id :: id in nodes && id !in done
      invariant linked == map id | id in nodes :: if id in done then LinkedNode(nodes[id], links[id]) else nodes[id]
      decreases nodes.Keys - done
    {
      var id :| id in nodes && id !in done;
      var node := nodes[id];
      var j := 0;
      while j < |links[id]|
        invariant 0 <= j <= |links[id]|
        invariant node == LinkedNode(nodes[id], links[id][..j])
      {
        node := node.(children := node.children + [links[id][j]]);
        j := j + 1;
      }
      assert links[id][..j] == links[id];
      linked := linked[id := node];
      done := done + {id};
    }
  }

  /** One use of the registry macros. */
  datatype Declaration = Declaration(id: int, hasHandler: bool, links: seq<int>)

  /** The graph that the first `n` declarations give: a node declared twice is
      as it was declared last. */
  function Registered(decls: seq<Declaration>, n: nat): Registry
    requires n <= |decls|
    decreases n
  {
    if n == 0 then map[]
    else
      var d := decls[n - 1];
      Registered(decls, n - 1)[d.id := Node(d.hasHandler, UpToZero(d.links))]
  }

  lemma LinkedAdd(nodes: Registry, links: map<int, seq<int>>, d: Declaration)
    requires links.Keys == nodes.Keys
    ensures Linked(nodes[d.id := Node(d.hasHandler, [])], links[d.id := UpToZero(d.links)])
         == Linked(nodes, links)[d.id := Node(d.hasHandler, UpToZero(d.links))]
  {
    assert [] + UpToZero(d.links) == UpToZero(d.links);
  }

  lemma LinksRegistered(nodes: Registry, links: map<int, seq<int>>)
    requires links.Keys == nodes.Keys && WellFormed(Linked(nodes, links))
    ensures forall id, c :: id in nodes && c in nodes[id].children + links[id] ==> c in nodes
  {
    forall id, c | id in nodes && c in nodes[id].children + links[id]
      ensures c in nodes
    {
      var linked := Linked(nodes, links);
      assert id in linked && linked[id] == LinkedNode(nodes[id], links[id]);
      assert c in linked[id].children && c in linked;
    }
  }

  /** A report to the meter, if the machine has one. */
  ghost function Reported(g: Registry, s: State, report: nat -> R.Op): (r: State)
    requires Valid(g, s)
    ensures Valid(g, r)
  {
    if s.meter.None? then s
    else
      ReportKeepsMeter(s.tasks, s.meter, report(s.meter.value));
      s.(tasks := R.Apply(s.tasks, report(s.meter.value)))
  }

  class SimpleFSM {
    var nodes: Registry
    var tmpRouteLinks: map<int, seq<int>>
    var rootNode: Option<int>
    var currentNode: Option<int>
    var currentPath: seq<int>
    var targetState: int
    var insideHandler: bool
    var gotoMutexHeld: bool
    var progress: B.ProgressTask?
    const board: B.Board
    ghost var trace: seq<Event>

    constructor (b: B.Board)
      ensures board == b && nodes == map[] && tmpRouteLinks == map[]
      ensures rootNode == None && currentNode == None && currentPath == []
      ensures progress == null && !insideHandler && !gotoMutexHeld && trace == []
    {
      board := b;
      nodes, tmpRouteLinks := map[], map[];
      rootNode, currentNode, currentPath, targetState := None, None, [], 0;
      insideHandler, gotoMutexHeld := false, false;
      progress := null;
      trace := [];
    }

    // ---------------------------------------------------------- the registry

    method RegistryBegin()
      modifies this
      ensures nodes == map[] && tmpRouteLinks == map[] && currentPath == [] && rootNode == None && currentNode == None
      ensures progress == old(progress) && insideHandler == old(insideHandler) && gotoMutexHeld == old(gotoMutexHeld)
      ensures trace == old(trace) && targetState == old(targetState)
    {
      nodes, tmpRouteLinks, currentPath := map[], map[], [];
      rootNode, currentNode := None, None;
    }

    method RegistryAdd(id: int, hasHandler: bool, links: seq<int>)
      modifies this`nodes, this`tmpRouteLinks
      ensures nodes == old(nodes)[id := Node(hasHandler, [])]
      ensures tmpRouteLinks == old(tmpRouteLinks)[id := UpToZero(links)]
    {
      nodes := nodes[id := Node(hasHandler, [])];
      var v := ReadLinks(links);
      tmpRouteLinks := tmpRouteLinks[id := v];
    }

    /** Links the nodes and puts the machine at the root. Every link and the
        root must have been registered: they are dereferenced unchecked. */
    method RegistryEnd(rootID: int)
      requires tmpRouteLinks.Keys == nodes.Keys
      requires forall id, c :: id in nodes && c in nodes[id].children + tmpRouteLinks[id] ==> c in nodes
      requires rootID in nodes
      modifies this`nodes, this`tmpRouteLinks, this`targetState, this`rootNode, this`currentNode
      ensures nodes == Linked(old(nodes), old(tmpRouteLinks))
      ensures WellFormed(nodes)
      ensures rootNode == currentNode == Some(rootID) && targetState == rootID && tmpRouteLinks == map[]
    {
      var links := tmpRouteLinks;
      LinkedWellFormed(nodes, links);
      nodes := LinkNodes(nodes, links);
      targetState, rootNode, currentNode := rootID, Some(rootID), Some(rootID);
      tmpRouteLinks := map[];
    }

    /** The registry macros around a list of declarations. */
    method Register(rootID: int, decls: seq<Declaration>)
      requires WellFormed(Registered(decls, |decls|)) && rootID in Registered(decls, |decls|)
      modifies this
      ensures nodes == Registered(decls, |decls|) && tmpRouteLinks == map[]
      ensures rootNode == currentNode == Some(rootID) && targetState == rootID && currentPath == []
      ensures progress == old(progress) && insideHandler == old(insideHandler) && gotoMutexHeld == old(gotoMutexHeld)
      ensures trace == old(trace)
    {
      RegistryBegin();
      for n := 0 to |decls|
        invariant tmpRouteLinks.Keys == nodes.Keys && Linked(nodes, tmpRouteLinks) == Registered(decls, n)
        invariant forall id :: id in nodes ==> nodes[id].children == []
        invariant currentPath == [] && progress == old(progress)
        invariant insideHandler == old(insideHandler) && gotoMutexHeld == old(gotoMutexHeld) && trace == old(trace)
      {
        LinkedAdd(nodes, tmpRouteLinks, decls[n]);
        RegistryAdd(decls[n].id, decls[n].hasHandler, decls[n].links);
      }
      LinksRegistered(nodes, tmpRouteLinks);
      RegistryEnd(rootID);
    }

    // ---------------------------------------------------------- the steering

    /** `FSMUseProgress`, without its message. */
    method UseProgress(task: B.ProgressTask?)
      modifies this`progress
      ensures progress == task
    {
      progress := task;
    }

    /** The state of the machine, once its registry has been filled. */
    ghost function Snapshot(): State
      requires rootNode.Some? && currentNode.Some?
      reads this, board
    {
      State(rootNode.value, currentNode.value, currentPath, targetState, insideHandler, gotoMutexHeld, board.store,
            if progress == null then None else Some(progress.id), trace)
    }

    ghost predicate Ready()
      reads this, board, board.objects
    {
      && rootNode.Some? && currentNode.Some?
      && board.Valid() && (progress != null ==> progress.board == board && board.Has(progress) && progress.finite)
      && Valid(nodes, Snapshot())
    }

    /** The handlers on the path. */
    method CountAhead() returns (pathCount: nat)
      requires Ready()
      ensures pathCount == CountHandlers(nodes, currentPath)
    {
      pathCount := 0;
      for j := 0 to |currentPath|
        invariant pathCount == CountHandlers(nodes, currentPath[..j])
      {
        assert currentPath[..j + 1][..j] == currentPath[..j];
        if nodes[currentPath[j]].hasHandler {
          pathCount := pathCount + 1;
        }
      }
      assert currentPath[..|currentPath|] == currentPath;
    }

    /** The progress part of `FSMGoto`. */
    method RecalibrateProgress()
      requires Ready()
      modifies board, board.objects
      ensures Ready() && board.objects == old(board.objects)
      ensures Snapshot() == Recalibrate(nodes, old(Snapshot()))
    {
      if progress != null {
        var pathCount := CountAhead();
        ghost var before := Snapshot();
        RestartMeter(progress, pathCount);
        assert Snapshot() == before.(tasks := board.store);
      }
    }

    method RestartMeter(meter: B.ProgressTask, n: nat)
      requires meter.board == board && meter.Ready() && meter.finite
      modifies board, board.objects
      ensures meter.Ready() && board.objects == old(board.objects)
      ensures meter.id < |old(board.store).tasks| && old(board.store).tasks[meter.id].kind.Finite?
      ensures board.store == P.SetMax(P.Restart(old(board.store), meter.id), meter.id, n, false)
    {
      meter.Known();
      meter.Restart(false);
      meter.SetMaxTasks(n, false);
    }

    /** Looks for a route and publishes it. */
    method PublishRoute(state: int, stripPathComponents: nat)
      requires Ready() && stripPathComponents <= 1
      modifies this`currentPath, this`targetState
      ensures Ready()
      ensures Snapshot() == match Route(nodes, old(Snapshot()).current, state)
                            case None => old(Snapshot()).(path := [])
                            case Some(route) => old(Snapshot()).(path := route[stripPathComponents..], target := state)
    {
      currentPath := [];
      var route := RouteSearch.FindRoute(nodes, currentNode.value, state);
      if route.Some? {
        currentPath := route.value[stripPathComponents..];
        targetState := state;
      }
    }

    method FSMGoto(state: int, stripPathComponents: nat) returns (reply: Reply)
      requires Ready() && stripPathComponents <= 1
      modifies this`gotoMutexHeld, this`currentPath, this`targetState, board, board.objects
      ensures Ready() && board.objects == old(board.objects)
      ensures Result(Snapshot(), reply) == Goto(nodes, old(Snapshot()), state, stripPathComponents)
    {
      if gotoMutexHeld {
        return Hangs;
      }
      gotoMutexHeld := true;
      PublishRoute(state, stripPathComponents);
      RecalibrateProgress();
      gotoMutexHeld := false;
      return Value(true);
    }

    method FSMSkew(state: int) returns (reply: Reply)
      requires Ready()
      modifies this, board, board.objects
      ensures nodes == old(nodes) && Ready() && progress == old(progress)
      ensures old(board.objects) <= board.objects
      ensures forall i {:trigger board.objects[i]} :: |old(board.objects)| <= i < |board.objects| ==> fresh(board.objects[i])
      ensures Result(Snapshot(), reply) == Skew(nodes, old(Snapshot()), state)
      ensures state in nodes && !old(gotoMutexHeld) ==>
                && currentNode == Some(state) && targetState == old(targetState)
                && (old(currentPath) == [] ==> currentPath == [])
                && (old(currentPath) != [] ==>
                      if state != targetState && Reachable(nodes, state, targetState)
                      then IsBestRoute(nodes, state, targetState, currentPath) && currentPath[0] == state
                      else currentPath == [])
    {
      if !gotoMutexHeld {
        SteeringRuns.SkewReroutes(nodes, Snapshot(), state);
      }
      if state !in nodes {
        return Value(true);
      }
      currentNode := Some(state);
      trace := trace + [Skewed(state, currentPath == [])];
      if currentPath != [] {
        reply := FSMGoto(targetState, 0);
      } else {
        reply := Value(true);
      }
    }

    /** `FSMFail`, `FSMDoing` and `FSMDone`: what handlers report to the meter. */
    method FSMFail()
      requires Ready()
      modifies board, board.objects
      ensures Ready() && board.objects == old(board.objects)
      ensures Snapshot() == Reported(nodes, old(Snapshot()), (id: nat) => R.FailOf(id))
    {
      if progress != null {
        ReportKeepsMeter(board.store, Some(progress.id), R.FailOf(progress.id));
        progress.Known();
        progress.Fail();
      }
    }

    method FSMDoing()
      requires Ready()
      modifies board, board.objects
      ensures Ready() && board.objects == old(board.objects)
      ensures Snapshot() == Reported(nodes, old(Snapshot()), (id: nat) => R.DoingOf(id))
    {
      if progress != null {
        ReportKeepsMeter(board.store, Some(progress.id), R.DoingOf(progress.id));
        progress.Known();
        progress.Doing();
      }
    }

    method FSMDone()
      requires Ready()
      modifies board, board.objects
      ensures Ready() && board.objects == old(board.objects)
      ensures Snapshot() == Reported(nodes, old(Snapshot()), (id: nat) => R.DoneOf(id))
    {
      if progress != null {
        ReportKeepsMeter(board.store, Some(progress.id), R.DoneOf(progress.id));
        progress.Known();
        progress.Done();
      }
    }

    method CallHandlerOfCurrent(inThread: bool, body: Body) returns (reply: Reply)
      requires Ready()
      modifies this, board, board.objects
      ensures nodes == old(nodes) && Ready() && progress == old(progress)
      ensures old(board.objects) <= board.objects
      ensures forall i {:trigger board.objects[i]} :: |old(board.objects)| <= i < |board.objects| ==> fresh(board.objects[i])
      ensures Result(Snapshot(), reply) == CallHandler(nodes, old(Snapshot()), inThread, body)
      ensures old(currentNode).value in nodes && nodes[old(currentNode).value].hasHandler && reply != Hangs ==>
                && (reply == Raised <==> inThread && body.outcome == Interrupted)
                && (reply == Value(true) <==> body.outcome == Returned)
      decreases body, 1
    {
      if !nodes[currentNode.value].hasHandler {
        return Value(true);
      }
      trace := trace + [Ran(currentNode.value)];
      reply := PerformAll(body.calls);
      if reply == Hangs {
        return;
      }
      match body.outcome
      case Returned =>
        reply := Value(true);
      case Interrupted =>
        insideHandler := false;
        reply := if inThread then Raised else Value(false);
      case Threw =>
        reply := Value(false);
    }

    /** `FSMContinue` up to the call of the handler. */
    method TakeNext()
      requires Ready() && currentPath != []
      modifies this`insideHandler, this`currentPath, this`currentNode, this`trace
      ensures Ready()
      ensures Snapshot() == Take(nodes, old(Snapshot()))
    {
      insideHandler := true;
      var first := currentPath[0];
      currentPath := currentPath[1..];
      var next := SkipStateNodes(first);
      currentNode := Some(next);
      trace := trace + [Entered(next, currentPath == [])];
    }

    /** The loop over state nodes. */
    method SkipStateNodes(first: int) returns (next: int)
      requires Ready() && first in nodes
      modifies this`currentPath, this`trace
      ensures Ready() && next in nodes
      ensures (Snapshot(), next) == SkipStates(nodes, old(Snapshot()), first)
    {
      next := first;
      while !nodes[next].hasHandler && currentPath != []
        invariant Ready() && next in nodes
        invariant SkipStates(nodes, Snapshot(), next) == SkipStates(nodes, old(Snapshot()), first)
        decreases |currentPath|
      {
        trace := trace + [Entered(next, false)];
        next := currentPath[0];
        currentPath := currentPath[1..];
      }
    }

    method FSMContinue(inThread: bool, body: Body) returns (reply: Reply)
      requires Ready()
      modifies this, board, board.objects
      ensures nodes == old(nodes) && Ready() && progress == old(progress)
      ensures old(board.objects) <= board.objects
      ensures forall i {:trigger board.objects[i]} :: |old(board.objects)| <= i < |board.objects| ==> fresh(board.objects[i])
      ensures Result(Snapshot(), reply) == Continue(nodes, old(Snapshot()), inThread, body)
      decreases body, 2
    {
      if insideHandler || currentPath == [] {
        return Value(false);
      }
      TakeNext();
      reply := CallHandlerOfCurrent(inThread, body);
      if reply == Value(true) {
        insideHandler := false;
      }
    }

    method FSMJump(state: int, body: Body) returns (reply: Reply)
      requires Ready()
      modifies this, board, board.objects
      ensures nodes == old(nodes) && Ready() && progress == old(progress)
      ensures old(board.objects) <= board.objects
      ensures forall i {:trigger board.objects[i]} :: |old(board.objects)| <= i < |board.objects| ==> fresh(board.objects[i])
      ensures Result(Snapshot(), reply) == Jump(nodes, old(Snapshot()), state, body)
      decreases body, 2
    {
      if gotoMutexHeld {
        return Hangs;
      }
      gotoMutexHeld := true;
      currentPath := [];
      if state !in nodes {
        currentNode := rootNode;
        trace := trace + [Rerooted];
        reply := Value(true);
      } else {
        EnterByJump(state);
        reply := CallHandlerOfCurrent(true, body);
        if reply == Hangs {
          return;
        }
        reply := if reply == Raised then Raised else Value(true);
      }
      gotoMutexHeld := false;
    }

    method EnterByJump(state: int)
      requires Ready() && state in nodes
      modifies this`currentNode, this`trace
      ensures Ready()
      ensures Snapshot() == old(Snapshot()).(current := state, trace := old(Snapshot()).trace + [Jumped(state)])
    {
      currentNode := Some(state);
      trace := trace + [Jumped(state)];
    }

    method Perform(call: Call) returns (reply: Reply)
      requires Ready()
      modifies this, board, board.objects
      ensures nodes == old(nodes) && Ready() && progress == old(progress)
      ensures old(board.objects) <= board.objects
      ensures forall i {:trigger board.objects[i]} :: |old(board.objects)| <= i < |board.objects| ==> fresh(board.objects[i])
      ensures Result(Snapshot(), reply) == Exec(nodes, old(Snapshot()), call)
      decreases call, 0
    {
      match call
      case GotoCall(state) => reply := FSMGoto(state, 1);
      case SkewCall(state) => reply := FSMSkew(state);
      case JumpCall(state, body) => reply := FSMJump(state, body);
      case ContinueCall(inThread, body) => reply := FSMContinue(inThread, body);
      case ReportCall(op) =>
        ReportKeepsMeter(board.store, if progress == null then None else Some(progress.id), op);
        board.Perform(op);
        reply := Value(true);
    }

    method PerformAll(calls: seq<Call>) returns (reply: Reply)
      requires Ready()
      modifies this, board, board.objects
      ensures nodes == old(nodes) && Ready() && progress == old(progress)
      ensures old(board.objects) <= board.objects
      ensures forall i {:trigger board.objects[i]} :: |old(board.objects)| <= i < |board.objects| ==> fresh(board.objects[i])
      ensures Result(Snapshot(), reply) == ExecAll(nodes, old(Snapshot()), calls)
      decreases calls, 0
    {
      if calls == [] {
        return Value(true);
      }
      reply := Perform(calls[0]);
      if reply != Hangs {
        reply := PerformAll(calls[1..]);
      }
    }
  }
}
