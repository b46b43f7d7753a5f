/** The registry that the constructor of a VirtualBox session fills. */
module VBoxRegistry {
  import opened FsmGraph
  import opened Machine
  import B = ProgressBoard
  import opened VBoxGraph

  /** Links that a 0 follows are read up to there. */
  lemma LinksUpToZero(links: seq<int>)
    requires 0 !in links
    ensures UpToZero(links + [0]) == links
  {
    UpToZeroUnique(links + [0], |links|);
  }

  function StateMacro(id: int, links: seq<int>): (d: Declaration)
    ensures 0 !in links ==> UpToZero(d.links) == links
  {
    if 0 !in links then LinksUpToZero(links); Declaration(id, false, links + [0]) else Declaration(id, false, links + [0])
  }

  function HandlerMacro(id: int, links: seq<int>): (d: Declaration)
    ensures 0 !in links ==> UpToZero(d.links) == links
  {
    if 0 !in links then LinksUpToZero(links); Declaration(id, true, links + [0]) else Declaration(id, true, links + [0])
  }

  const STATES := [
    StateMacro(1, [100]), StateMacro(2, [102, 112]), StateMacro(3, [104]), StateMacro(4, [105, 108]),
    StateMacro(5, [107, 211]), StateMacro(6, [109, 111]), StateMacro(7, [110, 106])]

  const UPDATES := [
    HandlerMacro(100, [101]), HandlerMacro(101, [2, 3, 4, 5, 6, 7]),
    HandlerMacro(102, [103]), HandlerMacro(103, [101]), HandlerMacro(104, [4])]

  const STOPS := [
    HandlerMacro(105, [207]), HandlerMacro(207, [208]), HandlerMacro(208, [3]),
    HandlerMacro(106, [209]), HandlerMacro(209, [4]), HandlerMacro(211, [206]),
    HandlerMacro(107, [209]), HandlerMacro(209, [4])]

  const STARTS := [
    HandlerMacro(108, [210]), HandlerMacro(210, [201]), HandlerMacro(201, [202]), HandlerMacro(202, [203]),
    HandlerMacro(203, [204]), HandlerMacro(204, [205]), HandlerMacro(205, [206]), HandlerMacro(206, [7])]

  const OTHERS := [
    HandlerMacro(109, [5]), HandlerMacro(110, [6]), HandlerMacro(111, [7]), HandlerMacro(112, [0])]

  /** In the order of the constructor. */
  const DECLARATIONS := STATES + UPDATES + STOPS + STARTS + OTHERS

  lemma {:induction false} RegisteredJoin(a: seq<Declaration>, b: seq<Declaration>, n: nat)
    requires n <= |b|
    ensures Registered(a + b, |a| + n) == Registered(a, |a|) + Registered(b, n)
    decreases n
  {
    if n == 0 {
      RegisteredPrefix(a, b, |a|);
    } else {
      RegisteredJoin(a, b, n - 1);
    }
  }

  lemma {:induction false} RegisteredPrefix(a: seq<Declaration>, b: seq<Declaration>, n: nat)
    requires n <= |a|
    ensures Registered(a + b, n) == Registered(a, n)
    decreases n
  {
    if n > 0 {
      RegisteredPrefix(a, b, n - 1);
    }
  }

  // ------------------------------------------------ the graph, part by part

  function StatesGraph(): Registry {
    map[
      1 := Checkpoint([100]), 2 := Checkpoint([102, 112]), 3 := Checkpoint([104]), 4 := Checkpoint([105, 108]),
      5 := Checkpoint([107, 211]), 6 := Checkpoint([109, 111]), 7 := Checkpoint([110, 106])]
  }

  function UpdatesGraph(): Registry {
    map[
      100 := Action([101]), 101 := Action([2, 3, 4, 5, 6, 7]), 102 := Action([103]), 103 := Action([101]), 104 := Action([4])]
  }

  function StopsGraph(): Registry {
    map[
      105 := Action([207]), 207 := Action([208]), 208 := Action([3]), 106 := Action([209]), 209 := Action([4]),
      211 := Action([206]), 107 := Action([209])]
  }

  function StartsGraph(): Registry {
    map[
      108 := Action([210]), 210 := Action([201]), 201 := Action([202]), 202 := Action([203]),
      203 := Action([204]), 204 := Action([205]), 205 := Action([206]), 206 := Action([7])]
  }

  function OthersGraph(): Registry {
    map[109 := Action([5]), 110 := Action([6]), 111 := Action([7]), 112 := Action([])]
  }

  lemma StatesRegistered()
    ensures Registered(STATES, 7) == StatesGraph()
  {
  }

  lemma UpdatesRegistered()
    ensures Registered(UPDATES, 5) == UpdatesGraph()
  {
  }

  lemma StopsRegistered()
    ensures Registered(STOPS, 8) == StopsGraph()
  {
  }

  lemma StartsRegistered()
    ensures Registered(STARTS, 8) == StartsGraph()
  {
  }

  lemma OthersRegistered()
    ensures Registered(OTHERS, 4) == OthersGraph()
  {
  }

  lemma {:induction false} JoinFive(a: seq<Declaration>, b: seq<Declaration>, c: seq<Declaration>,
                                    d: seq<Declaration>, e: seq<Declaration>)
    ensures Registered(a + b + c + d + e, |a + b + c + d + e|)
         == Registered(a, |a|) + Registered(b, |b|) + Registered(c, |c|) + Registered(d, |d|) + Registered(e, |e|)
  {
    RegisteredJoin(a, b, |b|);
    RegisteredJoin(a + b, c, |c|);
    RegisteredJoin(a + b + c, d, |d|);
    RegisteredJoin(a + b + c + d, e, |e|);
  }

  ghost predicate Within(part: Registry, g: Registry) {
    forall id :: id in part ==> id in g && g[id] == part[id]
  }

  lemma StateWithin(id: int)
    requires id in StatesGraph()
    ensures id in VBoxNodes() && VBoxNodes()[id] == StatesGraph()[id]
  {
    assert 1 <= id <= 7;
  }

  lemma StatesWithin()
    ensures Within(StatesGraph(), VBoxNodes())
  {
    forall id | id in StatesGraph()
      ensures id in VBoxNodes() && VBoxNodes()[id] == StatesGraph()[id]
    {
      StateWithin(id);
    }
  }

  lemma UpdatesWithin()
    ensures Within(UpdatesGraph(), VBoxNodes())
  {
  }

  lemma StopsWithin()
    ensures Within(StopsGraph(), VBoxNodes())
  {
  }

  lemma StartsWithin()
    ensures Within(StartsGraph(), VBoxNodes())
  {
  }

  lemma OthersWithin()
    ensures Within(OthersGraph(), VBoxNodes())
  {
  }

  lemma PartsCover(id: int)
    requires id in VBoxNodes()
    ensures id in StatesGraph() || id in UpdatesGraph() || id in StopsGraph() || id in StartsGraph() || id in OthersGraph()
  {
  }

  lemma SumOfParts(a: Registry, b: Registry, c: Registry, d: Registry, e: Registry, g: Registry)
    requires Within(a, g) && Within(b, g) && Within(c, g) && Within(d, g) && Within(e, g)
    requires forall id :: id in g ==> id in a || id in b || id in c || id in d || id in e
    ensures a + b + c + d + e == g
  {
    var sum := a + b + c + d + e;
    assert sum.Keys == a.Keys + b.Keys + c.Keys + d.Keys + e.Keys;
    forall id ensures id in sum <==> id in g {
      assert id in sum <==> id in a || id in b || id in c || id in d || id in e;
    }
    assert forall id :: id in sum ==> sum[id] == g[id];
  }

  lemma PartsAreGraph()
    ensures StatesGraph() + UpdatesGraph() + StopsGraph() + StartsGraph() + OthersGraph() == VBoxNodes()
  {
    StatesWithin();
    UpdatesWithin();
    StopsWithin();
    StartsWithin();
    OthersWithin();
    forall id | id in VBoxNodes()
      ensures id in StatesGraph() || id in UpdatesGraph() || id in StopsGraph() || id in StartsGraph() || id in OthersGraph()
    {
      PartsCover(id);
    }
    SumOfParts(StatesGraph(), UpdatesGraph(), StopsGraph(), StartsGraph(), OthersGraph(), VBoxNodes());
  }

  /** The declarations of the constructor give the graph of `VBoxGraph`. */
  lemma ConstructorGivesGraph()
    ensures Registered(DECLARATIONS, |DECLARATIONS|) == VBoxNodes()
  {
    JoinFive(STATES, UPDATES, STOPS, STARTS, OTHERS);
    StatesRegistered();
    UpdatesRegistered();
    StopsRegistered();
    StartsRegistered();
    OthersRegistered();
    PartsAreGraph();
  }

  /** The machine of a new session, at its entry point. */
  method NewSessionMachine(board: B.Board) returns (fsm: SimpleFSM)
    ensures fresh(fsm) && fsm.board == board && fsm.nodes == VBoxNodes()
    ensures fsm.rootNode == fsm.currentNode == Some(ENTRY) && fsm.targetState == ENTRY && fsm.currentPath == []
    ensures !fsm.insideHandler && !fsm.gotoMutexHeld && fsm.progress == null && fsm.trace == []
  {
    fsm := new SimpleFSM(board);
    ConstructorGivesGraph();
    VBoxWellFormed();
    fsm.Register(ENTRY, DECLARATIONS);
  }
}
