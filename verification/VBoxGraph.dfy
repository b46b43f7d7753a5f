/** The life-cycle graph of a VirtualBox session, and what it allows. */
module VBoxGraph {
  import opened FsmGraph
  import P = Progress
  import opened Steering
  import opened SteeringRuns

  /** A state node. */
  function Checkpoint(children: seq<int>): Node {
    Node(false, children)
  }

  /** A node with a handler. */
  function Action(children: seq<int>): Node {
    Node(true, children)
  }

  /** The registered graph: 1 entry, 2 error, 3 destroyed, 4 powered off,
      5 saved, 6 paused, 7 running; the rest are actions. */
  function VBoxNodes(): Registry {
    map[
      1 := Checkpoint([100]),
      2 := Checkpoint([102, 112]),
      3 := Checkpoint([104]),
      4 := Checkpoint([105, 108]),
      5 := Checkpoint([107, 211]),
      6 := Checkpoint([109, 111]),
      7 := Checkpoint([110, 106]),
      100 := Action([101]),                 // Initialize
      101 := Action([2, 3, 4, 5, 6, 7]),    // UpdateSession
      102 := Action([103]),                 // HandleError
      103 := Action([101]),                 // CureError
      104 := Action([4]),                   // CreateVM
      105 := Action([207]),                 // ReleaseVMScratch
      207 := Action([208]),                 // ReleaseVMBoot
      208 := Action([3]),                   // DestroyVM
      106 := Action([209]),                 // PoweroffVM
      209 := Action([4]),                   // ReleaseVMAPI
      211 := Action([206]),                 // CheckVMAPI
      107 := Action([209]),                 // DiscardVMState
      108 := Action([210]),                 // PrepareVMBoot
      210 := Action([201]),                 // ConfigNetwork
      201 := Action([202]),                 // ConfigureVM
      202 := Action([203]),                 // DownloadMedia
      203 := Action([204]),                 // ConfigureVMBoot
      204 := Action([205]),                 // ConfigureVMScratch
      205 := Action([206]),                 // ConfigureVMAPI
      206 := Action([7]),                   // StartVM
      109 := Action([5]),                   // SaveVMState
      110 := Action([6]),                   // PauseVM
      111 := Action([7]),                   // ResumeVM
      112 := Action([])                     // FatalErrorSink
    ]
  }

  const ENTRY := 1
  const FATAL := 112

  lemma VBoxWellFormed()
    ensures WellFormed(VBoxNodes()) && ENTRY in VBoxNodes() && FATAL in VBoxNodes()
  {
  }

  lemma IntoDestroyVM(u: int)
    ensures HasEdge(VBoxNodes(), u, 208) <==> u == 207
  {
  }

  lemma IntoReleaseVMBoot(u: int)
    ensures HasEdge(VBoxNodes(), u, 207) <==> u == 105
  {
  }

  lemma IntoStartVM(u: int)
    ensures HasEdge(VBoxNodes(), u, 206) <==> u == 205 || u == 211
  {
  }

  // ------------------------------------------------------------ safe orders

  /** The only steering the session does besides FSMGoto: skews to the error
      state, to the state the hypervisor reports or to DiscardVMState, and jumps
      to the fatal error sink. */
  predicate SkewAllowed(id: int) {
    2 <= id <= 7 || id == 107
  }

  ghost predicate AllowedCall(call: Call)
    decreases call
  {
    match call
    case SkewCall(state) => SkewAllowed(state)
    case JumpCall(state, body) => state == FATAL && AllowedCalls(body.calls)
    case ContinueCall(_, body) => AllowedCalls(body.calls)
    case _ => true
  }

  ghost predicate AllowedCalls(calls: seq<Call>)
    decreases calls
  {
    calls == [] || (AllowedCall(calls[0]) && AllowedCalls(calls[1..]))
  }

  ghost predicate AllowedEvent(e: Event) {
    match e
    case Skewed(id, _) => SkewAllowed(id)
    case Jumped(id) => id == FATAL
    case Rerooted => false
    case _ => true
  }

  ghost predicate AllowedTrace(trace: seq<Event>) {
    forall i :: 0 <= i < |trace| ==> AllowedEvent(trace[i])
  }

  lemma {:induction false} SkipAllowed(g: Registry, s: State, next: int)
    requires Valid(g, s) && next in g && AllowedTrace(s.trace)
    ensures AllowedTrace(SkipStates(g, s, next).0.trace)
    decreases |s.path|
  {
    if !g[next].hasHandler && s.path != [] {
      SkipAllowed(g, s.(path := s.path[1..], trace := s.trace + [Entered(next, false)]), s.path[0]);
    }
  }

  lemma {:induction false} HandlerAllowed(g: Registry, s: State, inThread: bool, body: Body)
    requires Valid(g, s) && FATAL in g && AllowedTrace(s.trace) && AllowedCalls(body.calls)
    ensures AllowedTrace(CallHandler(g, s, inThread, body).state.trace)
    decreases body, 1
  {
    if g[s.current].hasHandler {
      CallsAllowed(g, s.(trace := s.trace + [Ran(s.current)]), body.calls);
    }
  }

  lemma {:induction false} CallAllowed(g: Registry, s: State, call: Call)
    requires Valid(g, s) && FATAL in g && AllowedTrace(s.trace) && AllowedCall(call)
    ensures AllowedTrace(Exec(g, s, call).state.trace)
    decreases call, 0
  {
    match call
    case GotoCall(state) => assert Exec(g, s, call) == Goto(g, s, state, 1);
    case SkewCall(state) => assert Exec(g, s, call) == Skew(g, s, state);
    case ReportCall(_) =>
    case JumpCall(state, body) =>
      assert Exec(g, s, call) == Jump(g, s, state, body);
      if !s.steering {
        HandlerAllowed(g, s.(steering := true, path := [], current := state, trace := s.trace + [Jumped(state)]), true, body);
      }
    case ContinueCall(inThread, body) =>
      assert Exec(g, s, call) == Continue(g, s, inThread, body);
      if !s.inside && s.path != [] {
        SkipAllowed(g, s.(inside := true, path := s.path[1..]), s.path[0]);
        HandlerAllowed(g, Take(g, s), inThread, body);
      }
  }

  lemma {:induction false} CallsAllowed(g: Registry, s: State, calls: seq<Call>)
    requires Valid(g, s) && FATAL in g && AllowedTrace(s.trace) && AllowedCalls(calls)
    ensures AllowedTrace(ExecAll(g, s, calls).state.trace)
    decreases calls, 0
  {
    if calls != [] {
      CallAllowed(g, s, calls[0]);
      if Exec(g, s, calls[0]).reply != Hangs {
        CallsAllowed(g, Exec(g, s, calls[0]).state, calls[1..]);
      }
    }
  }

  /** The last move of a trace is at `j`; after it only handlers ran. */
  ghost predicate LastMove(trace: seq<Event>, j: nat) {
    j < |trace| && !trace[j].Ran? && forall k :: j < k < |trace| ==> trace[k].Ran?
  }

  lemma {:induction false} FindLastMove(root: int, trace: seq<Event>) returns (j: nat)
    requires At(root, trace) != root
    ensures LastMove(trace, j)
    ensures match trace[j]
            case Entered(id, _) => id == At(root, trace)
            case Skewed(id, _) => id == At(root, trace)
            case Jumped(id) => id == At(root, trace)
            case _ => false
    decreases |trace|
  {
    if trace[|trace| - 1].Ran? {
      j := FindLastMove(root, trace[..|trace| - 1]);
    } else {
      j := |trace| - 1;
    }
  }

  /** `id` was entered at `i` straight from a node entered at `j`. */
  ghost predicate EnteredFrom(trace: seq<Event>, i: nat, j: nat, from: int) {
    i <= |trace| && LastMove(trace[..i], j) && trace[j].Entered? && trace[j].id == from
  }

  /** A node that no skew or jump leads to is entered from one of its
      predecessors, and that one was entered too if the same holds of it. */
  lemma EnteredFromWhere(trace: seq<Event>, i: nat) returns (j: nat)
    requires TraceOk(VBoxNodes(), ENTRY, trace) && AllowedTrace(trace)
    requires i < |trace| && trace[i].Entered? && !SkewAllowed(trace[i].id)
    requires var from := At(ENTRY, trace[..i]);
             from != ENTRY && !SkewAllowed(from) && from != FATAL
    ensures HasEdge(VBoxNodes(), At(ENTRY, trace[..i]), trace[i].id)
    ensures j < i && EnteredFrom(trace, i, j, At(ENTRY, trace[..i]))
  {
    TraceOkAt(VBoxNodes(), ENTRY, trace, i);
    j := FindLastMove(ENTRY, trace[..i]);
    assert trace[..i][j] == trace[j];
    if AfterSkew(trace[..i]) {
      SkewIsLastMove(trace[..i], j);
    }
  }

  lemma {:induction false} SkewIsLastMove(trace: seq<Event>, j: nat)
    requires AfterSkew(trace) && LastMove(trace, j)
    ensures trace[j].Skewed?
    decreases |trace|
  {
    if trace[|trace| - 1].Ran? {
      SkewIsLastMove(trace[..|trace| - 1], j);
    }
  }

  /** A node entered at `i` was entered over a link. */
  lemma EnteredOverLink(trace: seq<Event>, i: nat)
    requires TraceOk(VBoxNodes(), ENTRY, trace) && AllowedTrace(trace)
    requires i < |trace| && trace[i].Entered? && !SkewAllowed(trace[i].id) && trace[i].id != ENTRY
    ensures HasEdge(VBoxNodes(), At(ENTRY, trace[..i]), trace[i].id)
  {
    TraceOkAt(VBoxNodes(), ENTRY, trace, i);
    if AfterSkew(trace[..i]) && At(ENTRY, trace[..i]) == trace[i].id {
      var j := FindLastMove(ENTRY, trace[..i]);
      SkewIsLastMove(trace[..i], j);
    }
  }

  /** The trace of any run of a session that only steers as allowed. */
  ghost predicate SessionTrace(tasks: P.Store, meter: Option<nat>, calls: seq<Call>, trace: seq<Event>) {
    && MeterOk(tasks, meter)
    && WellFormed(VBoxNodes()) && ENTRY in VBoxNodes()
    && AllowedCalls(calls)
    && trace == ExecAll(VBoxNodes(), Initial(ENTRY, tasks, meter), calls).state.trace
  }

  lemma SessionTraceOk(tasks: P.Store, meter: Option<nat>, calls: seq<Call>, trace: seq<Event>)
    requires SessionTrace(tasks, meter, calls, trace)
    ensures TraceOk(VBoxNodes(), ENTRY, trace) && AllowedTrace(trace)
  {
    VBoxWellFormed();
    EveryRunIsSound(VBoxNodes(), ENTRY, tasks, meter, calls);
    CallsAllowed(VBoxNodes(), Initial(ENTRY, tasks, meter), calls);
  }

  /** In every run, DestroyVM is entered only straight after ReleaseVMBoot, and
      that only straight after ReleaseVMScratch, with nothing but their handlers
      in between. */
  lemma DestroyOnlyAfterRelease(tasks: P.Store, meter: Option<nat>, calls: seq<Call>, trace: seq<Event>, i: nat)
    returns (boot: nat, scratch: nat)
    requires SessionTrace(tasks, meter, calls, trace)
    requires i < |trace| && trace[i].Entered? && trace[i].id == 208
    ensures scratch < boot < i
    ensures EnteredFrom(trace, i, boot, 207) && EnteredFrom(trace, boot, scratch, 105)
  {
    SessionTraceOk(tasks, meter, calls, trace);
    EnteredOverLink(trace, i);
    IntoDestroyVM(At(ENTRY, trace[..i]));
    boot := EnteredFromWhere(trace, i);
    assert trace[..i][boot] == trace[boot];
    EnteredOverLink(trace, boot);
    IntoReleaseVMBoot(At(ENTRY, trace[..boot]));
    scratch := EnteredFromWhere(trace, boot);
  }

  /** In every run, StartVM is entered only straight after ConfigureVMAPI or
      CheckVMAPI. */
  lemma StartOnlyAfterVMAPI(tasks: P.Store, meter: Option<nat>, calls: seq<Call>, trace: seq<Event>, i: nat)
    returns (api: nat)
    requires SessionTrace(tasks, meter, calls, trace)
    requires i < |trace| && trace[i].Entered? && trace[i].id == 206
    ensures api < i && (EnteredFrom(trace, i, api, 205) || EnteredFrom(trace, i, api, 211))
  {
    SessionTraceOk(tasks, meter, calls, trace);
    EnteredOverLink(trace, i);
    IntoStartVM(At(ENTRY, trace[..i]));
    api := EnteredFromWhere(trace, i);
  }

  // ------------------------------------------------------------ who can go where

  lemma Hop(u: int, v: int, t: int)
    requires HasEdge(VBoxNodes(), u, v) && Reachable(VBoxNodes(), v, t)
    ensures Reachable(VBoxNodes(), u, t)
  {
    var p :| Joins(VBoxNodes(), p, v, t);
    PrependWalk(VBoxNodes(), u, p);
    assert Joins(VBoxNodes(), [u] + p, u, t);
  }

  lemma {:induction false} Walked(g: Registry, p: seq<int>, t: int)
    requires IsWalk(g, p) && Reachable(g, p[|p| - 1], t)
    ensures Reachable(g, p[0], t)
    decreases |p|
  {
    if |p| > 1 {
      DropFirst(g, p);
      Walked(g, p[1..], t);
      var q :| Joins(g, q, p[1], t);
      PrependWalk(g, p[0], q);
      assert Joins(g, [p[0]] + q, p[0], t);
    }
  }

  /** The next node on a way to PoweredOff, and how far that still is. */
  function TowardsPowerOff(u: int): int {
    match u
    case 1 => 100 case 2 => 102 case 3 => 104 case 5 => 107 case 6 => 111 case 7 => 106
    case 100 => 101 case 101 => 4 case 102 => 103 case 103 => 101 case 104 => 4
    case 105 => 207 case 207 => 208 case 208 => 3
    case 106 => 209 case 209 => 4 case 107 => 209 case 211 => 206
    case 108 => 210 case 210 => 201 case 201 => 202 case 202 => 203 case 203 => 204 case 204 => 205 case 205 => 206
    case 206 => 7 case 109 => 5 case 110 => 6 case 111 => 7
    case _ => 4
  }

  function Distance(u: int): nat {
    match u
    case 4 => 0
    case 101 => 1 case 104 => 1 case 209 => 1
    case 100 => 2 case 103 => 2 case 3 => 2 case 106 => 2 case 107 => 2
    case 1 => 3 case 102 => 3 case 208 => 3 case 5 => 3 case 7 => 3
    case 2 => 4 case 207 => 4 case 109 => 4 case 111 => 4 case 206 => 4
    case 105 => 5 case 6 => 5 case 211 => 5 case 205 => 5
    case 110 => 6 case 204 => 6 case 203 => 7 case 202 => 8 case 201 => 9 case 210 => 10 case 108 => 11
    case _ => 12
  }

  lemma TowardsIsEdge(u: int)
    requires u in VBoxNodes() && u != FATAL && u != 4
    ensures HasEdge(VBoxNodes(), u, TowardsPowerOff(u)) && Distance(TowardsPowerOff(u)) < Distance(u)
  {
  }

  lemma {:induction false} ReachesPowerOff(u: int)
    requires u in VBoxNodes() && u != FATAL
    ensures Reachable(VBoxNodes(), u, 4)
    decreases Distance(u)
  {
    if u == 4 {
      assert Joins(VBoxNodes(), [4], 4, 4);
    } else {
      TowardsIsEdge(u);
      var v := TowardsPowerOff(u);
      VBoxWellFormed();
      assert v in VBoxNodes();
      if v == FATAL {
        FatalIsSink(u);
      }
      ReachesPowerOff(v);
      Hop(u, v, 4);
    }
  }

  /** A walk of a few nodes, link by link. */
  lemma ShortWalk(g: Registry, p: seq<int>)
    requires 0 < |p| <= 6 && p[|p| - 1] in g
    requires |p| > 1 ==> HasEdge(g, p[0], p[1])
    requires |p| > 2 ==> HasEdge(g, p[1], p[2])
    requires |p| > 3 ==> HasEdge(g, p[2], p[3])
    requires |p| > 4 ==> HasEdge(g, p[3], p[4])
    requires |p| > 5 ==> HasEdge(g, p[4], p[5])
    ensures IsWalk(g, p)
  {
  }

  lemma DestroyLinks()
    ensures HasEdge(VBoxNodes(), 4, 105)
    ensures HasEdge(VBoxNodes(), 105, 207)
    ensures HasEdge(VBoxNodes(), 207, 208)
    ensures HasEdge(VBoxNodes(), 208, 3)
    ensures 3 in VBoxNodes()
  {
  }

  lemma DestroyIsWalk()
    ensures IsWalk(VBoxNodes(), [4, 105, 207, 208, 3])
  {
    DestroyLinks();
    ShortWalk(VBoxNodes(), [4, 105, 207, 208, 3]);
  }

  lemma PrepareLinks()
    ensures HasEdge(VBoxNodes(), 4, 108)
    ensures HasEdge(VBoxNodes(), 108, 210)
    ensures HasEdge(VBoxNodes(), 210, 201)
    ensures HasEdge(VBoxNodes(), 201, 202)
    ensures HasEdge(VBoxNodes(), 202, 203)
    ensures 203 in VBoxNodes()
  {
  }

  lemma PrepareIsWalk()
    ensures IsWalk(VBoxNodes(), [4, 108, 210, 201, 202, 203])
  {
    PrepareLinks();
    ShortWalk(VBoxNodes(), [4, 108, 210, 201, 202, 203]);
  }

  lemma BootLinks()
    ensures HasEdge(VBoxNodes(), 203, 204)
    ensures HasEdge(VBoxNodes(), 204, 205)
    ensures HasEdge(VBoxNodes(), 205, 206)
    ensures HasEdge(VBoxNodes(), 206, 7)
    ensures 7 in VBoxNodes()
  {
  }

  lemma BootIsWalk()
    ensures IsWalk(VBoxNodes(), [203, 204, 205, 206, 7])
  {
    BootLinks();
    ShortWalk(VBoxNodes(), [203, 204, 205, 206, 7]);
  }

  lemma SaveLinks()
    ensures HasEdge(VBoxNodes(), 7, 110)
    ensures HasEdge(VBoxNodes(), 110, 6)
    ensures HasEdge(VBoxNodes(), 6, 109)
    ensures HasEdge(VBoxNodes(), 109, 5)
    ensures 5 in VBoxNodes()
  {
  }

  lemma SaveIsWalk()
    ensures IsWalk(VBoxNodes(), [7, 110, 6, 109, 5])
  {
    SaveLinks();
    ShortWalk(VBoxNodes(), [7, 110, 6, 109, 5]);
  }

  predicate IsVMState(t: int) {
    3 <= t <= 7
  }

  lemma PowerOffReaches(t: int)
    requires IsVMState(t)
    ensures Reachable(VBoxNodes(), 4, t)
  {
    DestroyIsWalk();
    SaveIsWalk();
    if t == 3 {
      assert Joins(VBoxNodes(), [4, 105, 207, 208, 3], 4, 3);
    } else if t == 4 {
      assert Joins(VBoxNodes(), [4], 4, 4);
    } else {
      var n := match t case 7 => 1 case 6 => 3 case _ => 5;
      var w := [7, 110, 6, 109, 5];
      PrefixIsWalk(VBoxNodes(), w, n);
      assert Joins(VBoxNodes(), w[..n], 7, t);
      BootIsWalk();
      PrepareIsWalk();
      Walked(VBoxNodes(), [203, 204, 205, 206, 7], t);
      Walked(VBoxNodes(), [4, 108, 210, 201, 202, 203], t);
    }
  }

  lemma PrefixIsWalk(g: Registry, w: seq<int>, n: nat)
    requires IsWalk(g, w) && 0 < n <= |w|
    ensures IsWalk(g, w[..n])
  {
    forall k | 0 <= k < n - 1
      ensures LinkAt(g, w[..n], k)
    {
      assert LinkAt(g, w, k);
    }
  }

  /** From every node but the fatal error sink, FSMGoto finds a route to each of
      destroyed, powered off, saved, paused and running, unless the machine is
      there already. */
  lemma CommandsFindARoute(u: int, t: int)
    requires u in VBoxNodes() && u != FATAL && IsVMState(t)
    ensures Route(VBoxNodes(), u, t).Some? <==> u != t
  {
    ReachesPowerOff(u);
    PowerOffReaches(t);
    var p :| Joins(VBoxNodes(), p, u, 4);
    Walked(VBoxNodes(), p, t);
    RouteExistsIff(VBoxNodes(), u, t);
  }

  lemma FatalIsSink(v: int)
    ensures !HasEdge(VBoxNodes(), FATAL, v)
    ensures FATAL in VBoxNodes()
  {
  }

  /** Where `open` can go: the nodes a session only has before its state is
      known, and those of the error sequence. */
  predicate BeforeUpdate(u: int) {
    u == 1 || u == 2 || u == 100 || u == 102 || u == 103
  }

  lemma OnlyBeforeUpdate(u: int, v: int)
    requires HasEdge(VBoxNodes(), u, v) && !BeforeUpdate(u) && u != 101
    ensures !BeforeUpdate(v) && v != 101
  {
  }

  lemma {:induction false} NeverBack(p: seq<int>, u: int)
    requires Joins(VBoxNodes(), p, u, 101) && !BeforeUpdate(u)
    ensures u == 101
    decreases |p|
  {
    if |p| > 1 && u != 101 {
      DropFirst(VBoxNodes(), p);
      OnlyBeforeUpdate(u, p[1]);
      NeverBack(p[1..], p[1]);
    }
  }

  /** FSMGoto(101), with which a session is opened, finds a route exactly from
      these nodes; from a known VM state it finds none. */
  lemma OpenFindsARouteIff(u: int)
    requires u in VBoxNodes()
    ensures Route(VBoxNodes(), u, 101).Some? <==> BeforeUpdate(u)
  {
    RouteExistsIff(VBoxNodes(), u, 101);
    if BeforeUpdate(u) {
      UpdateIsNear(u);
    } else if u != 101 && Reachable(VBoxNodes(), u, 101) {
      var p :| Joins(VBoxNodes(), p, u, 101);
      NeverBack(p, u);
    }
  }

  lemma ErrorLinks()
    ensures HasEdge(VBoxNodes(), 2, 102)
    ensures HasEdge(VBoxNodes(), 102, 103)
    ensures HasEdge(VBoxNodes(), 103, 101)
    ensures 101 in VBoxNodes()
  {
  }

  lemma ErrorIsWalk()
    ensures IsWalk(VBoxNodes(), [2, 102, 103, 101])
  {
    ErrorLinks();
    ShortWalk(VBoxNodes(), [2, 102, 103, 101]);
  }

  lemma EntryLinks()
    ensures HasEdge(VBoxNodes(), 1, 100)
    ensures HasEdge(VBoxNodes(), 100, 101)
    ensures 101 in VBoxNodes()
  {
  }

  lemma EntryIsWalk()
    ensures IsWalk(VBoxNodes(), [1, 100, 101])
  {
    EntryLinks();
    ShortWalk(VBoxNodes(), [1, 100, 101]);
  }

  lemma SuffixIsWalk(g: Registry, w: seq<int>, n: nat)
    requires IsWalk(g, w) && n < |w|
    ensures IsWalk(g, w[n..])
  {
    if n > 0 {
      DropFirst(g, w);
      SuffixIsWalk(g, w[1..], n - 1);
      assert w[1..][n - 1..] == w[n..];
    }
  }

  lemma UpdateIsNear(u: int)
    requires BeforeUpdate(u)
    ensures Reachable(VBoxNodes(), u, 101)
  {
    ErrorIsWalk();
    EntryIsWalk();
    var w := if u == 1 || u == 100 then [1, 100, 101] else [2, 102, 103, 101];
    var n := match u case 1 => 0 case 2 => 0 case 103 => 2 case _ => 1;
    SuffixIsWalk(VBoxNodes(), w, n);
    assert Joins(VBoxNodes(), w[n..], u, 101);
  }

  lemma NoRouteFromSink(g: Registry, u: int, t: int)
    requires u in g && g[u].children == []
    ensures Route(g, u, t).None?
  {
    RouteExistsIff(g, u, t);
    forall p
      ensures !(u != t && Joins(g, p, u, t))
    {
      if IsWalk(g, p) && |p| > 1 {
        DropFirst(g, p);
      }
    }
  }

  /** At a node without links and with nothing pending, one call that is neither
      a skew nor a jump changes nothing but the progress. */
  lemma SinkKeeps(g: Registry, s: State, call: Call)
    requires Valid(g, s) && g[s.current].children == [] && s.path == []
    requires !call.SkewCall? && !call.JumpCall?
    ensures var r := Exec(g, s, call).state; r == s.(tasks := r.tasks)
  {
    match call
    case GotoCall(state) =>
      NoRouteFromSink(g, s.current, state);
      assert Exec(g, s, call) == Goto(g, s, state, 1);
    case ContinueCall(inThread, body) =>
      assert Exec(g, s, call) == Continue(g, s, inThread, body);
    case ReportCall(_) =>
  }

  lemma {:induction false} SinkIsFinal(g: Registry, s: State, calls: seq<Call>)
    requires Valid(g, s) && g[s.current].children == [] && s.path == []
    requires forall c :: c in calls ==> !c.SkewCall? && !c.JumpCall?
    ensures var r := ExecAll(g, s, calls).state; r == s.(tasks := r.tasks)
    decreases |calls|
  {
    if calls != [] {
      assert calls[0] in calls;
      SinkKeeps(g, s, calls[0]);
      if Exec(g, s, calls[0]).reply != Hangs {
        SinkIsFinal(g, Exec(g, s, calls[0]).state, calls[1..]);
      }
    }
  }

  /** Once in the fatal error sink only a skew or another jump leads out: no
      route is found and no node is entered, whatever is asked of the machine. */
  lemma FatalIsFinal(s: State, calls: seq<Call>)
    requires Valid(VBoxNodes(), s) && s.current == FATAL && s.path == []
    requires forall c :: c in calls ==> !c.SkewCall? && !c.JumpCall?
    ensures var r := ExecAll(VBoxNodes(), s, calls).state;
            r.current == FATAL && r.path == [] && r.trace == s.trace
  {
    FatalHasNoLinks();
    SinkIsFinal(VBoxNodes(), s, calls);
  }

  lemma FatalHasNoLinks()
    ensures FATAL in VBoxNodes() && VBoxNodes()[FATAL].children == []
  {
  }
}
