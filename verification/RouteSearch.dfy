/** `findShortestPath` and the search `FSMGoto` starts it with: a recursive
    branch-and-bound depth-first search that shares a clip length and a best
    path between all its activations. */
module RouteSearch {
  import opened FsmGraph

  /** A completion of `path`: a simple walk that starts with `path`, goes on
      past it and ends at `dst`. */
  ghost predicate Completes(g: Registry, path: seq<int>, dst: int, q: seq<int>) {
    && |path| < |q|
    && path == q[..|path|]
    && IsWalk(g, q)
    && Simple(q)
    && q[|q| - 1] == dst
  }

  /** A completion of `path` whose first new node is one of `via`. */
  ghost predicate CompletesVia(g: Registry, path: seq<int>, dst: int, via: seq<int>, q: seq<int>) {
    Completes(g, path, dst, q) && q[|path|] in via
  }

  /** What searching the completions of `path` through `via` does to the shared
      state. Either there is none short enough to matter and nothing changes, or
      the best of them, strictly shorter than what the old clip length allowed,
      has become the best path. */
  ghost predicate Searched(g: Registry, path: seq<int>, dst: int, via: seq<int>,
                           clip0: nat, best0: Option<seq<int>>, clip: nat, best: Option<seq<int>>)
  {
    if clip == clip0 then
      && best == best0
      && forall q :: CompletesVia(g, path, dst, via, q) ==> clip0 < |q|
    else
      && clip < clip0
      && best.Some?
      && CompletesVia(g, path, dst, via, best.value)
      && |best.value| == clip + 1
      && forall q :: CompletesVia(g, path, dst, via, q) ==> NoWorse(g, best.value, q)
  }

  /** A completion through a child that is not the target is a completion of
      the path extended by that child, and the other way round. */
  lemma CompletesChild(g: Registry, path: seq<int>, dst: int, n: int, q: seq<int>)
    requires n != dst && n in g
    ensures (Completes(g, path, dst, q) && q[|path|] == n)
       <==> CompletesVia(g, path + [n], dst, g[n].children, q)
  {
    if Completes(g, path, dst, q) && q[|path|] == n {
      assert q[..|path| + 1] == path + [n];
      assert |q| > |path| + 1;
      assert LinkAt(g, q, |path|);
    }
    if CompletesVia(g, path + [n], dst, g[n].children, q) {
      assert q[..|path| + 1][|path|] == n;
      assert q[..|path|] == q[..|path| + 1][..|path|] == path;
    }
  }

  /** Two completions that part right after `path` are ordered by their links. */
  lemma PartAtPath(g: Registry, path: seq<int>, dst: int, i: nat, p: seq<int>, q: seq<int>)
    requires |path| > 0 && IsWalk(g, path)
    requires var children := g[path[|path| - 1]].children;
             && i < |children|
             && CompletesVia(g, path, dst, children[..i], p)
             && Completes(g, path, dst, q)
             && q[|path|] == children[i]
             && children[i] !in children[..i]
    ensures LexBefore(g, p, q)
  {
    var k := |path|;
    var children := g[path[k - 1]].children;
    assert p[..k][k - 1] == path[k - 1] && q[..k][k - 1] == path[k - 1];
    assert LinkAt(g, p, k - 1) && LinkAt(g, q, k - 1);
    var j :| 0 <= j < i && children[j] == p[k];
    assert Rank(children, p[k]) <= j;
    assert Rank(children, q[k]) >= i;
    assert PartsBefore(g, p, q, k);
  }

  /** Searching the first `i` children and then child `i` searches the first
      `i + 1` children: clipping never loses a better route, and a later route
      of equal length never replaces an earlier one. */
  lemma SearchNextChild(g: Registry, path: seq<int>, dst: int, i: nat,
                        clip0: nat, best0: Option<seq<int>>, clip1: nat, best1: Option<seq<int>>,
                        clip2: nat, best2: Option<seq<int>>)
    requires |path| > 0 && IsWalk(g, path)
    requires i < |g[path[|path| - 1]].children|
    requires var children := g[path[|path| - 1]].children;
             && Searched(g, path, dst, children[..i], clip0, best0, clip1, best1)
             && children[i] != dst && children[i] in g
             && Searched(g, path + [children[i]], dst, g[children[i]].children, clip1, best1, clip2, best2)
    ensures Searched(g, path, dst, g[path[|path| - 1]].children[..i + 1], clip0, best0, clip2, best2)
  {
    var children := g[path[|path| - 1]].children;
    var n := children[i];
    forall q
      ensures CompletesVia(g, path, dst, children[..i + 1], q)
         <==> CompletesVia(g, path, dst, children[..i], q) || CompletesVia(g, path + [n], dst, g[n].children, q)
    {
      CompletesChild(g, path, dst, n, q);
      if |q| > |path| {
        assert q[|path|] in children[..i + 1] <==> q[|path|] in children[..i] || q[|path|] == n;
      }
    }
    if clip2 == clip1 && clip1 != clip0 {
      forall q | CompletesVia(g, path, dst, children[..i + 1], q)
        ensures NoWorse(g, best1.value, q)
      {
        if !CompletesVia(g, path, dst, children[..i], q) {
          CompletesChild(g, path, dst, n, q);
          PartAtPath(g, path, dst, i, best1.value, q);
        }
      }
    }
  }

  /** Once a child is the target, the path to it is the best completion. */
  lemma TargetIsNextChild(g: Registry, path: seq<int>, dst: int, i: nat, clip: nat, best: Option<seq<int>>, clip0: nat, best0: Option<seq<int>>)
    requires |path| > 0 && IsWalk(g, path) && Simple(path)
    requires i < |g[path[|path| - 1]].children|
    requires g[path[|path| - 1]].children[i] == dst && dst in g && dst !in path
    requires Searched(g, path, dst, g[path[|path| - 1]].children[..i], clip0, best0, clip, best)
    requires |path| < clip
    ensures Searched(g, path, dst, g[path[|path| - 1]].children, clip0, best0, |path|, Some(path + [dst]))
  {
    var children := g[path[|path| - 1]].children;
    var r := path + [dst];
    assert HasEdge(g, path[|path| - 1], dst);
    forall k | 0 <= k < |r| - 1
      ensures LinkAt(g, r, k)
    {
      if k < |path| - 1 {
        assert LinkAt(g, path, k);
      }
    }
    assert IsWalk(g, r);
    assert CompletesVia(g, path, dst, children, r);
    forall q | CompletesVia(g, path, dst, children, q)
      ensures NoWorse(g, r, q)
    {
      if |q| == |r| {
        assert q == q[..|path|] + [q[|path|]];
      }
    }
  }

  /** The state the activations of one search share, and the graph and target
      they search for. */
  class Search {
    const nodes: Registry
    const state: int
    var clipLength: nat
    var bestPath: Option<seq<int>>

    constructor (g: Registry, target: int)
      ensures nodes == g && state == target
      ensures clipLength == |g| && bestPath == None
    {
      nodes := g;
      state := target;
      clipLength := |g|;
      bestPath := None;
    }

    /** Searches every completion of `prefix` followed by `node`. */
    method FindShortestPath(prefix: seq<int>, node: int)
      requires WellFormed(nodes)
      requires node in nodes
      requires IsWalk(nodes, prefix + [node]) && Simple(prefix + [node])
      modifies this
      ensures Searched(nodes, prefix + [node], state, nodes[node].children,
                       old(clipLength), old(bestPath), clipLength, bestPath)
      decreases |nodes| - |prefix|
    {
      var path := prefix + [node];
      SimpleFits(nodes, path);

      // no path through here can be shorter
      if |path| >= clipLength {
        return;
      }

      var children := nodes[node].children;
      var i := 0;
      while i < |children|
        invariant 0 <= i <= |children|
        invariant |path| < clipLength
        invariant Searched(nodes, path, state, children[..i], old(clipLength), old(bestPath), clipLength, bestPath)
      {
        var n := children[i];
        if n in path {
          assert forall q :: CompletesVia(nodes, path, state, children[..i + 1], q)
                        ==> CompletesVia(nodes, path, state, children[..i], q) by {
            forall q | CompletesVia(nodes, path, state, children[..i + 1], q)
              ensures CompletesVia(nodes, path, state, children[..i], q)
            {
              VisitedIsNoCompletion(nodes, path, state, n, q);
            }
          }
        } else if n == state {
          TargetIsNextChild(nodes, path, state, i, clipLength, bestPath, old(clipLength), old(bestPath));
          clipLength := |path|;
          path := path + [n];
          bestPath := Some(path);
          return;
        } else {
          ghost var clip1, best1 := clipLength, bestPath;
          ExtendSimple(nodes, path, n);
          FindShortestPath(path, n);
          SearchNextChild(nodes, path, state, i, old(clipLength), old(bestPath), clip1, best1, clipLength, bestPath);
        }
        i := i + 1;
      }
      assert children[..i] == children;
    }
  }

  lemma VisitedIsNoCompletion(g: Registry, path: seq<int>, dst: int, n: int, q: seq<int>)
    requires n in path && Completes(g, path, dst, q)
    ensures q[|path|] != n
  {
    var k :| 0 <= k < |path| && path[k] == n;
    assert q[..|path|][k] == n;
    assert q[k] != q[|path|];
  }

  lemma ExtendSimple(g: Registry, path: seq<int>, n: int)
    requires WellFormed(g) && IsWalk(g, path) && Simple(path)
    requires n in g[path[|path| - 1]].children && n !in path
    ensures IsWalk(g, path + [n]) && Simple(path + [n])
  {
    var r := path + [n];
    var u := path[|path| - 1];
    assert u in g && n in g[u].children;
    assert n in g;
    forall k | 0 <= k < |r| - 1
      ensures LinkAt(g, r, k)
    {
      if k < |path| - 1 {
        assert LinkAt(g, path, k);
      }
    }
  }

  /** What the finished search says about ALL walks between the two nodes. */
  lemma SearchedIsRoute(g: Registry, src: int, dst: int, clip: nat, best: Option<seq<int>>)
    requires WellFormed(g) && src in g
    requires Searched(g, [src], dst, g[src].children, |g|, None, clip, best)
    ensures best == Route(g, src, dst)
    ensures best.Some? <==> src != dst && Reachable(g, src, dst)
  {
    forall q | Joins(g, q, src, dst) && Simple(q) && src != dst
      ensures CompletesVia(g, [src], dst, g[src].children, q)
    {
      assert LinkAt(g, q, 0);
      assert q[..1] == [src];
    }
    if clip == |g| {
      forall w | src != dst && Joins(g, w, src, dst)
        ensures false
      {
        var s := Shorten(g, w);
        SimpleFits(g, s);
      }
    } else {
      assert best.value[..1] == [src];
      assert best.value[0] == src;
      SimpleBestIsBest(g, src, dst, best.value);
      BestRouteUnique(g, src, dst, best.value, Route(g, src, dst).value);
    }
  }

  /** The search as `FSMGoto` runs it. */
  method FindRoute(g: Registry, src: int, dst: int) returns (r: Option<seq<int>>)
    requires WellFormed(g) && src in g
    ensures r == Route(g, src, dst)
    ensures r.Some? <==> src != dst && Reachable(g, src, dst)
  {
    var s := new Search(g, dst);
    s.FindShortestPath([], src);
    assert [] + [src] == [src];
    SearchedIsRoute(g, src, dst, s.clipLength, s.bestPath);
    r := s.bestPath;
  }
}
