/** The directed graph an FSM is registered with, and what it means for a path
    through it to be the best route between two nodes.
    Node ids stand for the node pointers of the program: the registry keeps one
    node object for each id. */
module FsmGraph {

  datatype Option<+T> = None | Some(value: T)

  /** A registered node: whether it has a handler, and its links in the order
      they were registered. */
  datatype Node = Node(hasHandler: bool, children: seq<int>)

  type Registry = map<int, Node>

  /** Every link leads to a registered node. */
  ghost predicate WellFormed(g: Registry) {
    forall id, c :: id in g && c in g[id].children ==> c in g
  }

  predicate HasEdge(g: Registry, u: int, v: int) {
    u in g && v in g[u].children
  }

  /** Node `i` of the sequence is linked to the next. */
  predicate LinkAt(g: Registry, p: seq<int>, i: int)
    requires 0 <= i < |p| - 1
  {
    HasEdge(g, p[i], p[i + 1])
  }

  /** A non-empty sequence of registered nodes, each linked to the next. */
  ghost predicate IsWalk(g: Registry, p: seq<int>) {
    && |p| > 0
    && (forall i :: 0 <= i < |p| ==> p[i] in g)
    && (forall i :: 0 <= i < |p| - 1 ==> LinkAt(g, p, i))
  }

  ghost predicate Joins(g: Registry, p: seq<int>, src: int, dst: int) {
    IsWalk(g, p) && p[0] == src && p[|p| - 1] == dst
  }

  ghost predicate Simple(p: seq<int>) {
    forall i, j :: 0 <= i < j < |p| ==> p[i] != p[j]
  }

  ghost predicate Reachable(g: Registry, src: int, dst: int) {
    exists p :: Joins(g, p, src, dst)
  }

  /** The position at which a link to `v` was first registered. */
  ghost function Rank(children: seq<int>, v: int): (r: nat)
    requires v in children
    ensures r < |children| && children[r] == v && v !in children[..r]
  {
    if children[0] == v then 0 else 1 + Rank(children[1..], v)
  }

  /** `p` comes before `q` when, at the node where they part, `p` follows the
      link that was registered first. */
  ghost predicate LexBefore(g: Registry, p: seq<int>, q: seq<int>)
    requires IsWalk(g, p) && IsWalk(g, q)
  {
    exists i :: PartsBefore(g, p, q, i)
  }

  ghost predicate PartsBefore(g: Registry, p: seq<int>, q: seq<int>, i: int)
    requires IsWalk(g, p) && IsWalk(g, q)
  {
    && 0 < i < |p|
    && i < |q|
    && p[..i] == q[..i]
    && HasEdge(g, p[i - 1], p[i])
    && HasEdge(g, p[i - 1], q[i])
    && Rank(g[p[i - 1]].children, p[i]) < Rank(g[p[i - 1]].children, q[i])
  }

  /** `p` is at least as good as `q`: shorter, or as long and not later. */
  ghost predicate NoWorse(g: Registry, p: seq<int>, q: seq<int>)
    requires IsWalk(g, p) && IsWalk(g, q)
  {
    |p| < |q| || (|p| == |q| && (p == q || LexBefore(g, p, q)))
  }

  /** The reference definition of a route: a simple walk between two different
      nodes that is no worse than ANY walk between them. */
  ghost predicate IsBestRoute(g: Registry, src: int, dst: int, p: seq<int>) {
    && src != dst
    && Joins(g, p, src, dst)
    && Simple(p)
    && forall w :: Joins(g, w, src, dst) ==> NoWorse(g, p, w)
  }

  /** The route from `src` to `dst`, if there is one. */
  ghost function Route(g: Registry, src: int, dst: int): (r: Option<seq<int>>)
    ensures r.Some? ==> IsBestRoute(g, src, dst, r.value)
    ensures r.None? ==> forall p :: !IsBestRoute(g, src, dst, p)
  {
    if p :| IsBestRoute(g, src, dst, p) then Some(p) else None
  }

  lemma PartOnce(p: seq<int>, q: seq<int>, i: nat, j: nat)
    requires i < |p| && i < |q| && p[..i] == q[..i] && p[i] != q[i]
    requires j < |p| && j < |q| && p[..j] == q[..j]
    ensures j <= i
  {
  }

  /** Two routes that are each no worse than the other are the same. */
  lemma LexAntisymmetric(g: Registry, p: seq<int>, q: seq<int>)
    requires IsWalk(g, p) && IsWalk(g, q)
    requires LexBefore(g, p, q)
    ensures p != q && !LexBefore(g, q, p)
  {
    var i :| PartsBefore(g, p, q, i);
    assert p[i] != q[i];
    assert p[..i][i - 1] == q[..i][i - 1];
    forall j
      ensures !PartsBefore(g, q, p, j)
    {
      if 0 < j < |p| && j < |q| && p[..j] == q[..j] && p[j] != q[j] {
        PartOnce(p, q, i, j);
        PartOnce(p, q, j, i);
      }
    }
  }

  /** There is at most one best route, so `Route` is determined by the graph. */
  lemma BestRouteUnique(g: Registry, src: int, dst: int, p: seq<int>, q: seq<int>)
    requires IsBestRoute(g, src, dst, p) && IsBestRoute(g, src, dst, q)
    ensures p == q
  {
    assert NoWorse(g, p, q) && NoWorse(g, q, p);
    if p != q {
      LexAntisymmetric(g, p, q);
    }
  }

  /** A simple walk cannot be longer than the number of registered nodes. */
  lemma {:induction false} SimpleFits(g: Registry, p: seq<int>)
    requires Simple(p)
    requires forall i :: 0 <= i < |p| ==> p[i] in g
    ensures |p| <= |g|
  {
    var nodes := set x | x in p;
    DistinctCount(p);
    assert nodes <= g.Keys;
    SubsetSize(nodes, g.Keys);
  }

  lemma {:induction false} DistinctCount(p: seq<int>)
    requires Simple(p)
    ensures |set x | x in p| == |p|
  {
    if p != [] {
      var rest := p[..|p| - 1];
      DistinctCount(rest);
      assert (set x | x in p) == (set x | x in rest) + {p[|p| - 1]};
      assert p[|p| - 1] !in rest;
    }
  }

  lemma {:induction false} SubsetSize(a: set<int>, b: set<int>)
    requires a <= b
    ensures |a| <= |b|
  {
    assert b == a + (b - a);
  }

  /** Cutting the loop out of a walk that visits a node twice leaves a walk
      between the same ends. */
  lemma CutLoop(g: Registry, w: seq<int>, i: int, j: int)
    requires IsWalk(g, w)
    requires 0 <= i < j < |w| && w[i] == w[j]
    ensures Joins(g, w[..i] + w[j..], w[0], w[|w| - 1])
    ensures |w[..i] + w[j..]| < |w|
  {
    var c := w[..i] + w[j..];
    forall k | 0 <= k < |c| - 1
      ensures LinkAt(g, c, k)
    {
      if k < i - 1 {
        assert LinkAt(g, w, k);
      } else if k == i - 1 {
        assert LinkAt(g, w, i - 1);
      } else {
        assert LinkAt(g, w, k - i + j);
      }
    }
  }

  /** Exchange argument: every walk can be shortened to a simple one between
      the same ends, and a walk that is not simple gets strictly shorter. */
  lemma {:induction false} Shorten(g: Registry, w: seq<int>) returns (s: seq<int>)
    requires IsWalk(g, w)
    ensures Joins(g, s, w[0], w[|w| - 1]) && Simple(s)
    ensures if Simple(w) then s == w else |s| < |w|
    decreases |w|
  {
    if Simple(w) {
      s := w;
    } else {
      var i, j :| 0 <= i < j < |w| && w[i] == w[j];
      CutLoop(g, w, i, j);
      s := Shorten(g, w[..i] + w[j..]);
    }
  }

  /** A simple walk that beats every SIMPLE walk beats every walk. */
  lemma SimpleBestIsBest(g: Registry, src: int, dst: int, p: seq<int>)
    requires src != dst
    requires Joins(g, p, src, dst) && Simple(p)
    requires forall q :: Joins(g, q, src, dst) && Simple(q) ==> NoWorse(g, p, q)
    ensures IsBestRoute(g, src, dst, p)
  {
    forall w | Joins(g, w, src, dst)
      ensures NoWorse(g, p, w)
    {
      var s := Shorten(g, w);
      assert NoWorse(g, p, s);
    }
  }

  lemma PrependWalk(g: Registry, u: int, p: seq<int>)
    requires IsWalk(g, p) && HasEdge(g, u, p[0])
    ensures IsWalk(g, [u] + p)
  {
    var r := [u] + p;
    forall k | 0 <= k < |r| - 1
      ensures LinkAt(g, r, k)
    {
      if k > 0 {
        assert LinkAt(g, p, k - 1);
      }
    }
  }

  lemma DropFirst(g: Registry, w: seq<int>)
    requires IsWalk(g, w) && |w| > 1
    ensures IsWalk(g, w[1..]) && HasEdge(g, w[0], w[1])
  {
    forall k | 0 <= k < |w[1..]| - 1
      ensures LinkAt(g, w[1..], k)
    {
      assert LinkAt(g, w, k + 1);
    }
    assert LinkAt(g, w, 0);
  }

  ghost predicate JoinsIn(g: Registry, src: int, dst: int, len: nat, p: seq<int>) {
    Joins(g, p, src, dst) && |p| == len
  }

  ghost predicate WithinReach(g: Registry, src: int, dst: int, len: nat) {
    exists p :: JoinsIn(g, src, dst, len, p)
  }

  /** Among the walks of one length, following the first link from which the
      rest can still be walked gives the lexicographically first. */
  lemma {:induction false} FirstWalk(g: Registry, src: int, dst: int, len: nat) returns (p: seq<int>)
    requires WithinReach(g, src, dst, len)
    ensures JoinsIn(g, src, dst, len, p)
    ensures forall w :: JoinsIn(g, src, dst, len, w) ==> NoWorse(g, p, w)
    decreases len
  {
    var some :| JoinsIn(g, src, dst, len, some);
    if len == 1 {
      p := some;
      forall w | JoinsIn(g, src, dst, len, w)
        ensures w == p
      {
      }
    } else {
      var i := FirstLink(g, src, dst, len, some);
      var rest := FirstWalk(g, g[src].children[i], dst, len - 1);
      p := [src] + rest;
      PrependWalk(g, src, rest);
      forall w | JoinsIn(g, src, dst, len, w)
        ensures NoWorse(g, p, w)
      {
        RestJoins(g, src, dst, len, w);
        FirstChoice(g, src, i, rest, w);
      }
    }
  }

  lemma RestJoins(g: Registry, src: int, dst: int, len: nat, w: seq<int>)
    requires JoinsIn(g, src, dst, len, w) && len > 1
    ensures HasEdge(g, src, w[1]) && JoinsIn(g, w[1], dst, len - 1, w[1..])
  {
    DropFirst(g, w);
  }

  /** The first link from which the rest can be walked. */
  lemma FirstLink(g: Registry, src: int, dst: int, len: nat, some: seq<int>) returns (i: nat)
    requires JoinsIn(g, src, dst, len, some) && len > 1
    ensures src in g && i < |g[src].children| && WithinReach(g, g[src].children[i], dst, len - 1)
    ensures forall w :: JoinsIn(g, src, dst, len, w) ==> w[1] in g[src].children && i <= Rank(g[src].children, w[1])
  {
    RestJoins(g, src, dst, len, some);
    var children := g[src].children;
    i := 0;
    while !WithinReach(g, children[i], dst, len - 1)
      invariant 0 <= i <= Rank(children, some[1])
      invariant forall k :: 0 <= k < i ==> !WithinReach(g, children[k], dst, len - 1)
      decreases |children| - i
    {
      i := i + 1;
    }
    forall w | JoinsIn(g, src, dst, len, w)
      ensures w[1] in children && i <= Rank(children, w[1])
    {
      RestJoins(g, src, dst, len, w);
      assert WithinReach(g, w[1], dst, len - 1);
    }
  }

  /** Taking the first link that works, and the first walk from there. */
  lemma FirstChoice(g: Registry, src: int, i: nat, rest: seq<int>, w: seq<int>)
    requires IsWalk(g, rest) && IsWalk(g, w) && |w| == |rest| + 1 && w[0] == src && IsWalk(g, w[1..])
    requires HasEdge(g, src, w[1])
    requires i < |g[src].children| && rest[0] == g[src].children[i] && i <= Rank(g[src].children, w[1])
    requires w[1] == rest[0] ==> NoWorse(g, rest, w[1..])
    ensures IsWalk(g, [src] + rest) && NoWorse(g, [src] + rest, w)
  {
    PrependWalk(g, src, rest);
    if w[1] == rest[0] {
      PrependKeepsOrder(g, src, rest, w[1..]);
      assert [src] + w[1..] == w;
    } else {
      assert Rank(g[src].children, rest[0]) <= i;
      assert ([src] + rest)[..1] == w[..1];
      assert PartsBefore(g, [src] + rest, w, 1);
    }
  }

  lemma PrependKeepsOrder(g: Registry, u: int, p: seq<int>, q: seq<int>)
    requires IsWalk(g, p) && IsWalk(g, q) && |p| == |q|
    requires HasEdge(g, u, p[0]) && HasEdge(g, u, q[0])
    requires NoWorse(g, p, q)
    ensures IsWalk(g, [u] + p) && IsWalk(g, [u] + q) && NoWorse(g, [u] + p, [u] + q)
  {
    PrependWalk(g, u, p);
    PrependWalk(g, u, q);
    if p != q {
      var i :| PartsBefore(g, p, q, i);
      var up, uq := [u] + p, [u] + q;
      assert up[..i + 1] == [u] + p[..i];
      assert uq[..i + 1] == [u] + q[..i];
      assert up[i] == p[i - 1] && up[i + 1] == p[i] && uq[i + 1] == q[i];
      assert PartsBefore(g, up, uq, i + 1);
    }
  }

  /** A best route exists exactly when the target is another node that can be
      reached: the condition under which `FSMGoto` finds a path. */
  lemma RouteExistsIff(g: Registry, src: int, dst: int)
    ensures Route(g, src, dst).Some? <==> src != dst && Reachable(g, src, dst)
  {
    if src != dst && Reachable(g, src, dst) {
      var some :| Joins(g, some, src, dst);
      assert JoinsIn(g, src, dst, |some|, some);
      var len := 0;
      while !WithinReach(g, src, dst, len)
        invariant len <= |some|
        invariant forall k :: 0 <= k < len ==> !WithinReach(g, src, dst, k)
        decreases |some| - len
      {
        len := len + 1;
      }
      var p := FirstWalk(g, src, dst, len);
      forall w | Joins(g, w, src, dst)
        ensures NoWorse(g, p, w)
      {
        assert JoinsIn(g, src, dst, |w|, w);
        assert WithinReach(g, src, dst, |w|);
        assert len <= |w|;
      }
      var s := Shorten(g, p);
      assert Joins(g, s, src, dst);
      assert IsBestRoute(g, src, dst, p);
    }
  }
}
