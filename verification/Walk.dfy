/**
  The client's breadth-first walk over the knowledge graph: from a start node it
  returns every node within the depth limit once, nearest first.
 */
module Walk {
  import opened Basics

  const MAX_WALK_DEPTH: int := 10

  /** Outgoing edges; a node the server does not know has none. */
  type Graph = map<nat, seq<nat>>

  function Out(g: Graph, u: nat): seq<nat> {
    if u in g then g[u] else []
  }

  // ---- distance -----------------------------------------------------------

  function Successors(g: Graph, s: set<nat>): set<nat> {
    set u, i | u in s && 0 <= i < |Out(g, u)| :: Out(g, u)[i]
  }

  /** The nodes at most `k` edges away. */
  function Ball(g: Graph, start: nat, k: nat): set<nat> {
    if k == 0 then {start} else Ball(g, start, k - 1) + Successors(g, Ball(g, start, k - 1))
  }

  ghost predicate IsPath(g: Graph, p: seq<nat>) {
    p != [] && forall i :: 0 <= i < |p| - 1 ==> p[i + 1] in Out(g, p[i])
  }

  /** A path from `start` to `v` with at most `k` edges. */
  ghost predicate PathWithin(g: Graph, start: nat, v: nat, k: nat, p: seq<nat>) {
    IsPath(g, p) && p[0] == start && p[|p| - 1] == v && |p| <= k + 1
  }

  /** Being in the ball is having a path that short. */
  lemma {:induction false} BallIsPaths(g: Graph, start: nat, v: nat, k: nat)
    ensures v in Ball(g, start, k) <==> exists p :: PathWithin(g, start, v, k, p)
  {
    if v in Ball(g, start, k) {
      var p := PathTo(g, start, v, k);
    }
    if p :| PathWithin(g, start, v, k, p) {
      PathStays(g, start, v, k, p);
    }
  }

  lemma {:induction false} PathTo(g: Graph, start: nat, v: nat, k: nat) returns (p: seq<nat>)
    requires v in Ball(g, start, k)
    ensures PathWithin(g, start, v, k, p)
    decreases k
  {
    if k == 0 {
      p := [start];
    } else if v in Ball(g, start, k - 1) {
      p := PathTo(g, start, v, k - 1);
    } else {
      var u, i :| u in Ball(g, start, k - 1) && 0 <= i < |Out(g, u)| && Out(g, u)[i] == v;
      p := PathTo(g, start, u, k - 1);
      PathExtends(g, start, u, k - 1, p, v);
      p := p + [v];
    }
  }

  lemma {:induction false} PathExtends(g: Graph, start: nat, u: nat, k: nat, p: seq<nat>, v: nat)
    requires PathWithin(g, start, u, k, p) && v in Out(g, u)
    ensures PathWithin(g, start, v, k + 1, p + [v])
  {
    hide Out;
    var q := p + [v];
    forall i | 0 <= i < |q| - 1 ensures q[i + 1] in Out(g, q[i]) {
      if i < |p| - 1 { assert p[i + 1] in Out(g, p[i]); }
    }
  }

  lemma {:induction false} PathStays(g: Graph, start: nat, v: nat, k: nat, p: seq<nat>)
    requires PathWithin(g, start, v, k, p)
    ensures v in Ball(g, start, k)
    decreases |p|
  {
    if |p| == 1 {
      BallGrows(g, start, 0, k);
    } else {
      var n := |p| - 1;
      var u := p[n - 1];
      assert p[n] in Out(g, u) by { assert p[n - 1 + 1] in Out(g, p[n - 1]); }
      PathStays(g, start, u, k - 1, p[..n]);
    }
  }

  lemma {:induction false} BallGrows(g: Graph, start: nat, j: nat, k: nat)
    requires j <= k
    ensures Ball(g, start, j) <= Ball(g, start, k)
    decreases k
  {
    if j < k { BallGrows(g, start, j, k - 1); }
  }

  // ---- the walk -----------------------------------------------------------

  datatype Visit = Visit(node: nat, depth: nat)

  /** The visit's depth is the node's distance. */
  ghost predicate Exact(g: Graph, start: nat, x: Visit) {
    x.node in Ball(g, start, x.depth) && (x.depth > 0 ==> x.node !in Ball(g, start, x.depth - 1))
  }

  /** Visits in the order they were discovered: distinct nodes with exact depths, nearest first. */
  ghost predicate Discovered(g: Graph, start: nat, trail: seq<Visit>, limit: nat) {
    && (forall i :: 0 <= i < |trail| ==> Exact(g, start, trail[i]) && trail[i].depth <= limit)
    && (forall i, j :: 0 <= i < j < |trail| ==> trail[i].node != trail[j].node && trail[i].depth <= trail[j].depth)
  }

  function Nodes(trail: seq<Visit>): set<nat> {
    set i | 0 <= i < |trail| :: trail[i].node
  }

  /** Everything one edge beyond the first `n` visits has been discovered. */
  ghost predicate Expanded(g: Graph, trail: seq<Visit>, n: nat, limit: nat)
    requires n <= |trail|
  {
    forall i :: 0 <= i < n && trail[i].depth < limit ==> ExpandedAt(g, trail, i)
  }

  ghost predicate ExpandedAt(g: Graph, trail: seq<Visit>, i: nat)
    requires i < |trail|
  {
    forall e :: 0 <= e < |Out(g, trail[i].node)| ==> Out(g, trail[i].node)[e] in Nodes(trail)
  }

  /** If every visit below depth `d` has been expanded, the whole ball of radius `d` is
      discovered. */
  lemma {:induction false} BallDiscovered(g: Graph, start: nat, trail: seq<Visit>, n: nat, d: nat, limit: nat)
    requires Discovered(g, start, trail, limit) && n <= |trail| && Expanded(g, trail, n, limit) && d <= limit
    requires start in Nodes(trail) && forall i :: n <= i < |trail| ==> trail[i].depth >= d
    ensures Ball(g, start, d) <= Nodes(trail)
  {
    if d > 0 {
      hide Discovered, Expanded, Nodes;
      BallDiscovered(g, start, trail, n, d - 1, limit);
      forall v | v in Successors(g, Ball(g, start, d - 1)) ensures v in Nodes(trail) {
        var u, e :| u in Ball(g, start, d - 1) && 0 <= e < |Out(g, u)| && Out(g, u)[e] == v;
        SuccessorDiscovered(g, start, trail, n, d, limit, u, e);
      }
    }
  }

  lemma {:induction false} SuccessorDiscovered(g: Graph, start: nat, trail: seq<Visit>, n: nat, d: nat, limit: nat, u: nat, e: nat)
    requires Discovered(g, start, trail, limit) && n <= |trail| && Expanded(g, trail, n, limit) && 0 < d <= limit
    requires forall i :: n <= i < |trail| ==> trail[i].depth >= d
    requires u in Ball(g, start, d - 1) && u in Nodes(trail) && e < |Out(g, u)|
    ensures Out(g, u)[e] in Nodes(trail)
  {
    hide Ball;
    var i :| 0 <= i < |trail| && trail[i].node == u;
    DepthAtMost(g, start, trail[i], d - 1);
    assert ExpandedAt(g, trail, i);
  }

  lemma {:induction false} DepthAtMost(g: Graph, start: nat, x: Visit, k: nat)
    requires Exact(g, start, x) && x.node in Ball(g, start, k)
    ensures x.depth <= k
  {
    if k < x.depth { BallGrows(g, start, k, x.depth - 1); }
  }

  /** Everything the walk could ever meet. */
  function Universe(g: Graph, start: nat): set<nat> {
    {start} + (set u, i | u in g && 0 <= i < |g[u]| :: g[u][i])
  }

  /** The result in terms of distance alone: exactly the ball, each node once, nearest first. */
  ghost predicate IsWalk(g: Graph, start: nat, limit: nat, result: seq<nat>) {
    && (forall v :: v in result <==> v in Ball(g, start, limit))
    && (forall i, j :: 0 <= i < j < |result| ==> result[i] != result[j])
    && (forall i, j, k: nat :: 0 <= i < j < |result| && result[j] in Ball(g, start, k) ==> result[i] in Ball(g, start, k))
  }

  function Limit(maxDepth: int): (limit: nat)
    ensures 0 <= maxDepth <= 10 ==> limit == maxDepth
    ensures maxDepth > 10 ==> limit == 10
    ensures maxDepth < 0 ==> limit == 0
  {
    var d := if maxDepth < MAX_WALK_DEPTH then maxDepth else MAX_WALK_DEPTH;
    if d < 0 then 0 else d
  }

  lemma {:induction false} WalkDone(g: Graph, start: nat, trail: seq<Visit>, limit: nat, result: seq<nat>)
    requires Discovered(g, start, trail, limit) && Expanded(g, trail, |trail|, limit) && start in Nodes(trail)
    requires |result| == |trail| && forall i :: 0 <= i < |result| ==> result[i] == trail[i].node
    ensures IsWalk(g, start, limit, result)
  {
    BallDiscovered(g, start, trail, |trail|, limit, limit);
    forall v ensures v in result <==> v in Ball(g, start, limit) {
      if v in result {
        var i :| 0 <= i < |result| && result[i] == v;
        BallGrows(g, start, trail[i].depth, limit);
      }
      if v in Ball(g, start, limit) {
        var i :| 0 <= i < |trail| && trail[i].node == v;
        assert result[i] == v;
      }
    }
    forall i, j, k: nat | 0 <= i < j < |result| && result[j] in Ball(g, start, k) ensures result[i] in Ball(g, start, k) {
      DepthAtMost(g, start, trail[j], k);
      BallGrows(g, start, trail[i].depth, k);
    }
  }

  /** What holds between two steps of the walk: `trail` is what has been dequeued
      followed by the queue. */
  ghost predicate Walking(g: Graph, start: nat, limit: nat, trail: seq<Visit>, done: nat, visited: set<nat>) {
    && done <= |trail| && trail != [] && trail[0] == Visit(start, 0)
    && Discovered(g, start, trail, limit) && Expanded(g, trail, done, limit)
    && visited == Nodes(trail) && visited <= Universe(g, start)
    && (forall i :: done < |trail| && done <= i < |trail| ==> trail[i].depth <= trail[done].depth + 1)
  }

  /** The same while the neighbours of the node at `done` are being looked at. */
  ghost predicate Expanding(g: Graph, start: nat, limit: nat, trail: seq<Visit>, done: nat, visited: set<nat>, e: nat) {
    && done < |trail| && trail[done].depth < limit && e <= |Out(g, trail[done].node)|
    && Walking(g, start, limit, trail, done, visited)
    && forall k :: 0 <= k < e ==> Out(g, trail[done].node)[k] in visited
  }

  /** Discovering the next neighbour, if it is new, keeps everything. */
  lemma {:induction false} DiscoverOne(g: Graph, start: nat, limit: nat, trail: seq<Visit>, done: nat, visited: set<nat>, e: nat)
    requires Expanding(g, start, limit, trail, done, visited, e) && e < |Out(g, trail[done].node)|
    ensures var v := Out(g, trail[done].node)[e];
      if v in visited then Expanding(g, start, limit, trail, done, visited, e + 1)
      else Expanding(g, start, limit, trail + [Visit(v, trail[done].depth + 1)], done, visited + {v}, e + 1)
  {
    hide Exact, Expanded, Nodes, Universe, Discovered, Out;
    var d, u := trail[done].depth, trail[done].node;
    var v := Out(g, u)[e];
    if v !in visited {
      var x := Visit(v, d + 1);
      StartIsIn(trail);
      NewIsExact(g, start, limit, trail, done, e);
      NodesPush(trail, x);
      StillExpanded(g, trail, x, done, limit);
      DiscoveredPush(g, start, trail, x, limit, done);
      InUniverse(g, start, u, e);
    }
  }

  lemma {:induction false} InUniverse(g: Graph, start: nat, u: nat, e: nat)
    requires e < |Out(g, u)|
    ensures Out(g, u)[e] in Universe(g, start)
  {
  }

  lemma {:induction false} StartIsIn(trail: seq<Visit>)
    requires trail != []
    ensures trail[0].node in Nodes(trail)
  {
  }

  lemma {:induction false} DiscoveredPush(g: Graph, start: nat, trail: seq<Visit>, x: Visit, limit: nat, done: nat)
    requires Discovered(g, start, trail, limit) && Exact(g, start, x) && x.node !in Nodes(trail) && x.depth <= limit
    requires done < |trail| && forall i :: done <= i < |trail| ==> trail[i].depth <= x.depth
    ensures Discovered(g, start, trail + [x], limit)
  {
    hide Exact;
    var more := trail + [x];
    forall i, j | 0 <= i < j < |more| ensures more[i].node != more[j].node && more[i].depth <= more[j].depth {
      if j == |trail| {
        assert trail[i].node in Nodes(trail);
        if i < done { assert trail[i].depth <= trail[done].depth; }
      }
    }
  }

  lemma {:induction false} NodesPush(trail: seq<Visit>, x: Visit)
    ensures Nodes(trail + [x]) == Nodes(trail) + {x.node}
  {
    var more := trail + [x];
    assert more[|trail|] == x;
    assert forall i :: 0 <= i < |trail| ==> more[i] == trail[i];
  }

  lemma {:induction false} StillExpanded(g: Graph, trail: seq<Visit>, x: Visit, done: nat, limit: nat)
    requires done <= |trail| && Expanded(g, trail, done, limit)
    ensures Expanded(g, trail + [x], done, limit)
  {
    NodesPush(trail, x);
    hide Nodes;
    forall i | 0 <= i < done && (trail + [x])[i].depth < limit ensures ExpandedAt(g, trail + [x], i) {
      assert ExpandedAt(g, trail, i);
    }
  }

  /** A neighbour not met before is one edge further out than the node it was met from. */
  lemma {:induction false} NewIsExact(g: Graph, start: nat, limit: nat, trail: seq<Visit>, done: nat, e: nat)
    requires done < |trail| && Discovered(g, start, trail, limit) && Expanded(g, trail, done, limit) && start in Nodes(trail)
    requires trail[done].depth < limit && e < |Out(g, trail[done].node)| && Out(g, trail[done].node)[e] !in Nodes(trail)
    ensures Exact(g, start, Visit(Out(g, trail[done].node)[e], trail[done].depth + 1))
  {
    hide Ball, Out, Nodes, Successors, Expanded;
    var d, u := trail[done].depth, trail[done].node;
    DepthsFrom(g, start, trail, limit, done);
    BallDiscovered(g, start, trail, done, d, limit);
    ExactNext(g, start, u, d, e);
  }

  lemma {:induction false} ExactNext(g: Graph, start: nat, u: nat, d: nat, e: nat)
    requires u in Ball(g, start, d) && e < |Out(g, u)| && Out(g, u)[e] !in Ball(g, start, d)
    ensures Exact(g, start, Visit(Out(g, u)[e], d + 1))
  {
    SuccessorIn(g, Ball(g, start, d), u, e);
    hide Successors, Out;
  }

  lemma {:induction false} SuccessorIn(g: Graph, s: set<nat>, u: nat, e: nat)
    requires u in s && e < |Out(g, u)|
    ensures Out(g, u)[e] in Successors(g, s)
  {
  }

  lemma {:induction false} DepthsFrom(g: Graph, start: nat, trail: seq<Visit>, limit: nat, done: nat)
    requires done < |trail| && Discovered(g, start, trail, limit)
    ensures forall i :: done <= i < |trail| ==> trail[i].depth >= trail[done].depth
    ensures trail[done].node in Ball(g, start, trail[done].depth)
  {
    hide Ball;
  }

  /** Moving on to the next node in the queue. */
  lemma {:induction false} MoveOn(g: Graph, start: nat, limit: nat, trail: seq<Visit>, done: nat, visited: set<nat>)
    requires done < |trail| && Walking(g, start, limit, trail, done, visited)
    requires trail[done].depth < limit ==> ExpandedAt(g, trail, done)
    ensures Walking(g, start, limit, trail, done + 1, visited)
  {
    hide Ball, ExpandedAt, Nodes;
  }

  method BreadthFirst(g: Graph, start: nat, maxDepth: int) returns (result: seq<nat>)
    ensures IsWalk(g, start, Limit(maxDepth), result)
  {
    hide Ball, Walking, IsWalk, Universe;
    var limit := if maxDepth < MAX_WALK_DEPTH then maxDepth else MAX_WALK_DEPTH;
    var visited := {start};
    var queue := [Visit(start, 0)];
    result := [];
    ghost var trail := queue;
    WalkStarts(g, start, Limit(maxDepth));
    while queue != []
      invariant Walking(g, start, Limit(maxDepth), trail, |result|, visited)
      invariant |result| <= |trail| && queue == trail[|result|..] && forall i :: 0 <= i < |result| ==> result[i] == trail[i].node
      decreases |Universe(g, start) - visited|, |queue|
    {
      var current, done := queue[0], |result|;
      ghost var seen, before := visited, trail;
      queue := queue[1..];
      if current.depth < limit {
        var edges := Out(g, current.node);
        WalkingIsExpanding(g, start, limit, trail, done, visited);
        for e := 0 to |edges|
          invariant Expanding(g, start, limit, trail, done, visited, e) && trail[done] == current
          invariant queue == trail[done + 1..] && forall i :: 0 <= i < done ==> result[i] == trail[i].node
          invariant seen <= visited && (seen == visited ==> trail == before)
        {
          DiscoverOne(g, start, limit, trail, done, visited, e);
          var v := edges[e];
          if v !in visited {
            visited := visited + {v};
            queue := queue + [Visit(v, current.depth + 1)];
            trail := trail + [Visit(v, current.depth + 1)];
          }
        }
        ExpandedNow(g, start, limit, trail, done, visited);
      }
      MoveOn(g, start, Limit(maxDepth), trail, done, visited);
      Progress(g, start, Limit(maxDepth), trail, done + 1, seen, visited);
      result := result + [current.node];
    }
    WalkEnds(g, start, Limit(maxDepth), trail, visited, result);
  }

  /** Every discovery leaves less to discover. */
  lemma {:induction false} Progress(g: Graph, start: nat, limit: nat, trail: seq<Visit>, done: nat, seen: set<nat>, visited: set<nat>)
    requires seen <= visited && Walking(g, start, limit, trail, done, visited)
    ensures seen == visited || |Universe(g, start) - visited| < |Universe(g, start) - seen|
  {
    if v :| v in visited && v !in seen {
      Smaller(Universe(g, start) - visited, Universe(g, start) - seen, v);
    } else {
      assert seen == visited;
    }
  }

  lemma {:induction false} Smaller(a: set<nat>, b: set<nat>, v: nat)
    requires a <= b && v in b && v !in a
    ensures |a| < |b|
  {
    SubsetSize(a, b - {v});
  }

  lemma {:induction false} WalkStarts(g: Graph, start: nat, limit: nat)
    ensures Walking(g, start, limit, [Visit(start, 0)], 0, {start})
  {
    assert [Visit(start, 0)][0].node == start;
    assert Nodes([Visit(start, 0)]) == {start};
  }

  lemma {:induction false} WalkingIsExpanding(g: Graph, start: nat, limit: nat, trail: seq<Visit>, done: nat, visited: set<nat>)
    requires done < |trail| && Walking(g, start, limit, trail, done, visited) && trail[done].depth < limit
    ensures Expanding(g, start, limit, trail, done, visited, 0)
  {
  }

  lemma {:induction false} ExpandedNow(g: Graph, start: nat, limit: nat, trail: seq<Visit>, done: nat, visited: set<nat>)
    requires done < |trail| && Expanding(g, start, limit, trail, done, visited, |Out(g, trail[done].node)|)
    ensures ExpandedAt(g, trail, done) && Walking(g, start, limit, trail, done, visited)
  {
    hide Ball, Discovered, Expanded, Nodes;
  }

  lemma {:induction false} WalkEnds(g: Graph, start: nat, limit: nat, trail: seq<Visit>, visited: set<nat>, result: seq<nat>)
    requires Walking(g, start, limit, trail, |trail|, visited)
    requires |result| == |trail| && forall i :: 0 <= i < |result| ==> result[i] == trail[i].node
    ensures IsWalk(g, start, limit, result)
  {
    assert trail[0].node == start && start in Nodes(trail);
    WalkDone(g, start, trail, limit, result);
  }
}
