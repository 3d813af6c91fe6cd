/**
 * Edmonds-Karp maximum flow (Lab2/task2.6/maxflow.cc): breadth-first
 * search for a path of edges with spare capacity, then push the path's
 * bottleneck along it, until no such path is left.
 */
module EdmondsKarp {
  import opened Common
  import opened FlowNetwork

  /** The program's `parent[v]`: the edge (`k`-th of `u`) the search reached `v` by, or none. */
  datatype Parent = NoParent | Via(u: int, k: int)

  /**
   * The search tree: every parent edge has spare capacity and leads to its
   * vertex from a vertex of smaller depth that is the source or has a
   * parent itself; the source has none.
   */
  ghost predicate Forest(g: seq<seq<Edge>>, s: int, parent: seq<Parent>, depth: seq<nat>)
  {
    |parent| == |g| && |depth| == |g| && 0 <= s < |g| && parent[s] == NoParent &&
    forall v :: 0 <= v < |g| && parent[v].Via? ==> TreeEdge(g, s, parent, depth, v)
  }

  ghost predicate TreeEdge(g: seq<seq<Edge>>, s: int, parent: seq<Parent>, depth: seq<nat>, v: int)
    requires |parent| == |g| && |depth| == |g| && 0 <= v < |g| && parent[v].Via?
  {
    var u, k := parent[v].u, parent[v].k;
    0 <= u < |g| && 0 <= k < |g[u]| && g[u][k].to == v && Residual(g[u][k]) &&
    depth[u] < depth[v] && (u == s || parent[u].Via?)
  }

  /** The search's loop state, with the vertices queued so far and how many were taken off. */
  ghost predicate Searching(g: seq<seq<Edge>>, s: int, t: int, parent: seq<Parent>, depth: seq<nat>,
                            queue: seq<int>, head: int)
  {
    Paired(g) && Forest(g, s, parent, depth) && 0 <= t < |g| &&
    0 <= head <= |queue| && |queue| > 0 && queue[0] == s &&
    (forall i :: 0 <= i < |queue| ==> 0 <= queue[i] < |g|) &&
    (forall i, j :: 0 <= i < j < |queue| ==> queue[i] != queue[j]) &&
    (forall v :: 0 <= v < |g| ==> (v in queue <==> v == s || parent[v].Via?)) &&
    (forall v :: 0 <= v < |g| && parent[v].Via? ==> parent[v].u in queue) &&
    (t in queue ==> t == s)
  }

  /** Queued vertices are distinct, so at most `|g|` are ever queued. */
  lemma QueueBound(g: seq<seq<Edge>>, s: int, t: int, parent: seq<Parent>, depth: seq<nat>,
                   queue: seq<int>, head: int)
    requires Searching(g, s, t, parent, depth, queue, head)
    ensures |queue| <= |g|
  {
    DistinctCard(queue);
    SubsetOfRangeCard(set i | 0 <= i < |queue| :: queue[i], |g|);
  }

  /** Every spare edge of the first `head` queued vertices leads to a queued vertex. */
  ghost predicate Expanded(g: seq<seq<Edge>>, queue: seq<int>, head: int)
    requires 0 <= head <= |queue| && forall i :: 0 <= i < |queue| ==> 0 <= queue[i] < |g|
  {
    forall i, k :: 0 <= i < head && 0 <= k < |g[queue[i]]| && Residual(g[queue[i]][k]) ==> g[queue[i]][k].to in queue
  }

  /** The spare edges among the first `k` of `u` lead to queued vertices. */
  ghost predicate Scanned(g: seq<seq<Edge>>, u: int, k: int, queue: seq<int>)
    requires 0 <= u < |g| && 0 <= k <= |g[u]|
  {
    forall j :: 0 <= j < k && Residual(g[u][j]) ==> g[u][j].to in queue
  }

  /** One more edge scanned, with the queue possibly grown at its end. */
  lemma ScanStep(g: seq<seq<Edge>>, u: int, k: int, queue: seq<int>, queue': seq<int>, head: int)
    requires 0 <= u < |g| && 0 <= k < |g[u]| && Scanned(g, u, k, queue)
    requires 0 <= head <= |queue| && forall i :: 0 <= i < |queue| ==> 0 <= queue[i] < |g|
    requires Expanded(g, queue, head)
    requires queue <= queue' && forall i :: 0 <= i < |queue'| ==> 0 <= queue'[i] < |g|
    requires Residual(g[u][k]) ==> g[u][k].to in queue'
    ensures Scanned(g, u, k + 1, queue') && Expanded(g, queue', head)
  {
    assert forall i :: 0 <= i < |queue| ==> queue'[i] == queue[i];
    assert forall v :: v in queue ==> v in queue';
  }

  /** Finishing `u`'s edges expands one more queued vertex. */
  lemma ScanDone(g: seq<seq<Edge>>, queue: seq<int>, head: int)
    requires 0 < head <= |queue| && forall i :: 0 <= i < |queue| ==> 0 <= queue[i] < |g|
    requires Expanded(g, queue, head - 1)
    requires Scanned(g, queue[head - 1], |g[queue[head - 1]]|, queue)
    ensures Expanded(g, queue, head)
  {
  }

  /** Discovering `w` by edge `k` of `u`. */
  lemma Discover(g: seq<seq<Edge>>, s: int, t: int, parent: seq<Parent>, depth: seq<nat>,
                 queue: seq<int>, head: int, u: int, k: int)
    requires Searching(g, s, t, parent, depth, queue, head) && u in queue && 0 <= k < |g[u]|
    requires var w := g[u][k].to; 0 <= w < |g| && parent[w] == NoParent && w != s && Residual(g[u][k])
    ensures var w := g[u][k].to;
            var parent', depth' := parent[w := Via(u, k)], depth[w := depth[u] + 1];
            Forest(g, s, parent', depth') &&
            (w != t ==> Searching(g, s, t, parent', depth', queue + [w], head))
  {
    var w := g[u][k].to;
    var parent', depth' := parent[w := Via(u, k)], depth[w := depth[u] + 1];
    assert w !in queue;
    forall v | 0 <= v < |g| && parent'[v].Via?
      ensures TreeEdge(g, s, parent', depth', v)
    {
      if v != w {
        assert TreeEdge(g, s, parent, depth, v);
        assert parent[v].u in queue;
      }
    }
  }

  /**
   * The inner loop of the search: scan the edges of the vertex just taken
   * from the queue, queueing each unreached end of a spare edge and
   * stopping as soon as `t` is reached.
   */
  method ScanVertex(g: seq<seq<Edge>>, s: int, t: int, parent0: seq<Parent>, ghost depth0: seq<nat>,
                    queue0: seq<int>, head: int)
    returns (found: bool, parent: seq<Parent>, ghost depth: seq<nat>, queue: seq<int>)
    requires Searching(g, s, t, parent0, depth0, queue0, head) && 0 < head && Expanded(g, queue0, head - 1)
    ensures Forest(g, s, parent, depth)
    ensures found ==> t != s && parent[t].Via?
    ensures !found ==> Searching(g, s, t, parent, depth, queue, head) && Expanded(g, queue, head) &&
                       |queue| >= |queue0|
  {
    parent, depth, queue := parent0, depth0, queue0;
    found := false;
    var u := queue[head - 1];
    var k := 0;
    while k < |g[u]|
      invariant |queue| >= |queue0|
      invariant Searching(g, s, t, parent, depth, queue, head) && u == queue[head - 1]
      invariant Expanded(g, queue, head - 1)
      invariant 0 <= k <= |g[u]| && Scanned(g, u, k, queue)
    {
      var e := g[u][k];
      assert EdgeAt(g, u, k) && Mate(g, u, k);
      ghost var queue1 := queue;
      if parent[e.to] == NoParent && e.to != s && e.flow < e.capacity {
        Discover(g, s, t, parent, depth, queue, head, u, k);
        parent := parent[e.to := Via(u, k)];
        depth := depth[e.to := depth[u] + 1];
        if e.to == t {
          return true, parent, depth, queue;
        }
        queue := queue + [e.to];
      } else if e.flow < e.capacity {
        assert e.to == s || parent[e.to].Via?;
      }
      ScanStep(g, u, k, queue1, queue, head - 1);
      k := k + 1;
    }
    ScanDone(g, queue, head);
  }

  /**
   * The program's `BFS`: breadth-first from `s` over edges with spare
   * capacity, never re-entering `s`, returning as soon as `t` gets a
   * parent.
   */
  method Bfs(g: seq<seq<Edge>>, s: int, t: int) returns (found: bool, parent: seq<Parent>, ghost depth: seq<nat>)
    requires Paired(g) && 0 <= s < |g| && 0 <= t < |g|
    ensures Forest(g, s, parent, depth)
    ensures found ==> t != s && parent[t].Via?
    ensures !found && t != s ==> !Reachable(g, s, t)
  {
    parent := seq(|g|, _ => NoParent);
    depth := seq(|g|, _ => 0);
    var queue := [s];
    var head := 0;
    while head < |queue|
      invariant Searching(g, s, t, parent, depth, queue, head)
      invariant Expanded(g, queue, head)
      decreases |g| - |queue|, |queue| - head
    {
      QueueBound(g, s, t, parent, depth, queue, head);
      head := head + 1;
      found, parent, depth, queue := ScanVertex(g, s, t, parent, depth, queue, head);
      if found {
        return;
      }
      QueueBound(g, s, t, parent, depth, queue, head);
    }
    found := false;
    if t != s && Reachable(g, s, t) {
      ClosedReach(g, queue, s, t);
    }
  }

  /**
   * Following `parent` back from `v` to the source, as both loops of the
   * program's `MaxFlow` do, gives a path from `s` to `v` of edges with
   * spare capacity that leave ever deeper, hence different, vertices.
   */
  function Trace(g: seq<seq<Edge>>, s: int, parent: seq<Parent>, ghost depth: seq<nat>, v: int): (p: seq<Hop>)
    requires Forest(g, s, parent, depth) && 0 <= v < |g| && (v == s || parent[v].Via?)
    ensures PathFrom(g, p, s, v)
    ensures forall i :: 0 <= i < |p| ==> Residual(g[p[i].u][p[i].k]) && depth[p[i].u] < depth[v]
    ensures forall i, j :: 0 <= i < j < |p| ==> depth[p[i].u] < depth[p[j].u]
    ensures DistinctTails(p)
    decreases depth[v]
  {
    if parent[v] == NoParent then []
    else
      assert TreeEdge(g, s, parent, depth, v);
      var u, k := parent[v].u, parent[v].k;
      var p := Trace(g, s, parent, depth, u);
      TraceStep(g, s, depth, p, u, k, v, p + [Hop(u, k)]);
      p + [Hop(u, k)]
  }

  /** A traced path extended by the tree edge into `v` is still a path that climbs in depth. */
  lemma TraceStep(g: seq<seq<Edge>>, s: int, depth: seq<nat>, p: seq<Hop>, u: int, k: int, v: int, q: seq<Hop>)
    requires |depth| == |g| && 0 <= u < |g| && 0 <= k < |g[u]| && g[u][k].to == v && 0 <= v < |g|
    requires Residual(g[u][k]) && depth[u] < depth[v]
    requires PathFrom(g, p, s, u)
    requires forall i :: 0 <= i < |p| ==> Residual(g[p[i].u][p[i].k]) && depth[p[i].u] < depth[u]
    requires forall i, j :: 0 <= i < j < |p| ==> depth[p[i].u] < depth[p[j].u]
    requires q == p + [Hop(u, k)]
    ensures PathFrom(g, q, s, v)
    ensures forall i :: 0 <= i < |q| ==> Residual(g[q[i].u][q[i].k]) && depth[q[i].u] < depth[v]
    ensures forall i, j :: 0 <= i < j < |q| ==> depth[q[i].u] < depth[q[j].u]
    ensures DistinctTails(q)
  {
    assert forall i :: 0 <= i < |p| ==> q[i] == p[i];
  }

  /** A path of edges with spare capacity makes its end reachable. */
  lemma {:induction false} PathReachable(g: seq<seq<Edge>>, p: seq<Hop>, a: int, b: int)
    requires PathFrom(g, p, a, b) && 0 <= a < |g| && 0 <= b < |g|
    requires forall i :: 0 <= i < |p| ==> Residual(g[p[i].u][p[i].k])
    ensures Reachable(g, a, b)
    decreases |p|
  {
    if |p| == 0 {
      ReachableStart(g, a);
    } else {
      var h := p[|p| - 1];
      var p' := p[..|p| - 1];
      assert PathFrom(g, p', a, h.u);
      PathReachable(g, p', a, h.u);
      assert g[h.u][h.k].to == b;
      ReachableStep(g, a, h.u, b);
    }
  }

  /** Along edges with spare capacity the bottleneck is at least 1. */
  lemma BottleneckPositive(g: seq<seq<Edge>>, p: seq<Hop>)
    requires OnGraph(g, p) && forall i :: 0 <= i < |p| ==> Residual(g[p[i].u][p[i].k])
    ensures Bottleneck(g, p) >= 1
  {
    var r := Bottleneck(g, p);
    if r != Infinity {
      var i :| 0 <= i < |p| && r == g[p[i].u][p[i].k].capacity - g[p[i].u][p[i].k].flow;
    }
  }

  /** Cutting the loop between two visits of the same vertex out of a walk leaves a shorter walk with the same ends. */
  lemma CutWalk(g: seq<seq<Edge>>, q: seq<int>, a: int, b: int, c: seq<int>)
    requires ResidualWalk(g, q) && 0 <= a < b < |q| && q[a] == q[b] && c == q[..a] + q[b..]
    ensures ResidualWalk(g, c) && c[0] == q[0] && c[|c| - 1] == q[|q| - 1] && |c| < |q|
  {
    assert forall i :: 0 <= i < a ==> c[i] == q[i];
    assert forall i :: a <= i < |c| ==> c[i] == q[i + b - a];
    forall i | 0 <= i < |c| - 1
      ensures Step(g, c[i], c[i + 1])
    {
      if i + 1 < a {
        assert Step(g, q[i], q[i + 1]);
      } else if i + 1 == a {
        assert c[i + 1] == q[a];
        assert Step(g, q[i], q[i + 1]);
      } else {
        assert Step(g, q[i + b - a], q[i + b - a + 1]);
      }
    }
  }

  /** Whatever is reachable is reachable by a walk through at most `|g|` vertices. */
  lemma {:induction false} ShortWalk(g: seq<seq<Edge>>, q: seq<int>) returns (q': seq<int>)
    requires ResidualWalk(g, q)
    ensures ResidualWalk(g, q') && q'[0] == q[0] && q'[|q'| - 1] == q[|q| - 1] && |q'| <= |g|
    decreases |q|
  {
    if |q| <= |g| {
      q' := q;
    } else {
      Pigeonhole(q, |g|);
      var a, b :| 0 <= a < b < |q| && q[a] == q[b];
      var c := q[..a] + q[b..];
      CutWalk(g, q, a, b, c);
      q' := ShortWalk(g, c);
    }
  }

  /** Augmenting by a non-negative amount lowers the flow of no edge except the mates of the path's edges. */
  lemma {:induction false} AugmentRaises(g: seq<seq<Edge>>, p: seq<Hop>, f: int, u: int, k: int)
    requires Paired(g) && OnGraph(g, p) && f >= 0 && EdgeAt(g, u, k)
    ensures (forall i :: 0 <= i < |p| ==> g[p[i].u][p[i].k].to != u || g[p[i].u][p[i].k].rev != k) ==>
            Augment(g, p, f)[u][k].flow >= g[u][k].flow
    decreases |p|
  {
    if |p| > 0 && forall i :: 0 <= i < |p| ==> g[p[i].u][p[i].k].to != u || g[p[i].u][p[i].k].rev != k {
      var h := p[|p| - 1];
      var g1 := Push(g, h.u, h.k, f);
      SameNetworkPaired(g, g1);
      var p' := p[..|p| - 1];
      forall i | 0 <= i < |p'|
        ensures EdgeAt(g1, p'[i].u, p'[i].k) && (g1[p'[i].u][p'[i].k].to != u || g1[p'[i].u][p'[i].k].rev != k)
      {
        assert p'[i] == p[i] && EdgeAt(g, p[i].u, p[i].k);
      }
      AugmentRaises(g1, p', f, u, k);
      assert g[h.u][h.k].to != u || g[h.u][h.k].rev != k;
    }
  }

  /**
   * A feasible flow on the network `g` carrying `value` out of `s` and into
   * `t` and conserved everywhere else, measured against the flows `g`
   * started with.
   */
  ghost predicate Carries(g: seq<seq<Edge>>, fg: seq<seq<Edge>>, s: int, t: int, value: int)
  {
    Feasible(fg) && SameNetwork(g, fg) && 0 <= s < |g| && 0 <= t < |g| &&
    value >= 0 && value == NetOut(fg, s) - NetOut(g, s) &&
    (s != t ==> value == NetOut(g, t) - NetOut(fg, t)) &&
    forall v :: 0 <= v < |g| && v != s && v != t ==> NetOut(fg, v) == NetOut(g, v)
  }

  /** One round of augmentation along a path from `s` to `t` adds `f` to the value carried. */
  lemma AugmentStep(g: seq<seq<Edge>>, fg: seq<seq<Edge>>, s: int, t: int, value: int, p: seq<Hop>, f: int)
    requires Carries(g, fg, s, t, value) && s != t && PathFrom(fg, p, s, t) && DistinctTails(p) && f >= 1
    requires forall i :: 0 <= i < |p| ==> f <= fg[p[i].u][p[i].k].capacity - fg[p[i].u][p[i].k].flow
    ensures Carries(g, Augment(fg, p, f), s, t, value + f)
    ensures NetOut(Augment(fg, p, f), s) == NetOut(fg, s) + f
  {
    var fg' := Augment(fg, p, f);
    AugmentFeasible(fg, p, f);
    SameNetworkTrans(g, fg, fg');
    forall v | 0 <= v < |fg|
      ensures NetOut(fg', v) == NetOut(fg, v) + (if v == s then f else 0) - (if v == t then f else 0)
    {
      AugmentNetOut(fg, p, f, s, t, v);
    }
  }

  /**
   * The program's `MaxFlow`: augment along the search's path by its
   * bottleneck until the search fails.  The result is a feasible flow on
   * the same network, conserved at every vertex but `s` and `t`, of value
   * `maxFlow` leaving `s` and entering `t`, with no path of spare
   * capacity left from `s` to `t`.
   */
  method MaxFlow(g: seq<seq<Edge>>, s: int, t: int) returns (maxFlow: int, fg: seq<seq<Edge>>)
    requires Feasible(g) && 0 <= s < |g| && 0 <= t < |g|
    ensures Feasible(fg) && SameNetwork(g, fg)
    ensures maxFlow >= 0 && maxFlow == NetOut(fg, s) - NetOut(g, s)
    ensures s != t ==> maxFlow == NetOut(g, t) - NetOut(fg, t)
    ensures forall v :: 0 <= v < |g| && v != s && v != t ==> NetOut(fg, v) == NetOut(g, v)
    ensures s != t ==> !Reachable(fg, s, t)
  {
    maxFlow := 0;
    fg := g;
    var found, parent, depth := Bfs(fg, s, t);
    while found
      invariant Carries(g, fg, s, t, maxFlow)
      invariant Forest(fg, s, parent, depth)
      invariant found ==> t != s && parent[t].Via?
      invariant !found && t != s ==> !Reachable(fg, s, t)
      decreases RowCapacity(g[s]) - NetOut(fg, s)
    {
      NetOutBound(g, fg, s);
      var path := Trace(fg, s, parent, depth, t);
      var pathFlow := Bottleneck(fg, path);
      BottleneckPositive(fg, path);
      AugmentStep(g, fg, s, t, maxFlow, path, pathFlow);
      maxFlow := maxFlow + pathFlow;
      fg := Augment(fg, path, pathFlow);
      NetOutBound(g, fg, s);
      found, parent, depth := Bfs(fg, s, t);
    }
  }
}
