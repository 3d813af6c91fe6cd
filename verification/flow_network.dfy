/**
 * Flow graphs shared by the maximum-flow, minimum-cut and minimum-cost
 * programs (Lab2/task2.6/maxflow.cc, Lab2/task2.7/mincut.cc,
 * Lab2/task2.8/mincostmaxflow.cc).  Every input edge is stored next to a
 * reverse edge of capacity 0; each records the index of its mate in the
 * list of its head, and the flow on a mate is always the negated flow.
 */
module FlowNetwork {

  /** The programs' `kInfinity`, also the initial value of `path_flow`. */
  const Infinity: int := 1000000001

  datatype Edge = Edge(from: int, to: int, capacity: int, flow: int, rev: int)

  predicate EdgeAt(g: seq<seq<Edge>>, u: int, k: int)
  {
    0 <= u < |g| && 0 <= k < |g[u]|
  }

  /** Edge `k` of `u` leaves `u`, and its mate is another edge, leading back, whose mate it is. */
  predicate Mate(g: seq<seq<Edge>>, u: int, k: int)
    requires EdgeAt(g, u, k)
  {
    var e := g[u][k];
    e.from == u && 0 <= e.to < |g| && 0 <= e.rev < |g[e.to]| &&
    g[e.to][e.rev].to == u && g[e.to][e.rev].rev == k && (e.to != u || e.rev != k)
  }

  ghost predicate Paired(g: seq<seq<Edge>>)
  {
    forall u, k :: EdgeAt(g, u, k) ==> Mate(g, u, k)
  }

  /** An edge with spare capacity: the only kind the searches follow. */
  predicate Residual(e: Edge)
  {
    e.flow < e.capacity
  }

  /** Capacity bounds and skew symmetry on a paired graph. */
  ghost predicate Feasible(g: seq<seq<Edge>>)
  {
    Paired(g) &&
    forall u, k :: EdgeAt(g, u, k) ==>
      g[u][k].flow <= g[u][k].capacity && g[g[u][k].to][g[u][k].rev].flow == -g[u][k].flow
  }

  /** `h` is `g` with possibly other flows: the same edges, capacities and mates. */
  ghost predicate SameNetwork(g: seq<seq<Edge>>, h: seq<seq<Edge>>)
  {
    |h| == |g| &&
    (forall u :: 0 <= u < |g| ==> |h[u]| == |g[u]|) &&
    forall u, k :: EdgeAt(g, u, k) ==> h[u][k] == g[u][k].(flow := h[u][k].flow)
  }

  lemma SameNetworkTrans(g: seq<seq<Edge>>, h: seq<seq<Edge>>, i: seq<seq<Edge>>)
    requires SameNetwork(g, h) && SameNetwork(h, i)
    ensures SameNetwork(g, i)
  {
    forall u, k | EdgeAt(g, u, k)
      ensures i[u][k] == g[u][k].(flow := i[u][k].flow)
    {
      assert EdgeAt(h, u, k);
    }
  }

  lemma SameNetworkPaired(g: seq<seq<Edge>>, h: seq<seq<Edge>>)
    requires SameNetwork(g, h) && Paired(g)
    ensures Paired(h)
  {
    forall u, k | EdgeAt(h, u, k)
      ensures Mate(h, u, k)
    {
      assert EdgeAt(g, u, k) && Mate(g, u, k);
      var e := g[u][k];
      assert EdgeAt(g, e.to, e.rev);
    }
  }

  // ---------------------------------------------------------------------
  // Construction
  // ---------------------------------------------------------------------

  /**
   * The input loop as written: the edge `u -> v` records as its mate the
   * next free index of `v`'s list, and the reverse edge records the index
   * just used in `u`'s list.
   */
  function AddEdgeAsWritten(g: seq<seq<Edge>>, u: int, v: int, c: int): (r: seq<seq<Edge>>)
    requires 0 <= u < |g| && 0 <= v < |g|
    ensures |r| == |g| && |r[u]| == |g[u]| + (if u == v then 2 else 1)
    ensures u != v ==> |r[v]| == |g[v]| + 1
    ensures forall w :: 0 <= w < |g| && w != u && w != v ==> r[w] == g[w]
    ensures forall w, k :: EdgeAt(g, w, k) ==> EdgeAt(r, w, k) && r[w][k] == g[w][k]
    ensures r[u][|g[u]|] == Edge(u, v, c, 0, |g[v]|)
    ensures r[v][|r[v]| - 1] == Edge(v, u, 0, 0, |g[u]|)
  {
    var g1 := g[u := g[u] + [Edge(u, v, c, 0, |g[v]|)]];
    g1[v := g1[v] + [Edge(v, u, 0, 0, |g1[u]| - 1)]]
  }

  /** The input loop with the mate index of a self-loop moved past the edge itself. */
  function AddEdge(g: seq<seq<Edge>>, u: int, v: int, c: int): (r: seq<seq<Edge>>)
    requires 0 <= u < |g| && 0 <= v < |g|
    ensures |r| == |g| && |r[u]| == |g[u]| + (if u == v then 2 else 1)
    ensures u != v ==> |r[v]| == |g[v]| + 1
    ensures forall w :: 0 <= w < |g| && w != u && w != v ==> r[w] == g[w]
    ensures forall w, k :: EdgeAt(g, w, k) ==> EdgeAt(r, w, k) && r[w][k] == g[w][k]
    ensures r[u][|g[u]|] == Edge(u, v, c, 0, |g[v]| + (if u == v then 1 else 0))
    ensures r[v][|r[v]| - 1] == Edge(v, u, 0, 0, |g[u]|)
  {
    var g1 := g[u := g[u] + [Edge(u, v, c, 0, |g[v]| + (if u == v then 1 else 0))]];
    g1[v := g1[v] + [Edge(v, u, 0, 0, |g1[u]| - 1)]]
  }

  /** A flow graph with no flow yet, nonnegative capacities, every edge paired. */
  ghost predicate Unused(g: seq<seq<Edge>>)
  {
    Feasible(g) && forall u, k :: EdgeAt(g, u, k) ==> g[u][k].flow == 0
  }

  /**
   * Adding an edge of capacity `c >= 0` to a graph without flow keeps it
   * paired and without flow; the new edge carries `c`, its reverse 0.
   */
  lemma AddEdgeUnused(g: seq<seq<Edge>>, u: int, v: int, c: int)
    requires Unused(g) && 0 <= u < |g| && 0 <= v < |g| && c >= 0
    ensures var r := AddEdge(g, u, v, c);
            Unused(r) &&
            r[u][|g[u]|] == Edge(u, v, c, 0, |g[v]| + (if u == v then 1 else 0)) &&
            r[v][|r[v]| - 1] == Edge(v, u, 0, 0, |g[u]|)
  {
    var r := AddEdge(g, u, v, c);
    var a := |g[u]|;
    var b := |r[v]| - 1;
    assert r[u][a] == Edge(u, v, c, 0, |g[v]| + (if u == v then 1 else 0));
    assert r[v][b] == Edge(v, u, 0, 0, a);
    forall w, k | EdgeAt(r, w, k)
      ensures Mate(r, w, k) && r[w][k].flow == 0 && r[w][k].flow <= r[w][k].capacity &&
              r[r[w][k].to][r[w][k].rev].flow == -r[w][k].flow
    {
      if EdgeAt(g, w, k) {
        var e := g[w][k];
        assert EdgeAt(g, e.to, e.rev) && Mate(g, w, k);
        assert r[e.to][e.rev] == g[e.to][e.rev];
      }
    }
  }

  /** With `u == v` the program's forward edge names itself as its mate. */
  lemma AsWrittenSelfLoop(c: int)
    ensures var r := AddEdgeAsWritten([[]], 0, 0, c);
            |r[0]| == 2 && r[0][0] == Edge(0, 0, c, 0, 0) && !Paired(r)
    ensures Paired(AddEdge([[]], 0, 0, c))
  {
    var r := AddEdgeAsWritten([[]], 0, 0, c);
    assert r[0] == [Edge(0, 0, c, 0, 0), Edge(0, 0, 0, 0, 0)];
    assert EdgeAt(r, 0, 0) && !Mate(r, 0, 0);
    var h := AddEdge([[]], 0, 0, c);
    assert h[0] == [Edge(0, 0, c, 0, 1), Edge(0, 0, 0, 0, 0)];
    assert forall w, k :: EdgeAt(h, w, k) ==> w == 0 && (k == 0 || k == 1);
  }

  // ---------------------------------------------------------------------
  // Flow out of a vertex
  // ---------------------------------------------------------------------

  function RowFlow(row: seq<Edge>): int
  {
    if |row| == 0 then 0 else RowFlow(row[..|row| - 1]) + row[|row| - 1].flow
  }

  function RowCapacity(row: seq<Edge>): int
  {
    if |row| == 0 then 0 else RowCapacity(row[..|row| - 1]) + row[|row| - 1].capacity
  }

  /** The net flow out of `v`: with skew symmetry, what leaves less what enters. */
  function NetOut(g: seq<seq<Edge>>, v: int): int
    requires 0 <= v < |g|
  {
    RowFlow(g[v])
  }

  lemma {:induction false} RowFlowSet(row: seq<Edge>, k: int, x: int)
    requires 0 <= k < |row|
    ensures RowFlow(row[k := row[k].(flow := x)]) == RowFlow(row) - row[k].flow + x
    ensures RowCapacity(row[k := row[k].(flow := x)]) == RowCapacity(row)
    decreases |row|
  {
    var n := |row| - 1;
    var r := row[k := row[k].(flow := x)];
    if k < n {
      assert r[..n] == row[..n][k := row[k].(flow := x)];
      RowFlowSet(row[..n], k, x);
    } else {
      assert r[..n] == row[..n];
    }
  }

  /** A row within its capacities carries at most their sum. */
  lemma {:induction false} RowBound(row: seq<Edge>)
    requires forall k :: 0 <= k < |row| ==> row[k].flow <= row[k].capacity
    ensures RowFlow(row) <= RowCapacity(row)
  {
    if |row| > 0 {
      RowBound(row[..|row| - 1]);
    }
  }

  lemma {:induction false} RowCapacitySame(a: seq<Edge>, b: seq<Edge>)
    requires |a| == |b| && forall k :: 0 <= k < |a| ==> a[k].capacity == b[k].capacity
    ensures RowCapacity(a) == RowCapacity(b)
  {
    if |a| > 0 {
      RowCapacitySame(a[..|a| - 1], b[..|b| - 1]);
    }
  }

  /** The flow out of `v` is bounded by the capacities of its edges, which never change. */
  lemma NetOutBound(g: seq<seq<Edge>>, h: seq<seq<Edge>>, v: int)
    requires Feasible(h) && SameNetwork(g, h) && 0 <= v < |g|
    ensures NetOut(h, v) <= RowCapacity(g[v])
  {
    forall k | 0 <= k < |h[v]|
      ensures h[v][k].flow <= h[v][k].capacity
    {
      assert EdgeAt(h, v, k);
    }
    RowBound(h[v]);
    forall k | 0 <= k < |g[v]|
      ensures g[v][k].capacity == h[v][k].capacity
    {
      assert EdgeAt(g, v, k);
    }
    RowCapacitySame(g[v], h[v]);
  }

  // ---------------------------------------------------------------------
  // Augmenting
  // ---------------------------------------------------------------------

  /** One step of the augmenting loop: `f` more on edge `k` of `u`, `f` less on its mate. */
  function Push(g: seq<seq<Edge>>, u: int, k: int, f: int): (r: seq<seq<Edge>>)
    requires EdgeAt(g, u, k) && Mate(g, u, k)
    ensures SameNetwork(g, r)
    ensures forall v, j :: EdgeAt(g, v, j) ==>
              r[v][j].flow == g[v][j].flow + (if v == u && j == k then f else 0)
                              - (if v == g[u][k].to && j == g[u][k].rev then f else 0)
  {
    var e := g[u][k];
    var g1 := g[u := g[u][k := e.(flow := e.flow + f)]];
    var m := g1[e.to][e.rev];
    g1[e.to := g1[e.to][e.rev := m.(flow := m.flow - f)]]
  }

  lemma PushNetOut(g: seq<seq<Edge>>, u: int, k: int, f: int, v: int)
    requires EdgeAt(g, u, k) && Mate(g, u, k) && 0 <= v < |g|
    ensures NetOut(Push(g, u, k, f), v) == NetOut(g, v) + (if v == u then f else 0) - (if v == g[u][k].to then f else 0)
  {
    var e := g[u][k];
    var g1: seq<seq<Edge>> := g[u := g[u][k := e.(flow := e.flow + f)]];
    var m: Edge := g1[e.to][e.rev];
    RowFlowSet(g[u], k, e.flow + f);
    RowFlowSet(g1[e.to], e.rev, m.flow - f);
  }

  /** The tail vertex and edge index of each edge of a path. */
  datatype Hop = Hop(u: int, k: int)

  /** Every hop of `p` names an edge of `g`. */
  predicate OnGraph(g: seq<seq<Edge>>, p: seq<Hop>)
  {
    forall i :: 0 <= i < |p| ==> 0 <= p[i].u < |g| && 0 <= p[i].k < |g[p[i].u]|
  }

  /** `p` is a chain of edges of `g` from `a` to `b`. */
  ghost predicate PathFrom(g: seq<seq<Edge>>, p: seq<Hop>, a: int, b: int)
  {
    OnGraph(g, p) &&
    (if |p| == 0 then a == b
     else p[0].u == a && g[p[|p| - 1].u][p[|p| - 1].k].to == b &&
          forall i :: 0 <= i < |p| - 1 ==> g[p[i].u][p[i].k].to == p[i + 1].u)
  }

  /** Edges of a path leave pairwise different vertices. */
  ghost predicate DistinctTails(p: seq<Hop>)
  {
    forall i, j :: 0 <= i < j < |p| ==> p[i].u != p[j].u
  }

  /** The spare capacity of the path's edges, starting from `Infinity` as the program does. */
  function Bottleneck(g: seq<seq<Edge>>, p: seq<Hop>): (r: int)
    requires OnGraph(g, p)
    ensures r <= Infinity
    ensures forall i :: 0 <= i < |p| ==> r <= g[p[i].u][p[i].k].capacity - g[p[i].u][p[i].k].flow
    ensures r == Infinity || exists i :: 0 <= i < |p| && r == g[p[i].u][p[i].k].capacity - g[p[i].u][p[i].k].flow
  {
    if |p| == 0 then Infinity
    else
      var h := p[|p| - 1];
      var rest := Bottleneck(g, p[..|p| - 1]);
      var spare := g[h.u][h.k].capacity - g[h.u][h.k].flow;
      if spare < rest then spare else rest
  }

  /** The augmenting loop: from the edge into the target back to the edge out of the source. */
  function Augment(g: seq<seq<Edge>>, p: seq<Hop>, f: int): (r: seq<seq<Edge>>)
    requires Paired(g) && OnGraph(g, p)
    ensures SameNetwork(g, r) && Paired(r)
    decreases |p|
  {
    if |p| == 0 then g
    else
      var h := p[|p| - 1];
      var g1 := Push(g, h.u, h.k, f);
      SameNetworkPaired(g, g1);
      var r := Augment(g1, p[..|p| - 1], f);
      SameNetworkTrans(g, g1, r);
      r
  }

  /** Augmenting along a path moves `f` more out of its start and into its end, and nowhere else. */
  lemma {:induction false} AugmentNetOut(g: seq<seq<Edge>>, p: seq<Hop>, f: int, a: int, b: int, v: int)
    requires Paired(g) && PathFrom(g, p, a, b) && 0 <= v < |g|
    ensures NetOut(Augment(g, p, f), v) == NetOut(g, v) + (if v == a then f else 0) - (if v == b then f else 0)
    decreases |p|
  {
    if |p| > 0 {
      var h := p[|p| - 1];
      var g1 := Push(g, h.u, h.k, f);
      SameNetworkPaired(g, g1);
      PushNetOut(g, h.u, h.k, f, v);
      var p' := p[..|p| - 1];
      assert PathFrom(g1, p', a, h.u) by {
        forall i | 0 <= i < |p'|
          ensures EdgeAt(g1, p'[i].u, p'[i].k) && g1[p'[i].u][p'[i].k].to == g[p'[i].u][p'[i].k].to
        {
          assert EdgeAt(g, p'[i].u, p'[i].k);
        }
      }
      AugmentNetOut(g1, p', f, a, h.u, v);
    }
  }

  /**
   * Augmenting by at most the spare capacity of each edge of a path whose
   * edges leave different vertices keeps the capacity bounds and skew
   * symmetry.
   */
  lemma {:induction false} AugmentFeasible(g: seq<seq<Edge>>, p: seq<Hop>, f: int)
    requires Feasible(g) && f >= 0 && DistinctTails(p)
    requires OnGraph(g, p)
    requires forall i :: 0 <= i < |p| ==> f <= g[p[i].u][p[i].k].capacity - g[p[i].u][p[i].k].flow
    ensures Feasible(Augment(g, p, f))
    decreases |p|
  {
    if |p| > 0 {
      var h := p[|p| - 1];
      var e := g[h.u][h.k];
      var g1 := Push(g, h.u, h.k, f);
      SameNetworkPaired(g, g1);
      forall u, k | EdgeAt(g1, u, k)
        ensures g1[u][k].flow <= g1[u][k].capacity && g1[g1[u][k].to][g1[u][k].rev].flow == -g1[u][k].flow
      {
        assert EdgeAt(g, u, k) && Mate(g, u, k);
        var d := g[u][k];
        assert EdgeAt(g, d.to, d.rev) && Mate(g, d.to, d.rev);
      }
      var p' := p[..|p| - 1];
      forall i | 0 <= i < |p'|
        ensures EdgeAt(g1, p'[i].u, p'[i].k) && f <= g1[p'[i].u][p'[i].k].capacity - g1[p'[i].u][p'[i].k].flow
      {
        assert EdgeAt(g, p'[i].u, p'[i].k) && p'[i].u != h.u;
      }
      AugmentFeasible(g1, p', f);
    }
  }

  // ---------------------------------------------------------------------
  // Residual reachability
  // ---------------------------------------------------------------------

  /** Some edge of `u` with spare capacity leads to `w`. */
  ghost predicate Step(g: seq<seq<Edge>>, u: int, w: int)
  {
    0 <= u < |g| && exists k :: 0 <= k < |g[u]| && g[u][k].to == w && Residual(g[u][k])
  }

  /** A walk of vertices along edges with spare capacity. */
  ghost predicate ResidualWalk(g: seq<seq<Edge>>, q: seq<int>)
  {
    |q| > 0 && (forall i :: 0 <= i < |q| ==> 0 <= q[i] < |g|) &&
    forall i :: 0 <= i < |q| - 1 ==> Step(g, q[i], q[i + 1])
  }

  ghost predicate Reachable(g: seq<seq<Edge>>, s: int, v: int)
  {
    exists q :: ResidualWalk(g, q) && q[0] == s && q[|q| - 1] == v
  }

  lemma ReachableStart(g: seq<seq<Edge>>, s: int)
    requires 0 <= s < |g|
    ensures Reachable(g, s, s)
  {
    assert ResidualWalk(g, [s]);
  }

  lemma ReachableStep(g: seq<seq<Edge>>, s: int, u: int, w: int)
    requires Reachable(g, s, u) && Step(g, u, w) && 0 <= w < |g|
    ensures Reachable(g, s, w)
  {
    var q :| ResidualWalk(g, q) && q[0] == s && q[|q| - 1] == u;
    var q' := q + [w];
    assert forall i :: 0 <= i < |q| ==> q'[i] == q[i];
    assert ResidualWalk(g, q');
  }

  /** Vertices listed in `seen` whose spare edges all lead back into `seen`. */
  ghost predicate Closed(g: seq<seq<Edge>>, seen: seq<int>)
  {
    forall u, k :: u in seen && 0 <= u < |g| && 0 <= k < |g[u]| && Residual(g[u][k]) ==> g[u][k].to in seen
  }

  /** A closed set holding `s` holds everything reachable from `s`. */
  lemma ClosedReach(g: seq<seq<Edge>>, seen: seq<int>, s: int, v: int)
    requires Closed(g, seen) && s in seen && Reachable(g, s, v)
    ensures v in seen
  {
    var q :| ResidualWalk(g, q) && q[0] == s && q[|q| - 1] == v;
    var i := 0;
    while i < |q| - 1
      invariant 0 <= i < |q| && q[i] in seen
    {
      var k :| 0 <= k < |g[q[i]]| && g[q[i]][k].to == q[i + 1] && Residual(g[q[i]][k]);
      i := i + 1;
    }
  }
}
