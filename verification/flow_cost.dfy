/**
 * Edge costs of the minimum-cost flow program (Lab2/task2.8/mincostmaxflow.cc).
 * The program stores `cost` inside each edge; here the costs sit in a table
 * `costs[u][k]` shaped like the graph, so that the flow graphs and their
 * augmentation are shared with the maximum-flow programs.  Each reverse
 * edge costs the negation of its mate.
 */
module FlowCost {
  import opened FlowNetwork

  /** `costs` has one entry per edge of `g`. */
  predicate Shaped(g: seq<seq<Edge>>, costs: seq<seq<int>>)
  {
    |costs| == |g| && forall u :: 0 <= u < |g| ==> |costs[u]| == |g[u]|
  }

  /** Every edge is paired, and its mate's cost is its own negated. */
  ghost predicate CostsFor(g: seq<seq<Edge>>, costs: seq<seq<int>>)
  {
    Shaped(g, costs) &&
    forall u, k :: EdgeAt(g, u, k) ==> Mate(g, u, k) && costs[g[u][k].to][g[u][k].rev] == -costs[u][k]
  }

  /** Changing flows only keeps the costs valid. */
  lemma CostsSame(g: seq<seq<Edge>>, h: seq<seq<Edge>>, costs: seq<seq<int>>)
    requires CostsFor(g, costs) && SameNetwork(g, h)
    ensures CostsFor(h, costs)
  {
    SameNetworkPaired(g, h);
    forall u, k | EdgeAt(h, u, k)
      ensures costs[h[u][k].to][h[u][k].rev] == -costs[u][k]
    {
      assert EdgeAt(g, u, k);
    }
  }

  // ---------------------------------------------------------------------
  // Construction
  // ---------------------------------------------------------------------

  /** The cost entries the input loop adds with `AddEdge(g, u, v, c)`: `w` forward, `-w` back. */
  function AddCosts(costs: seq<seq<int>>, u: int, v: int, w: int): (r: seq<seq<int>>)
    requires 0 <= u < |costs| && 0 <= v < |costs|
    ensures |r| == |costs|
  {
    var c1 := costs[u := costs[u] + [w]];
    c1[v := c1[v] + [-w]]
  }

  /**
   * Adding an edge of capacity `c >= 0` and cost `w` to a graph without
   * flow keeps every edge paired with its negated cost; the new edge
   * costs `w` and its reverse, of capacity 0, costs `-w`.
   */
  lemma AddCostEdgeKeeps(g: seq<seq<Edge>>, costs: seq<seq<int>>, u: int, v: int, c: int, w: int)
    requires Unused(g) && CostsFor(g, costs) && 0 <= u < |g| && 0 <= v < |g| && c >= 0
    ensures var r, rc := AddEdge(g, u, v, c), AddCosts(costs, u, v, w);
            Unused(r) && CostsFor(r, rc) &&
            r[u][|g[u]|].capacity == c && rc[u][|g[u]|] == w &&
            r[v][|r[v]| - 1].capacity == 0 && rc[v][|r[v]| - 1] == -w
  {
    var r: seq<seq<Edge>>, rc: seq<seq<int>> := AddEdge(g, u, v, c), AddCosts(costs, u, v, w);
    AddEdgeUnused(g, u, v, c);
    var a := |g[u]|;
    var b := |r[v]| - 1;
    assert rc[u][a] == w && rc[v][b] == -w;
    assert r[u][a].to == v && r[u][a].rev == b;
    forall x, k | EdgeAt(r, x, k)
      ensures Mate(r, x, k) && rc[r[x][k].to][r[x][k].rev] == -rc[x][k]
    {
      if EdgeAt(g, x, k) {
        var e := g[x][k];
        assert Mate(g, x, k) && EdgeAt(g, e.to, e.rev);
        assert rc[x][k] == costs[x][k] && rc[e.to][e.rev] == costs[e.to][e.rev];
      } else {
        assert (x == u && k == a) || (x == v && k == b);
      }
    }
  }

  // ---------------------------------------------------------------------
  // The cost of a flow
  // ---------------------------------------------------------------------

  /** Cost times flow, summed over the edges `i, i + 1, ...` of one vertex. */
  function RowCost(row: seq<Edge>, cs: seq<int>, i: int): int
    requires |cs| == |row| && 0 <= i <= |row|
    decreases |row| - i
  {
    if i == |row| then 0 else cs[i] * row[i].flow + RowCost(row, cs, i + 1)
  }

  /** Cost times flow, summed over the edges of the vertices `u, u + 1, ...`. */
  function CostFrom(g: seq<seq<Edge>>, costs: seq<seq<int>>, u: int): int
    requires Shaped(g, costs) && 0 <= u <= |g|
    decreases |g| - u
  {
    if u == |g| then 0 else RowCost(g[u], costs[u], 0) + CostFrom(g, costs, u + 1)
  }

  /**
   * Cost times flow, summed over every edge.  Each unit sent along an edge
   * is counted on the edge and again, negated twice, on its mate.
   */
  function GraphCost(g: seq<seq<Edge>>, costs: seq<seq<int>>): int
    requires Shaped(g, costs)
  {
    CostFrom(g, costs, 0)
  }

  /** The sum of the costs of a path's edges. */
  function PathCost(costs: seq<seq<int>>, p: seq<Hop>): int
    requires forall i :: 0 <= i < |p| ==> 0 <= p[i].u < |costs| && 0 <= p[i].k < |costs[p[i].u]|
  {
    if |p| == 0 then 0 else PathCost(costs, p[..|p| - 1]) + costs[p[|p| - 1].u][p[|p| - 1].k]
  }

  lemma MulDiff(c: int, x: int, y: int)
    ensures c * x == c * y + c * (x - y)
  {
  }

  lemma {:induction false} RowCostSet(row: seq<Edge>, cs: seq<int>, k: int, x: int, i: int)
    requires |cs| == |row| && 0 <= k < |row| && 0 <= i <= |row|
    ensures RowCost(row[k := row[k].(flow := x)], cs, i) ==
            RowCost(row, cs, i) + (if i <= k then cs[k] * (x - row[k].flow) else 0)
    decreases |row| - i
  {
    if i < |row| {
      RowCostSet(row, cs, k, x, i + 1);
      if i == k {
        MulDiff(cs[k], x, row[k].flow);
      }
    }
  }

  lemma {:induction false} CostFromSet(g: seq<seq<Edge>>, costs: seq<seq<int>>, u: int, row: seq<Edge>, i: int)
    requires Shaped(g, costs) && 0 <= u < |g| && |row| == |g[u]| && 0 <= i <= |g|
    ensures Shaped(g[u := row], costs)
    ensures CostFrom(g[u := row], costs, i) ==
            CostFrom(g, costs, i) + (if i <= u then RowCost(row, costs[u], 0) - RowCost(g[u], costs[u], 0) else 0)
    decreases |g| - i
  {
    if i < |g| {
      CostFromSet(g, costs, u, row, i + 1);
    }
  }

  /** `g` with the flow of edge `k` of `u` set to `x`. */
  function SetFlow(g: seq<seq<Edge>>, u: int, k: int, x: int): seq<seq<Edge>>
    requires EdgeAt(g, u, k)
  {
    g[u := g[u][k := g[u][k].(flow := x)]]
  }

  /** A push sets the flow of the edge and then of its mate. */
  lemma PushSetsFlows(g: seq<seq<Edge>>, u: int, k: int, f: int)
    requires EdgeAt(g, u, k) && Mate(g, u, k)
    ensures var e := g[u][k];
            var g1 := SetFlow(g, u, k, e.flow + f);
            EdgeAt(g1, e.to, e.rev) && g1[e.to][e.rev] == g[e.to][e.rev] &&
            Push(g, u, k, f) == SetFlow(g1, e.to, e.rev, g[e.to][e.rev].flow - f)
  {
  }

  /** Pushing `f` along an edge adds twice `f` times its cost: once on the edge, once on its mate. */
  lemma PushCost(g: seq<seq<Edge>>, costs: seq<seq<int>>, u: int, k: int, f: int)
    requires Shaped(g, costs) && EdgeAt(g, u, k) && Mate(g, u, k)
    requires costs[g[u][k].to][g[u][k].rev] == -costs[u][k]
    ensures Shaped(Push(g, u, k, f), costs)
    ensures GraphCost(Push(g, u, k, f), costs) == GraphCost(g, costs) + 2 * f * costs[u][k]
  {
    var e := g[u][k];
    var m := g[e.to][e.rev];
    PushSetsFlows(g, u, k, f);
    var g1 := SetFlow(g, u, k, e.flow + f);
    OneRowCost(g, costs, u, k, e.flow + f, f);
    OneRowCost(g1, costs, e.to, e.rev, m.flow - f, -f);
    MulFlow(costs[u][k], costs[e.to][e.rev], f);
  }

  /** Changing the flow of one edge by `dx` changes the cost by its cost times `dx`. */
  lemma OneRowCost(g: seq<seq<Edge>>, costs: seq<seq<int>>, u: int, k: int, x: int, dx: int)
    requires Shaped(g, costs) && EdgeAt(g, u, k) && x == g[u][k].flow + dx
    ensures Shaped(SetFlow(g, u, k, x), costs)
    ensures GraphCost(SetFlow(g, u, k, x), costs) == GraphCost(g, costs) + costs[u][k] * dx
  {
    var row := g[u][k := g[u][k].(flow := x)];
    RowCostSet(g[u], costs[u], k, x, 0);
    CostFromSet(g, costs, u, row, 0);
  }

  lemma MulFlow(c: int, c': int, f: int)
    requires c' == -c
    ensures c * f + c' * (-f) == 2 * f * c
  {
  }

  lemma Distribute(f: int, x: int, y: int, z: int, a: int, b: int, c: int)
    requires z == x + y && b == a + 2 * f * y && c == b + 2 * f * x
    ensures c == a + 2 * f * z
  {
  }

  /** The last hop of a path is pushed first; the rest is augmented on the result. */
  lemma AugmentLast(g: seq<seq<Edge>>, costs: seq<seq<int>>, p: seq<Hop>, f: int) returns (g1: seq<seq<Edge>>)
    requires CostsFor(g, costs) && OnGraph(g, p) && |p| > 0
    ensures var h := p[|p| - 1];
            CostsFor(g1, costs) && OnGraph(g1, p[..|p| - 1]) &&
            Augment(g, p, f) == Augment(g1, p[..|p| - 1], f) &&
            PathCost(costs, p) == PathCost(costs, p[..|p| - 1]) + costs[h.u][h.k] &&
            GraphCost(g1, costs) == GraphCost(g, costs) + 2 * f * costs[h.u][h.k]
  {
    var h := p[|p| - 1];
    assert EdgeAt(g, h.u, h.k) && Mate(g, h.u, h.k);
    g1 := Push(g, h.u, h.k, f);
    PushCost(g, costs, h.u, h.k, f);
    CostsSame(g, g1, costs);
  }

  /** Augmenting by `f` along a path adds twice `f` times the path's cost. */
  lemma {:induction false} AugmentCost(g: seq<seq<Edge>>, costs: seq<seq<int>>, p: seq<Hop>, f: int)
    requires CostsFor(g, costs) && OnGraph(g, p)
    ensures Shaped(Augment(g, p, f), costs)
    ensures GraphCost(Augment(g, p, f), costs) == GraphCost(g, costs) + 2 * f * PathCost(costs, p)
    decreases |p|
  {
    if |p| > 0 {
      var h := p[|p| - 1];
      var p' := p[..|p| - 1];
      var g1 := AugmentLast(g, costs, p, f);
      AugmentCost(g1, costs, p', f);
      Distribute(f, PathCost(costs, p'), costs[h.u][h.k], PathCost(costs, p),
                 GraphCost(g, costs), GraphCost(g1, costs), GraphCost(Augment(g1, p', f), costs));
    }
  }
}
