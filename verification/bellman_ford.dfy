/**
 * Bellman-Ford single-source shortest paths with negative edge weights
 * (Lab2/task2.3/shortestpath3.cc).  Up to `n` rounds relax every edge of
 * every reached vertex, stopping early after a round that changes nothing;
 * then `n` further rounds mark, with distance `-Infinity`, the target of
 * every edge that can still be relaxed and everything reachable from a
 * marked vertex.
 *
 * The distances are compared with the sentinels `Infinity` and
 * `-Infinity`, so a real sum equal to a sentinel would be misread.  The
 * classification of the result is therefore proved for graphs whose weights
 * are `Moderate` with respect to `Infinity`: no walk of at most `n` edges
 * then weighs as much as a sentinel.
 */
module BellmanFord {
  import opened Graphs

  /** The source's `kInfinity`: the distance of a vertex not reached. */
  const Infinity: int := 100000000
  /** The source's `kInvalidNode`: the parent of a vertex not reached. */
  const InvalidNode: int := -1

  // ---------------------------------------------------------------------
  // The relaxation phase
  // ---------------------------------------------------------------------

  /** A finite distance is the weight of the walk kept for its vertex. */
  ghost predicate Witnessed(g: seq<seq<Edge>>, start: int, d: seq<int>, walks: seq<seq<Edge>>, v: int)
    requires 0 <= v < |d| && |walks| == |d|
  {
    d[v] != Infinity ==> WalkTo(g, start, walks[v], v) && Weight(walks[v]) == d[v]
  }

  /** A recorded parent is the start itself or the tail of an edge into the vertex. */
  predicate ParentEdge(g: seq<seq<Edge>>, start: int, parent: seq<int>, v: int)
    requires 0 <= v < |parent|
  {
    parent[v] != InvalidNode ==>
      (v == start && parent[v] == start) ||
      (0 <= parent[v] < |g| && exists k :: 0 <= k < |g[parent[v]]| && g[parent[v]][k].to == v)
  }

  /** What the relaxation phase keeps true of its arrays. */
  ghost predicate Sound(g: seq<seq<Edge>>, start: int, d: seq<int>, parent: seq<int>, walks: seq<seq<Edge>>)
  {
    Targets(g) && 0 <= start < |g| && |d| == |g| && |parent| == |g| && |walks| == |g| &&
    d[start] <= 0 && (parent[start] == start || d[start] < 0) &&
    forall v :: 0 <= v < |g| ==>
      d[v] <= Infinity && (parent[v] == InvalidNode <==> d[v] == Infinity) &&
      Witnessed(g, start, d, walks, v) && ParentEdge(g, start, parent, v)
  }

  /** Edge `k` of `x` is relaxed against the distances `d0` of the round's start. */
  predicate RelaxedFrom(g: seq<seq<Edge>>, d0: seq<int>, d: seq<int>, x: int, k: int)
    requires Targets(g) && |d0| == |g| && |d| == |g| && 0 <= x < |g| && 0 <= k < |g[x]|
  {
    d0[x] != Infinity ==> d[g[x][k].to] <= d0[x] + g[x][k].weight
  }

  ghost predicate RelaxedUpTo(g: seq<seq<Edge>>, d0: seq<int>, d: seq<int>, u: int)
    requires Targets(g) && |d0| == |g| && |d| == |g| && 0 <= u <= |g|
  {
    forall x, k :: 0 <= x < u && 0 <= k < |g[x]| ==> RelaxedFrom(g, d0, d, x, k)
  }

  /** No edge of a reached vertex can be relaxed. */
  ghost predicate Stable(g: seq<seq<Edge>>, d: seq<int>)
    requires Targets(g) && |d| == |g|
  {
    RelaxedUpTo(g, d, d, |g|)
  }

  predicate Lower(d: seq<int>, d0: seq<int>)
  {
    |d| == |d0| && forall v :: 0 <= v < |d| ==> d[v] <= d0[v]
  }

  /** Every walk from the start with at most `i` edges weighs at least its end's distance. */
  ghost predicate BoundBy(g: seq<seq<Edge>>, start: int, d: seq<int>, i: int)
    requires Targets(g) && |d| == |g|
  {
    forall p :: IsWalk(g, start, p) && |p| <= i ==> d[End(start, p)] <= Weight(p)
  }

  lemma RelaxKeeps(g: seq<seq<Edge>>, start: int, d: seq<int>, parent: seq<int>, walks: seq<seq<Edge>>,
                   u: int, j: int)
    requires Sound(g, start, d, parent, walks) && 0 <= u < |g| && 0 <= j < |g[u]| && d[u] != Infinity
    requires d[g[u][j].to] > d[u] + g[u][j].weight
    ensures var e := g[u][j];
            Sound(g, start, d[e.to := d[u] + e.weight], parent[e.to := u], walks[e.to := walks[u] + [e]])
  {
    var e := g[u][j];
    var d' := d[e.to := d[u] + e.weight];
    var parent' := parent[e.to := u];
    var walks' := walks[e.to := walks[u] + [e]];
    assert Witnessed(g, start, d, walks, u);
    WalkAppend(g, start, walks[u], e);
    forall v | 0 <= v < |g|
      ensures d'[v] <= Infinity && (parent'[v] == InvalidNode <==> d'[v] == Infinity)
      ensures Witnessed(g, start, d', walks', v) && ParentEdge(g, start, parent', v)
    {
      if v == e.to {
        assert d[v] <= Infinity;
        assert g[u][j].to == v;
      } else {
        assert Witnessed(g, start, d, walks, v) && ParentEdge(g, start, parent, v);
      }
    }
  }

  lemma LowerKeepsRelaxed(g: seq<seq<Edge>>, d0: seq<int>, d: seq<int>, d': seq<int>, u: int)
    requires Targets(g) && |d0| == |g| && |d| == |g| && 0 <= u <= |g|
    requires RelaxedUpTo(g, d0, d, u) && Lower(d', d)
    ensures RelaxedUpTo(g, d0, d', u)
  {
    forall x, k | 0 <= x < u && 0 <= k < |g[x]|
      ensures RelaxedFrom(g, d0, d', x, k)
    {
      assert RelaxedFrom(g, d0, d, x, k);
    }
  }

  /** A round has relaxed the vertices below `u` and every edge of `u`, so those below `u + 1`. */
  lemma RelaxedNext(g: seq<seq<Edge>>, d0: seq<int>, d: seq<int>, u: int)
    requires Targets(g) && |d0| == |g| && |d| == |g| && 0 <= u < |g|
    requires RelaxedUpTo(g, d0, d, u) && forall k :: 0 <= k < |g[u]| ==> RelaxedFrom(g, d0, d, u, k)
    ensures RelaxedUpTo(g, d0, d, u + 1)
  {
  }

  /** Relaxing edge `j` of `u` keeps the round's invariant and relaxes that edge too. */
  lemma RelaxEdgeKeeps(g: seq<seq<Edge>>, start: int, d0: seq<int>, u: int, j: int,
                       d: seq<int>, parent: seq<int>, walks: seq<seq<Edge>>,
                       d': seq<int>, parent': seq<int>, walks': seq<seq<Edge>>)
    requires Sound(g, start, d, parent, walks) && Lower(d, d0) && 0 <= u < |g| && 0 <= j < |g[u]|
    requires d[u] != Infinity && d[g[u][j].to] > d[u] + g[u][j].weight
    requires RelaxedUpTo(g, d0, d, u) && forall k :: 0 <= k < j ==> RelaxedFrom(g, d0, d, u, k)
    requires d' == d[g[u][j].to := d[u] + g[u][j].weight] && parent' == parent[g[u][j].to := u]
    requires walks' == walks[g[u][j].to := walks[u] + [g[u][j]]]
    ensures Sound(g, start, d', parent', walks') && Lower(d', d0) && d'[u] != Infinity
    ensures RelaxedUpTo(g, d0, d', u) && forall k :: 0 <= k <= j ==> RelaxedFrom(g, d0, d', u, k)
  {
    RelaxKeeps(g, start, d, parent, walks, u, j);
    assert Lower(d', d);
    LowerKeepsRelaxed(g, d0, d, d', u);
    forall k | 0 <= k < j
      ensures RelaxedFrom(g, d0, d', u, k)
    {
      assert RelaxedFrom(g, d0, d, u, k);
    }
  }

  /** Relaxes, in order, every edge leaving the reached vertex `u`. */
  method RelaxVertex(g: seq<seq<Edge>>, start: int, d0: seq<int>, u: int,
                     d1: seq<int>, parent1: seq<int>, ghost walks1: seq<seq<Edge>>)
    returns (d: seq<int>, parent: seq<int>, changed: bool, ghost walks: seq<seq<Edge>>)
    requires Sound(g, start, d1, parent1, walks1) && Lower(d1, d0) && 0 <= u < |g| && d1[u] != Infinity
    requires RelaxedUpTo(g, d0, d1, u)
    ensures Sound(g, start, d, parent, walks) && Lower(d, d0)
    ensures RelaxedUpTo(g, d0, d, u + 1)
    ensures !changed ==> d == d1 && parent == parent1
  {
    d, parent, walks := d1, parent1, walks1;
    changed := false;
    var j := 0;
    while j < |g[u]|
      invariant 0 <= j <= |g[u]|
      invariant Sound(g, start, d, parent, walks) && Lower(d, d0)
      invariant RelaxedUpTo(g, d0, d, u)
      invariant forall k :: 0 <= k < j ==> RelaxedFrom(g, d0, d, u, k)
      invariant d[u] != Infinity
      invariant !changed ==> d == d1 && parent == parent1
    {
      var e := g[u][j];
      if d[e.to] > d[u] + e.weight {
        var d', parent' := d[e.to := d[u] + e.weight], parent[e.to := u];
        ghost var walks' := walks[e.to := walks[u] + [e]];
        RelaxEdgeKeeps(g, start, d0, u, j, d, parent, walks, d', parent', walks');
        d, parent, walks := d', parent', walks';
        changed := true;
      }
      j := j + 1;
    }
    RelaxedNext(g, d0, d, u);
  }

  /**
   * One round of the relaxation phase.  Each edge ends up relaxed against
   * the distances the round started with; `update` reports a change.
   */
  method RelaxRound(g: seq<seq<Edge>>, start: int, d0: seq<int>, parent0: seq<int>, ghost walks0: seq<seq<Edge>>)
    returns (d: seq<int>, parent: seq<int>, update: bool, ghost walks: seq<seq<Edge>>)
    requires Sound(g, start, d0, parent0, walks0)
    ensures Sound(g, start, d, parent, walks) && Lower(d, d0)
    ensures RelaxedUpTo(g, d0, d, |g|)
    ensures !update ==> d == d0 && parent == parent0
  {
    d, parent, walks := d0, parent0, walks0;
    update := false;
    var n := |g|;
    var u := 0;
    while u < n
      invariant 0 <= u <= n
      invariant Sound(g, start, d, parent, walks) && Lower(d, d0)
      invariant RelaxedUpTo(g, d0, d, u)
      invariant !update ==> d == d0 && parent == parent0
    {
      if d[u] != Infinity {
        var changed;
        d, parent, changed, walks := RelaxVertex(g, start, d0, u, d, parent, walks);
        update := update || changed;
      } else {
        assert d0[u] == Infinity by { assert d[u] <= d0[u] <= Infinity; }
        RelaxedNext(g, d0, d, u);
      }
      u := u + 1;
    }
  }


  /** A round extends the bound from walks of `i` edges to walks of `i + 1`. */
  lemma RoundBound(g: seq<seq<Edge>>, start: int, d0: seq<int>, d: seq<int>, i: int)
    requires Targets(g) && |d0| == |g| && |d| == |g| && Moderate(g, Infinity) && 0 <= i < |g|
    requires BoundBy(g, start, d0, i) && Lower(d, d0) && RelaxedUpTo(g, d0, d, |g|)
    ensures BoundBy(g, start, d, i + 1)
  {
    forall p | IsWalk(g, start, p) && |p| <= i + 1
      ensures d[End(start, p)] <= Weight(p)
    {
      if |p| <= i {
        WalkEndInRange(g, start, p);
      } else {
        var q := p[..|p| - 1];
        var x := End(start, q);
        var k :| 0 <= k < |g[x]| && g[x][k] == p[|p| - 1];
        ShortWeight(g, start, q, Infinity);
        assert RelaxedFrom(g, d0, d, x, k);
      }
    }
  }

  /** Once stable, the bound holds for walks of every length below `n`. */
  lemma {:induction false} StableBound(g: seq<seq<Edge>>, start: int, d: seq<int>, p: seq<Edge>)
    requires Targets(g) && |d| == |g| && Moderate(g, Infinity) && Stable(g, d) && 0 <= start < |g| && d[start] <= 0
    requires IsWalk(g, start, p) && |p| <= |g|
    ensures d[End(start, p)] <= Weight(p)
    decreases |p|
  {
    if |p| > 0 {
      var q := p[..|p| - 1];
      var x := End(start, q);
      var k :| 0 <= k < |g[x]| && g[x][k] == p[|p| - 1];
      StableBound(g, start, d, q);
      ShortWeight(g, start, q, Infinity);
      assert RelaxedFrom(g, d, d, x, k);
    }
  }

  /**
   * The relaxation phase: at most `n` rounds, stopping after the first round
   * that changes nothing.  Afterwards every walk from the start with fewer
   * than `n` edges weighs at least the distance of its end.
   */
  method Relaxation(g: seq<seq<Edge>>, start: int)
    returns (d: seq<int>, parent: seq<int>, rounds: int, ghost walks: seq<seq<Edge>>)
    requires Targets(g) && 0 <= start < |g|
    ensures Sound(g, start, d, parent, walks)
    ensures 1 <= rounds <= |g| && (rounds < |g| ==> Stable(g, d))
    ensures Moderate(g, Infinity) ==> BoundBy(g, start, d, |g| - 1)
  {
    var n := |g|;
    d := seq(n, v => if v == start then 0 else Infinity);
    parent := seq(n, v => if v == start then start else InvalidNode);
    walks := seq(n, v => []);
    forall v | 0 <= v < n
      ensures Witnessed(g, start, d, walks, v) && ParentEdge(g, start, parent, v)
    {
      if v == start {
        assert WalkTo(g, start, walks[v], v);
      }
    }
    rounds := 0;
    ghost var stable := false;
    while rounds < n
      invariant 0 <= rounds <= n && Sound(g, start, d, parent, walks)
      invariant Moderate(g, Infinity) ==> BoundBy(g, start, d, rounds)
      invariant !stable
    {
      var d', parent', update, walks' := RelaxRound(g, start, d, parent, walks);
      if Moderate(g, Infinity) {
        RoundBound(g, start, d, d', rounds);
      }
      d, parent, walks := d', parent', walks';
      rounds := rounds + 1;
      if !update {
        stable := true;
        break;
      }
    }
    if Moderate(g, Infinity) && stable {
      forall p | IsWalk(g, start, p) && |p| <= n - 1
        ensures d[End(start, p)] <= Weight(p)
      {
        StableBound(g, start, d, p);
      }
    }
  }

  // ---------------------------------------------------------------------
  // What the relaxed distances say about negative cycles
  // ---------------------------------------------------------------------

  /** Edge `k` of the reached vertex `x` can still be relaxed. */
  predicate Relaxable(g: seq<seq<Edge>>, d: seq<int>, x: int, k: int)
    requires Targets(g) && |d| == |g| && 0 <= x < |g| && 0 <= k < |g[x]|
  {
    d[x] != Infinity && d[g[x][k].to] > d[x] + g[x][k].weight
  }

  /** After the relaxation phase every reachable vertex has a finite distance. */
  lemma ReachedFinite(g: seq<seq<Edge>>, start: int, d: seq<int>, parent: seq<int>, walks: seq<seq<Edge>>, v: int)
    requires Sound(g, start, d, parent, walks) && Moderate(g, Infinity) && BoundBy(g, start, d, |g| - 1)
    requires Reachable(g, start, v)
    ensures 0 <= v < |g| && d[v] < Infinity
  {
    var p :| WalkTo(g, start, p, v);
    var r := ShortWalk(g, start, p);
    WalkEndInRange(g, start, r);
    ShortWeight(g, start, r, Infinity);
  }

  /** A distance no negative cycle can lower is above `-Infinity`. */
  lemma Floor(g: seq<seq<Edge>>, start: int, d: seq<int>, parent: seq<int>, walks: seq<seq<Edge>>, v: int)
    requires Sound(g, start, d, parent, walks) && Moderate(g, Infinity) && 0 <= v < |g| && d[v] != Infinity
    ensures !NegativeCycleReaches(g, start, v) ==> d[v] > -Infinity
  {
    if !NegativeCycleReaches(g, start, v) {
      assert Witnessed(g, start, d, walks, v);
      var r := LightShortWalk(g, start, walks[v]);
      ShortWeight(g, start, r, Infinity);
    }
  }

  /** Without a negative cycle on the way to `v`, no walk to `v` is lighter than its distance. */
  lemma Optimal(g: seq<seq<Edge>>, start: int, d: seq<int>, parent: seq<int>, walks: seq<seq<Edge>>, v: int)
    requires Sound(g, start, d, parent, walks) && Moderate(g, Infinity) && BoundBy(g, start, d, |g| - 1)
    requires 0 <= v < |g| && !NegativeCycleReaches(g, start, v)
    ensures NoShorter(g, start, v, d[v])
  {
    forall p | WalkTo(g, start, p, v)
      ensures d[v] <= Weight(p)
    {
      var r := LightShortWalk(g, start, p);
    }
  }

  /** An edge that can still be relaxed leads to a vertex behind a negative cycle. */
  lemma NoCycleRelaxed(g: seq<seq<Edge>>, start: int, d: seq<int>, parent: seq<int>, walks: seq<seq<Edge>>,
                       x: int, k: int)
    requires Sound(g, start, d, parent, walks) && Moderate(g, Infinity) && BoundBy(g, start, d, |g| - 1)
    requires 0 <= x < |g| && 0 <= k < |g[x]| && d[x] != Infinity
    ensures !NegativeCycleReaches(g, start, g[x][k].to) ==> d[g[x][k].to] <= d[x] + g[x][k].weight
  {
    var e := g[x][k];
    if !NegativeCycleReaches(g, start, e.to) {
      assert Witnessed(g, start, d, walks, x);
      WalkAppend(g, start, walks[x], e);
      var r := LightShortWalk(g, start, walks[x] + [e]);
    }
  }

  /**
   * Along a walk of reachable vertices either some edge can still be
   * relaxed, and the rest of the walk leads on from its target, or the
   * distances grow by at most the edges' weights.
   */
  lemma {:induction false} FindRelaxable(g: seq<seq<Edge>>, start: int, d: seq<int>, parent: seq<int>,
                                         walks: seq<seq<Edge>>, s: int, p: seq<Edge>)
    returns (found: bool, x: int, k: int, rest: seq<Edge>)
    requires Sound(g, start, d, parent, walks) && Moderate(g, Infinity) && BoundBy(g, start, d, |g| - 1)
    requires Reachable(g, start, s) && IsWalk(g, s, p)
    ensures found ==> 0 <= x < |g| && 0 <= k < |g[x]| && Relaxable(g, d, x, k) &&
                      WalkTo(g, g[x][k].to, rest, End(s, p))
    ensures !found ==> d[End(s, p)] <= d[s] + Weight(p)
    decreases |p|
  {
    if |p| == 0 {
      found, x, k, rest := false, 0, 0, [];
      return;
    }
    var q, e := p[..|p| - 1], p[|p| - 1];
    var found', x', k', rest' := FindRelaxable(g, start, d, parent, walks, s, q);
    var u := End(s, q);
    var j :| 0 <= j < |g[u]| && g[u][j] == e;
    if found' {
      WalkAppend(g, g[x'][k'].to, rest', e);
      found, x, k, rest := true, x', k', rest' + [e];
    } else {
      ReachableTrans(g, start, s, q);
      ReachedFinite(g, start, d, parent, walks, u);
      if Relaxable(g, d, u, j) {
        found, x, k, rest := true, u, j, [];
      } else {
        found, x, k, rest := false, 0, 0, [];
      }
    }
  }

  // ---------------------------------------------------------------------
  // The marking phase
  // ---------------------------------------------------------------------

  /** A marked vertex is reachable and, under `Moderate`, behind a negative cycle. */
  ghost predicate MarkOk(g: seq<seq<Edge>>, start: int, neg: seq<bool>, v: int)
    requires 0 <= v < |neg|
  {
    neg[v] ==> Reachable(g, start, v) && (Moderate(g, Infinity) ==> NegativeCycleReaches(g, start, v))
  }

  /** The marking phase's arrays: marked vertices sit at `-Infinity`, the rest keep `d1`. */
  ghost predicate Marks(g: seq<seq<Edge>>, start: int, d1: seq<int>, d: seq<int>, neg: seq<bool>)
  {
    |d1| == |g| && |d| == |g| && |neg| == |g| &&
    forall v :: 0 <= v < |g| ==> d[v] == (if neg[v] then -Infinity else d1[v]) && MarkOk(g, start, neg, v)
  }

  predicate Grows(neg0: seq<bool>, neg: seq<bool>)
  {
    |neg| == |neg0| && forall v :: 0 <= v < |neg0| && neg0[v] ==> neg[v]
  }

  /** Edge `k` of `x` marked its target if `x` was marked at the round's start or the edge is relaxable. */
  predicate MarkedFrom(g: seq<seq<Edge>>, d1: seq<int>, neg0: seq<bool>, neg: seq<bool>, x: int, k: int)
    requires Targets(g) && |d1| == |g| && |neg0| == |g| && |neg| == |g| && 0 <= x < |g| && 0 <= k < |g[x]|
  {
    (neg0[x] || Relaxable(g, d1, x, k)) ==> neg[g[x][k].to]
  }

  ghost predicate MarkedUpTo(g: seq<seq<Edge>>, d1: seq<int>, neg0: seq<bool>, neg: seq<bool>, u: int)
    requires Targets(g) && |d1| == |g| && |neg0| == |g| && |neg| == |g| && 0 <= u <= |g|
  {
    forall x, k :: 0 <= x < u && 0 <= k < |g[x]| ==> MarkedFrom(g, d1, neg0, neg, x, k)
  }

  /** Every vertex within `r` edges of a relaxable edge's target is marked. */
  ghost predicate Spread(g: seq<seq<Edge>>, d1: seq<int>, neg: seq<bool>, r: int)
    requires Targets(g) && |d1| == |g| && |neg| == |g|
  {
    forall x, k, q ::
      0 <= x < |g| && 0 <= k < |g[x]| && Relaxable(g, d1, x, k) && IsWalk(g, g[x][k].to, q) && |q| <= r ==>
      neg[End(g[x][k].to, q)]
  }

  lemma MarkKeeps(g: seq<seq<Edge>>, start: int, d1: seq<int>, parent1: seq<int>, walks1: seq<seq<Edge>>,
                  d: seq<int>, neg: seq<bool>, u: int, j: int)
    requires Sound(g, start, d1, parent1, walks1) && (Moderate(g, Infinity) ==> BoundBy(g, start, d1, |g| - 1))
    requires Marks(g, start, d1, d, neg) && 0 <= u < |g| && 0 <= j < |g[u]| && d[u] != Infinity
    requires neg[u] || d[g[u][j].to] > d[u] + g[u][j].weight
    ensures Marks(g, start, d1, d[g[u][j].to := -Infinity], neg[g[u][j].to := true])
  {
    var e := g[u][j];
    var neg' := neg[e.to := true];
    assert MarkOk(g, start, neg, u) && MarkOk(g, start, neg, e.to);
    if neg[u] {
      ReachableStep(g, start, u, e);
      if Moderate(g, Infinity) {
        NegativeCycleStep(g, start, u, e);
      }
    } else {
      assert Witnessed(g, start, d1, walks1, u);
      ReachableStep(g, start, u, e);
      if Moderate(g, Infinity) {
        NoCycleRelaxed(g, start, d1, parent1, walks1, u, j);
      }
    }
    assert MarkOk(g, start, neg', e.to);
    forall v | 0 <= v < |g|
      ensures MarkOk(g, start, neg', v)
    {
      if v != e.to {
        assert MarkOk(g, start, neg, v);
      }
    }
  }

  /** The edges of vertices before `u`, and the first `j` edges of `u`, have done their marking. */
  ghost predicate MarkedBefore(g: seq<seq<Edge>>, d1: seq<int>, neg0: seq<bool>, neg: seq<bool>, u: int, j: int)
    requires Targets(g) && |d1| == |g| && |neg0| == |g| && |neg| == |g| && 0 <= u < |g| && 0 <= j <= |g[u]|
  {
    MarkedUpTo(g, d1, neg0, neg, u) && forall k :: 0 <= k < j ==> MarkedFrom(g, d1, neg0, neg, u, k)
  }

  lemma MarkTakes(g: seq<seq<Edge>>, start: int, d1: seq<int>, parent1: seq<int>, walks1: seq<seq<Edge>>,
                  d: seq<int>, neg0: seq<bool>, neg: seq<bool>, u: int, j: int)
    requires Sound(g, start, d1, parent1, walks1) && (Moderate(g, Infinity) ==> BoundBy(g, start, d1, |g| - 1))
    requires Marks(g, start, d1, d, neg) && Grows(neg0, neg) && 0 <= u < |g| && 0 <= j < |g[u]|
    requires MarkedBefore(g, d1, neg0, neg, u, j) && d[u] != Infinity
    requires neg[u] || d[g[u][j].to] > d[u] + g[u][j].weight
    ensures var neg' := neg[g[u][j].to := true];
            Marks(g, start, d1, d[g[u][j].to := -Infinity], neg') && Grows(neg0, neg') &&
            MarkedBefore(g, d1, neg0, neg', u, j + 1)
  {
    MarkKeeps(g, start, d1, parent1, walks1, d, neg, u, j);
    var neg' := neg[g[u][j].to := true];
    forall x, k | 0 <= x < u && 0 <= k < |g[x]|
      ensures MarkedFrom(g, d1, neg0, neg', x, k)
    {
      assert MarkedFrom(g, d1, neg0, neg, x, k);
    }
    forall k | 0 <= k < j
      ensures MarkedFrom(g, d1, neg0, neg', u, k)
    {
      assert MarkedFrom(g, d1, neg0, neg, u, k);
    }
  }

  lemma MarkSkips(g: seq<seq<Edge>>, start: int, d1: seq<int>, d: seq<int>, neg0: seq<bool>, neg: seq<bool>,
                  u: int, j: int)
    requires Targets(g) && Marks(g, start, d1, d, neg) && Grows(neg0, neg) && 0 <= u < |g| && 0 <= j < |g[u]|
    requires MarkedBefore(g, d1, neg0, neg, u, j) && d[u] != Infinity
    requires !(neg[u] || d[g[u][j].to] > d[u] + g[u][j].weight)
    ensures MarkedBefore(g, d1, neg0, neg, u, j + 1)
  {
    var e := g[u][j];
    assert !neg0[u] && d[u] == d1[u];
    if !neg[e.to] {
      assert d[e.to] == d1[e.to];
    }
  }

  lemma MarkNextVertex(g: seq<seq<Edge>>, start: int, d1: seq<int>, d: seq<int>, neg0: seq<bool>, neg: seq<bool>,
                       u: int)
    requires Targets(g) && Marks(g, start, d1, d, neg) && Grows(neg0, neg) && 0 <= u < |g|
    requires MarkedBefore(g, d1, neg0, neg, u, |g[u]|) || (MarkedUpTo(g, d1, neg0, neg, u) && d[u] == Infinity)
    ensures MarkedUpTo(g, d1, neg0, neg, u + 1)
  {
    if d[u] == Infinity {
      assert !neg[u] && d1[u] == Infinity;
    }
  }

  /**
   * One round of the marking phase.  Each edge of a vertex that was marked
   * when the round began, and each edge still relaxable after the first
   * phase, has marked its target.
   */
  method MarkRound(g: seq<seq<Edge>>, start: int, d1: seq<int>, ghost parent1: seq<int>,
                   ghost walks1: seq<seq<Edge>>, d0: seq<int>, neg0: seq<bool>)
    returns (d: seq<int>, neg: seq<bool>)
    requires Sound(g, start, d1, parent1, walks1) && (Moderate(g, Infinity) ==> BoundBy(g, start, d1, |g| - 1))
    requires Marks(g, start, d1, d0, neg0)
    ensures Marks(g, start, d1, d, neg) && Grows(neg0, neg)
    ensures MarkedUpTo(g, d1, neg0, neg, |g|)
  {
    d, neg := d0, neg0;
    var n := |g|;
    var u := 0;
    while u < n
      invariant 0 <= u <= n
      invariant Marks(g, start, d1, d, neg) && Grows(neg0, neg)
      invariant MarkedUpTo(g, d1, neg0, neg, u)
    {
      if d[u] != Infinity {
        var j := 0;
        while j < |g[u]|
          invariant 0 <= j <= |g[u]|
          invariant Marks(g, start, d1, d, neg) && Grows(neg0, neg)
          invariant MarkedBefore(g, d1, neg0, neg, u, j)
          invariant d[u] != Infinity
        {
          var e := g[u][j];
          if neg[u] || d[e.to] > d[u] + e.weight {
            MarkTakes(g, start, d1, parent1, walks1, d, neg0, neg, u, j);
            d := d[e.to := -Infinity];
            neg := neg[e.to := true];
          } else {
            MarkSkips(g, start, d1, d, neg0, neg, u, j);
          }
          j := j + 1;
        }
      }
      MarkNextVertex(g, start, d1, d, neg0, neg, u);
      u := u + 1;
    }
  }

  lemma SpreadStep(g: seq<seq<Edge>>, d1: seq<int>, neg0: seq<bool>, neg: seq<bool>, r: int)
    requires Targets(g) && |d1| == |g| && |neg0| == |g| && |neg| == |g| && r >= 0
    requires MarkedUpTo(g, d1, neg0, neg, |g|) && Grows(neg0, neg)
    requires r == 0 || Spread(g, d1, neg0, r - 1)
    ensures Spread(g, d1, neg, r)
  {
    forall x, k, q | 0 <= x < |g| && 0 <= k < |g[x]| && Relaxable(g, d1, x, k) &&
                     IsWalk(g, g[x][k].to, q) && |q| <= r
      ensures neg[End(g[x][k].to, q)]
    {
      var y := g[x][k].to;
      if |q| == 0 {
        assert MarkedFrom(g, d1, neg0, neg, x, k);
      } else if |q| <= r - 1 {
        assert neg0[End(y, q)];
      } else {
        var q' := q[..|q| - 1];
        var w := End(y, q');
        var j :| 0 <= j < |g[w]| && g[w][j] == q[|q| - 1];
        assert neg0[w];
        assert MarkedFrom(g, d1, neg0, neg, w, j);
      }
    }
  }

  /** The marking phase: `n` rounds, so marks travel `n - 1` edges beyond any relaxable edge. */
  method MarkNegative(g: seq<seq<Edge>>, start: int, d1: seq<int>, ghost parent1: seq<int>,
                      ghost walks1: seq<seq<Edge>>)
    returns (d: seq<int>, neg: seq<bool>)
    requires Sound(g, start, d1, parent1, walks1) && (Moderate(g, Infinity) ==> BoundBy(g, start, d1, |g| - 1))
    ensures Marks(g, start, d1, d, neg) && Spread(g, d1, neg, |g| - 1)
  {
    var n := |g|;
    d, neg := d1, seq(n, v => false);
    var i := 0;
    while i < n
      invariant 0 <= i <= n && Marks(g, start, d1, d, neg)
      invariant i >= 1 ==> Spread(g, d1, neg, i - 1)
    {
      var d', neg' := MarkRound(g, start, d1, parent1, walks1, d, neg);
      SpreadStep(g, d1, neg, neg', i);
      d, neg := d', neg';
      i := i + 1;
    }
  }

  /** Every vertex behind a negative cycle ends up marked. */
  lemma CycleMarked(g: seq<seq<Edge>>, start: int, d1: seq<int>, parent1: seq<int>, walks1: seq<seq<Edge>>,
                    neg: seq<bool>, v: int)
    requires Sound(g, start, d1, parent1, walks1) && Moderate(g, Infinity) && BoundBy(g, start, d1, |g| - 1)
    requires |neg| == |g| && Spread(g, d1, neg, |g| - 1)
    requires NegativeCycleReaches(g, start, v)
    ensures 0 <= v < |g| && neg[v]
  {
    var z, a, c, b :| WalkTo(g, start, a, z) && WalkTo(g, z, c, z) && Weight(c) < 0 && WalkTo(g, z, b, v);
    var found, x, k, rest := FindRelaxable(g, start, d1, parent1, walks1, z, c);
    assert found;
    var y := g[x][k].to;
    WalkConcat(g, y, rest, b);
    var q := ShortWalk(g, y, rest + b);
    WalkEndInRange(g, y, q);
  }

  // ---------------------------------------------------------------------
  // The whole algorithm
  // ---------------------------------------------------------------------

  /**
   * Distances and parents from `start`.  A vertex that cannot be reached
   * keeps `Infinity` and `InvalidNode`; a finite distance is the weight of a
   * walk to the vertex.  When the weights are `Moderate`, `-Infinity` marks
   * exactly the vertices a negative cycle leads to, and every other reachable
   * vertex has the weight of its lightest walk.
   */
  method ShortestPath(g: seq<seq<Edge>>, start: int) returns (distance: seq<int>, parent: seq<int>)
    requires Targets(g) && 0 <= start < |g|
    ensures |distance| == |g| && |parent| == |g|
    ensures forall v :: 0 <= v < |g| && !Reachable(g, start, v) ==>
              distance[v] == Infinity && parent[v] == InvalidNode
    ensures forall v :: 0 <= v < |g| && distance[v] != Infinity && distance[v] != -Infinity ==>
              Reaches(g, start, v, distance[v])
    ensures forall v :: 0 <= v < |g| ==> ParentEdge(g, start, parent, v)
    ensures !NegativeCycleReaches(g, start, start) ==> parent[start] == start
    ensures Moderate(g, Infinity) ==> forall v :: 0 <= v < |g| ==>
              (distance[v] == Infinity <==> !Reachable(g, start, v)) &&
              (parent[v] == InvalidNode <==> !Reachable(g, start, v))
    ensures Moderate(g, Infinity) ==> forall v :: 0 <= v < |g| ==>
              (distance[v] == -Infinity <==> NegativeCycleReaches(g, start, v))
    ensures Moderate(g, Infinity) ==> forall v :: 0 <= v < |g| && distance[v] != Infinity && distance[v] != -Infinity ==>
              NoShorter(g, start, v, distance[v])
  {
    var d1, rounds;
    ghost var walks;
    d1, parent, rounds, walks := Relaxation(g, start);
    var neg;
    distance, neg := MarkNegative(g, start, d1, parent, walks);
    forall v | 0 <= v < |g|
      ensures !Reachable(g, start, v) ==> distance[v] == Infinity && parent[v] == InvalidNode
      ensures distance[v] != Infinity && distance[v] != -Infinity ==> Reaches(g, start, v, distance[v])
    {
      assert MarkOk(g, start, neg, v) && Witnessed(g, start, d1, walks, v);
    }
    if d1[start] < 0 {
      assert Witnessed(g, start, d1, walks, start);
      assert WalkTo(g, start, [], start);
      assert NegativeCycleReaches(g, start, start);
    }
    if Moderate(g, Infinity) {
      forall v | 0 <= v < |g|
        ensures distance[v] == Infinity <==> !Reachable(g, start, v)
        ensures parent[v] == InvalidNode <==> !Reachable(g, start, v)
        ensures distance[v] == -Infinity <==> NegativeCycleReaches(g, start, v)
        ensures distance[v] != Infinity && distance[v] != -Infinity ==> NoShorter(g, start, v, distance[v])
      {
        assert MarkOk(g, start, neg, v);
        if Reachable(g, start, v) {
          ReachedFinite(g, start, d1, parent, walks, v);
          Floor(g, start, d1, parent, walks, v);
        }
        if NegativeCycleReaches(g, start, v) {
          CycleMarked(g, start, d1, parent, walks, neg, v);
        } else {
          Optimal(g, start, d1, parent, walks, v);
        }
      }
    }
  }
}
