/**
 * The weighted edge the graph programs share (`from`, `to`, `weight`), graphs
 * as adjacency lists, and two reference notions the algorithms are specified
 * against: undirected connectivity (for the spanning forest) and directed
 * walks with their total weight (for the shortest-path programs).
 */
module Graphs {
  import opened Common

  datatype Edge = Edge(from: int, to: int, weight: int)

  /** Every endpoint is a vertex `0 <= v < n`. */
  predicate InRange(edges: seq<Edge>, n: int)
  {
    forall k :: 0 <= k < |edges| ==> 0 <= edges[k].from < n && 0 <= edges[k].to < n
  }

  /** The adjacency lists concatenated in vertex order, as the source collects them. */
  function Flatten(g: seq<seq<Edge>>): seq<Edge>
  {
    if |g| == 0 then [] else Flatten(g[..|g| - 1]) + g[|g| - 1]
  }

  /** The edges collected are exactly the edges of the lists. */
  lemma {:induction false} FlattenMembers(g: seq<seq<Edge>>, e: Edge)
    ensures e in Flatten(g) <==> exists i, j :: 0 <= i < |g| && 0 <= j < |g[i]| && g[i][j] == e
  {
    if |g| > 0 {
      var h := g[..|g| - 1];
      FlattenMembers(h, e);
      if e in Flatten(g) && e !in Flatten(h) {
        var j :| 0 <= j < |g[|g| - 1]| && g[|g| - 1][j] == e;
      }
      if exists i, j :: 0 <= i < |g| && 0 <= j < |g[i]| && g[i][j] == e {
        var i, j :| 0 <= i < |g| && 0 <= j < |g[i]| && g[i][j] == e;
        if i < |h| {
          assert h[i][j] == e;
        }
      }
    }
  }

  // ---------------------------------------------------------------------
  // Undirected connectivity
  // ---------------------------------------------------------------------

  /** `e` joins `u` and `v`, in either direction. */
  predicate Links(e: Edge, u: int, v: int)
  {
    (e.from == u && e.to == v) || (e.from == v && e.to == u)
  }

  ghost predicate Adjacent(edges: seq<Edge>, u: int, v: int)
  {
    exists k :: 0 <= k < |edges| && Links(edges[k], u, v)
  }

  /** A non-empty vertex sequence whose neighbours are joined by edges. */
  ghost predicate IsUndirectedWalk(edges: seq<Edge>, w: seq<int>)
  {
    |w| > 0 && forall i :: 0 <= i < |w| - 1 ==> Adjacent(edges, w[i], w[i + 1])
  }

  ghost predicate Connected(edges: seq<Edge>, x: int, y: int)
  {
    exists w :: IsUndirectedWalk(edges, w) && w[0] == x && w[|w| - 1] == y
  }

  /** Through `e` or not: how `x` and `y` connect once `e` is added to `edges`. */
  ghost predicate ConnectedVia(edges: seq<Edge>, e: Edge, x: int, y: int)
  {
    Connected(edges, x, y) ||
    (Connected(edges, x, e.from) && Connected(edges, e.to, y)) ||
    (Connected(edges, x, e.to) && Connected(edges, e.from, y))
  }

  lemma ConnectedRefl(edges: seq<Edge>, x: int)
    ensures Connected(edges, x, x)
  {
    assert IsUndirectedWalk(edges, [x]);
  }

  lemma AdjacentConnected(edges: seq<Edge>, u: int, v: int)
    requires Adjacent(edges, u, v)
    ensures Connected(edges, u, v)
  {
    assert IsUndirectedWalk(edges, [u, v]);
  }

  lemma ConnectedTrans(edges: seq<Edge>, x: int, y: int, z: int)
    requires Connected(edges, x, y) && Connected(edges, y, z)
    ensures Connected(edges, x, z)
  {
    var w1 :| IsUndirectedWalk(edges, w1) && w1[0] == x && w1[|w1| - 1] == y;
    var w2 :| IsUndirectedWalk(edges, w2) && w2[0] == y && w2[|w2| - 1] == z;
    var w := w1 + w2[1..];
    forall i | 0 <= i < |w| - 1
      ensures Adjacent(edges, w[i], w[i + 1])
    {
      if i < |w1| - 1 {
        assert w[i] == w1[i] && w[i + 1] == w1[i + 1];
      } else {
        assert w[i] == w2[i - |w1| + 1] && w[i + 1] == w2[i - |w1| + 2];
      }
    }
    assert IsUndirectedWalk(edges, w);
  }

  lemma ConnectedSym(edges: seq<Edge>, x: int, y: int)
    requires Connected(edges, x, y)
    ensures Connected(edges, y, x)
  {
    var w :| IsUndirectedWalk(edges, w) && w[0] == x && w[|w| - 1] == y;
    var r := seq(|w|, i requires 0 <= i < |w| => w[|w| - 1 - i]);
    forall i | 0 <= i < |r| - 1
      ensures Adjacent(edges, r[i], r[i + 1])
    {
      var j := |w| - 2 - i;
      assert Adjacent(edges, w[j], w[j + 1]);
      var k :| 0 <= k < |edges| && Links(edges[k], w[j], w[j + 1]);
      assert Links(edges[k], r[i], r[i + 1]);
    }
    assert IsUndirectedWalk(edges, r);
  }

  /** Connectivity only grows when every edge of `a` is also an edge of `b`. */
  lemma ConnectedSubset(a: seq<Edge>, b: seq<Edge>, x: int, y: int)
    requires forall k :: 0 <= k < |a| ==> a[k] in b
    requires Connected(a, x, y)
    ensures Connected(b, x, y)
  {
    var w :| IsUndirectedWalk(a, w) && w[0] == x && w[|w| - 1] == y;
    forall i | 0 <= i < |w| - 1
      ensures Adjacent(b, w[i], w[i + 1])
    {
      var k :| 0 <= k < |a| && Links(a[k], w[i], w[i + 1]);
      var k' :| 0 <= k' < |b| && b[k'] == a[k];
    }
    assert IsUndirectedWalk(b, w);
  }

  /** Without edges every vertex is connected to itself only. */
  lemma ConnectedEmpty(x: int, y: int)
    ensures Connected([], x, y) <==> x == y
  {
    if x == y {
      ConnectedRefl([], x);
    }
    if Connected([], x, y) {
      var w :| IsUndirectedWalk([], w) && w[0] == x && w[|w| - 1] == y;
      if |w| > 1 {
        assert Adjacent([], w[0], w[1]);
      }
    }
  }

  /** Every walk over `edges + [e]` either avoids `e` or passes through its endpoints. */
  lemma {:induction false} WalkVia(edges: seq<Edge>, e: Edge, w: seq<int>)
    requires IsUndirectedWalk(edges + [e], w)
    ensures ConnectedVia(edges, e, w[0], w[|w| - 1])
  {
    var x, y := w[0], w[|w| - 1];
    if |w| == 1 {
      ConnectedRefl(edges, x);
    } else {
      var p := w[..|w| - 1];
      assert IsUndirectedWalk(edges + [e], p) by {
        forall i | 0 <= i < |p| - 1
          ensures Adjacent(edges + [e], p[i], p[i + 1])
        {
          assert p[i] == w[i] && p[i + 1] == w[i + 1];
        }
      }
      WalkVia(edges, e, p);
      var z := p[|p| - 1];
      assert z == w[|w| - 2];
      var a, b := e.from, e.to;
      assert Adjacent(edges + [e], z, y);
      var k :| 0 <= k < |edges| + 1 && Links((edges + [e])[k], z, y);
      if k < |edges| {
        assert Adjacent(edges, z, y);
        AdjacentConnected(edges, z, y);
        if Connected(edges, x, z) {
          ConnectedTrans(edges, x, z, y);
        } else if Connected(edges, x, a) && Connected(edges, b, z) {
          ConnectedTrans(edges, b, z, y);
        } else {
          ConnectedTrans(edges, a, z, y);
        }
      } else {
        ConnectedRefl(edges, a);
        ConnectedRefl(edges, b);
      }
    }
  }

  /** Adding `e` to `edges` connects exactly the pairs `ConnectedVia` describes. */
  lemma ConnectedExtend(edges: seq<Edge>, e: Edge, x: int, y: int)
    ensures Connected(edges + [e], x, y) <==> ConnectedVia(edges, e, x, y)
  {
    var ext := edges + [e];
    if Connected(ext, x, y) {
      var w :| IsUndirectedWalk(ext, w) && w[0] == x && w[|w| - 1] == y;
      WalkVia(edges, e, w);
    }
    if ConnectedVia(edges, e, x, y) {
      assert forall k :: 0 <= k < |edges| ==> edges[k] in ext by {
        forall k | 0 <= k < |edges| ensures edges[k] in ext {
          assert ext[k] == edges[k];
        }
      }
      assert Links(ext[|edges|], e.from, e.to) && Links(ext[|edges|], e.to, e.from);
      AdjacentConnected(ext, e.from, e.to);
      AdjacentConnected(ext, e.to, e.from);
      if Connected(edges, x, y) {
        ConnectedSubset(edges, ext, x, y);
      } else if Connected(edges, x, e.from) && Connected(edges, e.to, y) {
        ConnectedSubset(edges, ext, x, e.from);
        ConnectedSubset(edges, ext, e.to, y);
        ConnectedTrans(ext, x, e.from, e.to);
        ConnectedTrans(ext, x, e.to, y);
      } else {
        ConnectedSubset(edges, ext, x, e.to);
        ConnectedSubset(edges, ext, e.from, y);
        ConnectedTrans(ext, x, e.to, e.from);
        ConnectedTrans(ext, x, e.from, y);
      }
    }
  }

  lemma ConnectedSymIff(edges: seq<Edge>, x: int, y: int)
    ensures Connected(edges, x, y) <==> Connected(edges, y, x)
  {
    if Connected(edges, x, y) {
      ConnectedSym(edges, x, y);
    }
    if Connected(edges, y, x) {
      ConnectedSym(edges, y, x);
    }
  }

  /** An edge whose endpoints are already connected connects nothing new. */
  lemma ConnectedRedundant(edges: seq<Edge>, e: Edge, x: int, y: int)
    requires Connected(edges, e.from, e.to)
    ensures Connected(edges + [e], x, y) <==> Connected(edges, x, y)
  {
    ConnectedExtend(edges, e, x, y);
    if Connected(edges, x, e.from) && Connected(edges, e.to, y) {
      ConnectedTrans(edges, x, e.from, e.to);
      ConnectedTrans(edges, x, e.to, y);
    }
    if Connected(edges, x, e.to) && Connected(edges, e.from, y) {
      ConnectedSym(edges, e.from, e.to);
      ConnectedTrans(edges, x, e.to, e.from);
      ConnectedTrans(edges, x, e.from, y);
    }
  }

  /** Two edge lists with the same edges connect the same pairs. */
  lemma ConnectedSameEdges(a: seq<Edge>, b: seq<Edge>, x: int, y: int)
    requires multiset(a) == multiset(b)
    ensures Connected(a, x, y) <==> Connected(b, x, y)
  {
    assert forall k :: 0 <= k < |a| ==> a[k] in b by {
      forall k | 0 <= k < |a| ensures a[k] in b {
        assert a[k] in multiset(a);
      }
    }
    assert forall k :: 0 <= k < |b| ==> b[k] in a by {
      forall k | 0 <= k < |b| ensures b[k] in a {
        assert b[k] in multiset(b);
      }
    }
    if Connected(a, x, y) {
      ConnectedSubset(a, b, x, y);
    }
    if Connected(b, x, y) {
      ConnectedSubset(b, a, x, y);
    }
  }

  // ---------------------------------------------------------------------
  // Directed walks in adjacency lists
  // ---------------------------------------------------------------------

  /** Every edge in the list of `u` points at a vertex `0 <= v < |g|`. */
  predicate Targets(g: seq<seq<Edge>>)
  {
    forall u, j :: 0 <= u < |g| && 0 <= j < |g[u]| ==> 0 <= g[u][j].to < |g|
  }

  predicate NonNegative(g: seq<seq<Edge>>)
  {
    forall u, j :: 0 <= u < |g| && 0 <= j < |g[u]| ==> g[u][j].weight >= 0
  }

  /** Where a walk from `s` along the edges `p` arrives. */
  function End(s: int, p: seq<Edge>): int
  {
    if |p| == 0 then s else p[|p| - 1].to
  }

  /** The sum of the weights along `p`. */
  function Weight(p: seq<Edge>): int
  {
    if |p| == 0 then 0 else Weight(p[..|p| - 1]) + p[|p| - 1].weight
  }

  /**
   * `p` is a walk from vertex `s`: each edge is taken from the adjacency list
   * of the vertex the walk has reached.  The lists' `from` fields play no part,
   * as in the programs, which only read `to` and `weight`.
   */
  ghost predicate IsWalk(g: seq<seq<Edge>>, s: int, p: seq<Edge>)
    decreases |p|
  {
    0 <= s < |g| &&
    (|p| > 0 ==>
       var q := p[..|p| - 1];
       IsWalk(g, s, q) && 0 <= End(s, q) < |g| && p[|p| - 1] in g[End(s, q)])
  }

  ghost predicate WalkTo(g: seq<seq<Edge>>, s: int, p: seq<Edge>, v: int)
  {
    IsWalk(g, s, p) && End(s, p) == v
  }

  /** No walk from `s` to `v` weighs less than `d`. */
  ghost predicate NoShorter(g: seq<seq<Edge>>, s: int, v: int, d: int)
  {
    forall p :: WalkTo(g, s, p, v) ==> d <= Weight(p)
  }

  /** Some walk from `s` to `v` weighs exactly `d`. */
  ghost predicate Reaches(g: seq<seq<Edge>>, s: int, v: int, d: int)
  {
    exists p :: WalkTo(g, s, p, v) && Weight(p) == d
  }

  lemma WalkAppend(g: seq<seq<Edge>>, s: int, p: seq<Edge>, e: Edge)
    requires IsWalk(g, s, p) && 0 <= End(s, p) < |g| && e in g[End(s, p)]
    ensures WalkTo(g, s, p + [e], e.to) && Weight(p + [e]) == Weight(p) + e.weight
  {
    assert (p + [e])[..|p|] == p;
  }

  lemma {:induction false} WeightNonNegative(g: seq<seq<Edge>>, s: int, p: seq<Edge>)
    requires NonNegative(g) && IsWalk(g, s, p)
    ensures Weight(p) >= 0
    decreases |p|
  {
    if |p| > 0 {
      var q := p[..|p| - 1];
      WeightNonNegative(g, s, q);
      var u := End(s, q);
      var j :| 0 <= j < |g[u]| && g[u][j] == p[|p| - 1];
    }
  }

  /**
   * A walk from a vertex in `inside` to one outside leaves `inside` along some
   * edge `g[x][j]`; with non-negative weights the walk up to and across that
   * edge weighs no more than the whole walk.
   */
  lemma {:induction false} Crossing(g: seq<seq<Edge>>, s: int, p: seq<Edge>, inside: seq<bool>)
    returns (q: seq<Edge>, x: int, j: int)
    requires NonNegative(g) && |inside| == |g| && IsWalk(g, s, p)
    requires inside[s] && 0 <= End(s, p) < |g| && !inside[End(s, p)]
    ensures 0 <= x < |g| && inside[x] && 0 <= j < |g[x]| && 0 <= g[x][j].to < |g| && !inside[g[x][j].to]
    ensures WalkTo(g, s, q, x) && Weight(q) + g[x][j].weight <= Weight(p)
    decreases |p|
  {
    var r := p[..|p| - 1];
    var z := End(s, r);
    var k :| 0 <= k < |g[z]| && g[z][k] == p[|p| - 1];
    if inside[z] {
      q, x, j := r, z, k;
    } else {
      q, x, j := Crossing(g, s, r, inside);
      assert g[z][k].weight >= 0;
    }
  }

  ghost predicate Reachable(g: seq<seq<Edge>>, s: int, v: int)
  {
    exists p :: WalkTo(g, s, p, v)
  }

  /**
   * A walk from `s` reaches a closed walk of negative weight and goes on
   * to `v`: walks from `s` to `v` can then be made as light as one likes.
   */
  ghost predicate NegativeCycleReaches(g: seq<seq<Edge>>, s: int, v: int)
  {
    exists z, a, c, b :: WalkTo(g, s, a, z) && WalkTo(g, z, c, z) && Weight(c) < 0 && WalkTo(g, z, b, v)
  }

  lemma {:induction false} WalkPrefix(g: seq<seq<Edge>>, s: int, p: seq<Edge>, k: int)
    requires IsWalk(g, s, p) && 0 <= k <= |p|
    ensures IsWalk(g, s, p[..k])
    decreases |p|
  {
    if k < |p| {
      var q := p[..|p| - 1];
      assert q[..k] == p[..k];
      WalkPrefix(g, s, q, k);
    } else {
      assert p[..k] == p;
    }
  }

  lemma {:induction false} WalkConcat(g: seq<seq<Edge>>, s: int, p: seq<Edge>, q: seq<Edge>)
    requires IsWalk(g, s, p) && IsWalk(g, End(s, p), q)
    ensures IsWalk(g, s, p + q) && End(s, p + q) == End(End(s, p), q)
    ensures Weight(p + q) == Weight(p) + Weight(q)
    decreases |q|
  {
    if |q| == 0 {
      assert p + q == p;
    } else {
      var q' := q[..|q| - 1];
      WalkConcat(g, s, p, q');
      assert (p + q)[..|p + q| - 1] == p + q';
    }
  }

  lemma {:induction false} WalkSuffix(g: seq<seq<Edge>>, s: int, p: seq<Edge>, k: int)
    requires Targets(g) && IsWalk(g, s, p) && 0 <= k <= |p|
    ensures IsWalk(g, End(s, p[..k]), p[k..]) && End(End(s, p[..k]), p[k..]) == End(s, p)
    ensures Weight(p) == Weight(p[..k]) + Weight(p[k..])
    decreases |p|
  {
    WalkPrefix(g, s, p, k);
    if k == |p| {
      WalkEndInRange(g, s, p);
      assert p[..k] == p && p[k..] == [];
    } else {
      var q := p[..|p| - 1];
      assert q[..k] == p[..k] && q[k..] == p[k..][..|p[k..]| - 1];
      WalkSuffix(g, s, q, k);
    }
  }

  lemma WalkEndInRange(g: seq<seq<Edge>>, s: int, p: seq<Edge>)
    requires Targets(g) && IsWalk(g, s, p)
    ensures 0 <= End(s, p) < |g|
  {
    if |p| > 0 {
      var q := p[..|p| - 1];
      var k :| 0 <= k < |g[End(s, q)]| && g[End(s, q)][k] == p[|p| - 1];
    }
  }

  lemma ReachableStep(g: seq<seq<Edge>>, s: int, u: int, e: Edge)
    requires Reachable(g, s, u) && 0 <= u < |g| && e in g[u]
    ensures Reachable(g, s, e.to)
  {
    var p :| WalkTo(g, s, p, u);
    WalkAppend(g, s, p, e);
    assert WalkTo(g, s, p + [e], e.to);
  }

  lemma ReachableTrans(g: seq<seq<Edge>>, s: int, u: int, q: seq<Edge>)
    requires Reachable(g, s, u) && IsWalk(g, u, q)
    ensures Reachable(g, s, End(u, q))
  {
    var p :| WalkTo(g, s, p, u);
    WalkConcat(g, s, p, q);
    assert WalkTo(g, s, p + q, End(u, q));
  }

  lemma NegativeCycleStep(g: seq<seq<Edge>>, s: int, u: int, e: Edge)
    requires NegativeCycleReaches(g, s, u) && 0 <= u < |g| && e in g[u]
    ensures NegativeCycleReaches(g, s, e.to)
  {
    var z, a, c, b :| WalkTo(g, s, a, z) && WalkTo(g, z, c, z) && Weight(c) < 0 && WalkTo(g, z, b, u);
    WalkAppend(g, z, b, e);
    assert WalkTo(g, z, b + [e], e.to);
  }

  lemma NegativeCycleReachable(g: seq<seq<Edge>>, s: int, v: int)
    requires NegativeCycleReaches(g, s, v)
    ensures Reachable(g, s, v)
  {
    var z, a, c, b :| WalkTo(g, s, a, z) && WalkTo(g, z, c, z) && Weight(c) < 0 && WalkTo(g, z, b, v);
    WalkConcat(g, s, a, b);
    assert WalkTo(g, s, a + b, v);
  }

  /**
   * A walk with at least as many edges as there are vertices repeats a
   * vertex: it splits into a walk to `z`, a closed walk at `z`, and the rest.
   */
  lemma Loop(g: seq<seq<Edge>>, s: int, p: seq<Edge>) returns (i: int, j: int)
    requires Targets(g) && IsWalk(g, s, p) && |p| >= |g|
    ensures 0 <= i < j <= |p|
    ensures WalkTo(g, s, p[..i], End(s, p[..j]))
    ensures WalkTo(g, End(s, p[..j]), p[i..j], End(s, p[..j]))
    ensures WalkTo(g, End(s, p[..j]), p[j..], End(s, p))
    ensures Weight(p) == Weight(p[..i]) + Weight(p[i..j]) + Weight(p[j..])
  {
    var ends := seq(|p| + 1, k requires 0 <= k <= |p| => End(s, p[..k]));
    forall k | 0 <= k < |ends|
      ensures 0 <= ends[k] < |g|
    {
      WalkPrefix(g, s, p, k);
      WalkEndInRange(g, s, p[..k]);
    }
    Pigeonhole(ends, |g|);
    i, j :| 0 <= i < j < |ends| && ends[i] == ends[j];
    assert End(s, p[..i]) == End(s, p[..j]) by { assert ends[i] == End(s, p[..i]) && ends[j] == End(s, p[..j]); }
    WalkPrefix(g, s, p, i);
    var pj := p[..j];
    WalkPrefix(g, s, p, j);
    WalkSuffix(g, s, pj, i);
    assert pj[..i] == p[..i] && pj[i..] == p[i..j];
    WalkSuffix(g, s, p, j);
  }

  /** Whatever reaches `v` reaches it in fewer edges than there are vertices. */
  lemma {:induction false} ShortWalk(g: seq<seq<Edge>>, s: int, p: seq<Edge>) returns (r: seq<Edge>)
    requires Targets(g) && IsWalk(g, s, p)
    ensures WalkTo(g, s, r, End(s, p)) && |r| < |g|
    decreases |p|
  {
    if |p| < |g| {
      r := p;
    } else {
      var i, j := Loop(g, s, p);
      var z := End(s, p[..j]);
      WalkConcat(g, s, p[..i], p[j..]);
      r := ShortWalk(g, s, p[..i] + p[j..]);
    }
  }

  /**
   * Without a negative cycle on the way to `v`, cutting out the closed walks
   * of a walk to `v` leaves one with fewer edges than there are vertices
   * that weighs no more.
   */
  lemma {:induction false} LightShortWalk(g: seq<seq<Edge>>, s: int, p: seq<Edge>) returns (r: seq<Edge>)
    requires Targets(g) && IsWalk(g, s, p) && !NegativeCycleReaches(g, s, End(s, p))
    ensures WalkTo(g, s, r, End(s, p)) && |r| < |g| && Weight(r) <= Weight(p)
    decreases |p|
  {
    if |p| < |g| {
      r := p;
    } else {
      var i, j := Loop(g, s, p);
      var z := End(s, p[..j]);
      assert Weight(p[i..j]) >= 0;
      WalkConcat(g, s, p[..i], p[j..]);
      r := LightShortWalk(g, s, p[..i] + p[j..]);
    }
  }

  function Abs(x: int): nat
  {
    if x < 0 then -x else x
  }

  /** Every edge weighs less than `limit / n` in absolute value. */
  ghost predicate Moderate(g: seq<seq<Edge>>, limit: int)
  {
    forall u, k :: 0 <= u < |g| && 0 <= k < |g[u]| ==> |g| * Abs(g[u][k].weight) < limit
  }

  lemma ScaledAbs(n: int, w: int)
    requires n >= 0
    ensures -(n * Abs(w)) <= n * w <= n * Abs(w)
  {
    if w < 0 {
      assert n * w == -(n * -w);
    }
  }

  lemma Distribute(n: int, a: int, b: int)
    ensures n * (a + b) == n * a + n * b
  {
  }

  lemma MulMono(a: int, b: int, c: int)
    requires 0 <= a <= b && c >= 0
    ensures a * c <= b * c
  {
    assert b * c - a * c == (b - a) * c;
  }

  lemma Cancel(n: int, a: int, b: int)
    requires n > 0 && n * a <= n * b
    ensures a <= b
  {
    assert n * a - n * b == n * (a - b);
  }

  lemma {:induction false} WeightLimit(g: seq<seq<Edge>>, s: int, p: seq<Edge>, limit: int)
    requires Moderate(g, limit) && IsWalk(g, s, p)
    ensures |g| * Weight(p) <= |p| * (limit - 1) && -(|p| * (limit - 1)) <= |g| * Weight(p)
    decreases |p|
  {
    if |p| > 0 {
      var n, q, e := |g|, p[..|p| - 1], p[|p| - 1];
      WeightLimit(g, s, q, limit);
      var k :| 0 <= k < |g[End(s, q)]| && g[End(s, q)][k] == e;
      assert n * Abs(e.weight) < limit;
      ScaledAbs(n, e.weight);
      Distribute(n, Weight(q), e.weight);
      Distribute(limit - 1, |q|, 1);
      assert |p| * (limit - 1) == (limit - 1) * (|q| + 1);
      assert |q| * (limit - 1) == (limit - 1) * |q|;
    }
  }

  /** Under `Moderate`, a walk of at most `n` edges weighs strictly less than `limit` either way. */
  lemma ShortWeight(g: seq<seq<Edge>>, s: int, p: seq<Edge>, limit: int)
    requires limit > 0 && Moderate(g, limit) && IsWalk(g, s, p) && |p| <= |g|
    ensures -limit < Weight(p) < limit
  {
    WeightLimit(g, s, p, limit);
    var n := |g|;
    MulMono(|p|, n, limit - 1);
    Cancel(n, Weight(p), limit - 1);
    assert n * -(limit - 1) == -(n * (limit - 1));
    Cancel(n, -(limit - 1), Weight(p));
  }

  /**
   * No vertex of `p` repeats, except that a closed walk may end where it
   * started.
   */
  ghost predicate Simple(s: int, p: seq<Edge>)
  {
    forall a, b :: 0 <= a < b <= |p| && End(s, p[..a]) == End(s, p[..b]) ==> a == 0 && b == |p|
  }

  /** Vertex `t + c` of a walk is vertex `c` of the walk's tail from position `t`. */
  lemma TailVertex(g: seq<seq<Edge>>, s: int, p: seq<Edge>, t: int, c: int)
    requires Targets(g) && IsWalk(g, s, p) && 0 <= t && 0 <= c && t + c <= |p|
    ensures End(End(s, p[..t]), p[t..][..c]) == End(s, p[..t + c])
  {
    var pc := p[..t + c];
    WalkPrefix(g, s, p, t + c);
    WalkSuffix(g, s, pc, t);
    assert pc[..t] == p[..t] && pc[t..] == p[t..][..c];
  }

  lemma SimpleLength(g: seq<seq<Edge>>, s: int, p: seq<Edge>)
    requires Targets(g) && IsWalk(g, s, p) && Simple(s, p)
    ensures |p| <= |g|
  {
    var ends := seq(|p|, k requires 0 <= k < |p| => End(s, p[..k]));
    forall k | 0 <= k < |p|
      ensures 0 <= ends[k] < |g|
    {
      WalkPrefix(g, s, p, k);
      WalkEndInRange(g, s, p[..k]);
    }
    forall a, b | 0 <= a < b < |ends|
      ensures ends[a] != ends[b]
    {
      assert ends[a] == End(s, p[..a]) && ends[b] == End(s, p[..b]);
    }
    DistinctCard(ends);
    SubsetOfRangeCard(set k | 0 <= k < |ends| :: ends[k], |g|);
  }

  /**
   * Cutting out closed walks that are not the whole walk leaves a simple
   * walk with at least one edge between the same ends.
   */
  lemma {:induction false} SimpleWalk(g: seq<seq<Edge>>, s: int, p: seq<Edge>) returns (r: seq<Edge>)
    requires Targets(g) && IsWalk(g, s, p) && |p| > 0
    ensures WalkTo(g, s, r, End(s, p)) && 0 < |r| <= |p| && Simple(s, r)
    decreases |p|
  {
    if Simple(s, p) {
      r := p;
    } else {
      var a, b :| 0 <= a < b <= |p| && End(s, p[..a]) == End(s, p[..b]) && !(a == 0 && b == |p|);
      WalkPrefix(g, s, p, a);
      WalkSuffix(g, s, p, b);
      WalkConcat(g, s, p[..a], p[b..]);
      r := SimpleWalk(g, s, p[..a] + p[b..]);
    }
  }

  /** As `SimpleWalk`, and no heavier when no negative cycle lies on the way. */
  lemma {:induction false} LightSimpleWalk(g: seq<seq<Edge>>, s: int, p: seq<Edge>) returns (r: seq<Edge>)
    requires Targets(g) && IsWalk(g, s, p) && |p| > 0 && !NegativeCycleReaches(g, s, End(s, p))
    ensures WalkTo(g, s, r, End(s, p)) && 0 < |r| <= |p| && Simple(s, r) && Weight(r) <= Weight(p)
    decreases |p|
  {
    if Simple(s, p) {
      r := p;
    } else {
      var a, b :| 0 <= a < b <= |p| && End(s, p[..a]) == End(s, p[..b]) && !(a == 0 && b == |p|);
      var q := CutCycle(g, s, p, a, b);
      r := LightSimpleWalk(g, s, q);
    }
  }

  /** Cutting out a cycle of non-negative weight leaves a shorter, no heavier walk to the same end. */
  lemma CutCycle(g: seq<seq<Edge>>, s: int, p: seq<Edge>, a: int, b: int) returns (q: seq<Edge>)
    requires Targets(g) && IsWalk(g, s, p) && !NegativeCycleReaches(g, s, End(s, p))
    requires 0 <= a < b <= |p| && End(s, p[..a]) == End(s, p[..b]) && !(a == 0 && b == |p|)
    ensures q == p[..a] + p[b..] && IsWalk(g, s, q) && End(s, q) == End(s, p)
    ensures 0 < |q| < |p| && Weight(q) <= Weight(p)
  {
    var z := End(s, p[..b]);
    var pb := p[..b];
    WalkPrefix(g, s, p, a);
    WalkPrefix(g, s, p, b);
    WalkSuffix(g, s, pb, a);
    assert pb[..a] == p[..a] && pb[a..] == p[a..b];
    WalkSuffix(g, s, p, b);
    assert WalkTo(g, s, p[..a], z) && WalkTo(g, z, p[a..b], z) && WalkTo(g, z, p[b..], End(s, p));
    assert Weight(p[a..b]) >= 0;
    WalkConcat(g, s, p[..a], p[b..]);
    q := p[..a] + p[b..];
  }

  /**
   * A closed walk of negative weight contains a simple one: cutting a
   * repeated vertex splits it into two closed walks, one of them negative.
   */
  lemma {:induction false} NegativeSimpleCycle(g: seq<seq<Edge>>, z: int, c: seq<Edge>)
    returns (k: int, u: seq<Edge>, q: seq<Edge>, v: seq<Edge>)
    requires Targets(g) && WalkTo(g, z, c, z) && Weight(c) < 0
    ensures WalkTo(g, z, u, k) && WalkTo(g, k, v, z)
    ensures WalkTo(g, k, q, k) && |q| > 0 && Simple(k, q) && Weight(q) < 0
    decreases |c|
  {
    if Simple(z, c) {
      assert |c| > 0;
      k, u, q, v := z, [], c, [];
    } else {
      var a, b :| 0 <= a < b <= |c| && End(z, c[..a]) == End(z, c[..b]) && !(a == 0 && b == |c|);
      var x := End(z, c[..b]);
      var cb := c[..b];
      WalkPrefix(g, z, c, a);
      WalkPrefix(g, z, c, b);
      WalkSuffix(g, z, cb, a);
      assert cb[..a] == c[..a] && cb[a..] == c[a..b];
      WalkSuffix(g, z, c, b);
      if Weight(c[a..b]) < 0 {
        var k', u', q', v' := NegativeSimpleCycle(g, x, c[a..b]);
        WalkConcat(g, z, c[..a], u');
        WalkConcat(g, k', v', c[b..]);
        k, u, q, v := k', c[..a] + u', q', v' + c[b..];
      } else {
        WalkConcat(g, z, c[..a], c[b..]);
        k, u, q, v := NegativeSimpleCycle(g, z, c[..a] + c[b..]);
      }
    }
  }
}
