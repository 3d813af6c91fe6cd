/**
 * Kruskal's minimum spanning tree (Lab2/task2.5/minspantree.cc): all edges
 * sorted by weight, each taken when its endpoints are still in different
 * sets of a union-find structure.  A graph that does not end up in a single
 * set reports the cost `-kInfinity`.
 */
module Kruskal {
  import opened Graphs
  import opened DisjointSets

  /** The source's `kInfinity`; its negation marks a graph without a spanning tree. */
  const Infinity: int := 10000000001

  predicate SortedByWeight(s: seq<Edge>)
  {
    forall i, j :: 0 <= i < j < |s| ==> s[i].weight <= s[j].weight
  }

  function Insert(s: seq<Edge>, e: Edge): (r: seq<Edge>)
    requires SortedByWeight(s)
    ensures SortedByWeight(r) && multiset(r) == multiset(s) + multiset{e}
    ensures forall k :: 0 <= k < |r| ==> r[k] == e || r[k] in s
  {
    if |s| == 0 then [e]
    else if e.weight <= s[0].weight then [e] + s
    else
      assert s == [s[0]] + s[1..];
      var rest := Insert(s[1..], e);
      ConsSorted(s[0], rest);
      [s[0]] + rest
  }

  lemma ConsSorted(x: Edge, s: seq<Edge>)
    requires SortedByWeight(s) && forall k :: 0 <= k < |s| ==> x.weight <= s[k].weight
    ensures SortedByWeight([x] + s)
  {
    var r := [x] + s;
    forall i, j | 0 <= i < j < |r|
      ensures r[i].weight <= r[j].weight
    {
      assert r[j] == s[j - 1];
      if i > 0 {
        assert r[i] == s[i - 1];
      }
    }
  }

  /**
   * Orders the edges by weight.  The source's `std::sort` compares weights
   * only and may leave equal weights in any order; insertion sort yields one
   * of the orders it may produce.
   */
  function SortByWeight(s: seq<Edge>): (r: seq<Edge>)
    ensures SortedByWeight(r) && multiset(r) == multiset(s)
  {
    if |s| == 0 then []
    else
      assert s == s[..|s| - 1] + [s[|s| - 1]];
      Insert(SortByWeight(s[..|s| - 1]), s[|s| - 1])
  }

  /** There are vertices and every pair of them is connected. */
  ghost predicate AllConnected(edges: seq<Edge>, n: int)
  {
    n >= 1 && forall x, y :: 0 <= x < n && 0 <= y < n ==> Connected(edges, x, y)
  }

  /**
   * The loop's bookkeeping: the union-find sets are the components of the
   * chosen edges, which are the components of the edges examined so far.
   */
  ghost predicate Tracks(ds: DisjointSet, mst: seq<Edge>, examined: seq<Edge>, n: int)
  {
    Valid(ds) && |ds.parent| == n &&
    forall x, y :: 0 <= x < n && 0 <= y < n ==>
      (Same(ds, x, y) <==> Connected(mst, x, y)) && (Connected(mst, x, y) <==> Connected(examined, x, y))
  }

  lemma SliceStep<T>(s: seq<T>, i: int)
    requires 0 <= i < |s|
    ensures s[..i + 1] == s[..i] + [s[i]]
  {
  }

  /** No chosen edge joins two vertices the edges chosen before it already connect. */
  ghost predicate Acyclic(mst: seq<Edge>)
  {
    forall k :: 0 <= k < |mst| ==> !Connected(mst[..k], mst[k].from, mst[k].to)
  }

  lemma AcyclicAppend(mst: seq<Edge>, e: Edge)
    requires Acyclic(mst) && !Connected(mst, e.from, e.to)
    ensures Acyclic(mst + [e])
  {
    var m := mst + [e];
    assert m[..|mst|] == mst;
    forall k | 0 <= k < |mst|
      ensures m[..k] == mst[..k] && m[k] == mst[k]
    {
    }
  }

  /** Skipping an edge whose endpoints are in one set keeps the bookkeeping. */
  lemma SkipStep(ds: DisjointSet, mst: seq<Edge>, examined: seq<Edge>, n: int, e: Edge)
    requires Tracks(ds, mst, examined, n) && 0 <= e.from < n && 0 <= e.to < n
    requires Same(ds, e.from, e.to)
    ensures Tracks(ds, mst, examined + [e], n)
  {
    forall x, y | 0 <= x < n && 0 <= y < n
      ensures Connected(examined + [e], x, y) <==> Connected(examined, x, y)
    {
      ConnectedRedundant(examined, e, x, y);
    }
  }

  /** Taking an edge between two sets and merging them keeps the bookkeeping. */
  lemma TakeStep(ds: DisjointSet, mst: seq<Edge>, examined: seq<Edge>, n: int, e: Edge)
    requires Tracks(ds, mst, examined, n) && 0 <= e.from < n && 0 <= e.to < n
    ensures Tracks(Union(ds, e.from, e.to), mst + [e], examined + [e], n)
  {
    var a, b := e.from, e.to;
    forall x, y | 0 <= x < n && 0 <= y < n
      ensures Same(Union(ds, a, b), x, y) <==> Connected(mst + [e], x, y)
      ensures Connected(mst + [e], x, y) <==> Connected(examined + [e], x, y)
    {
      UnionSame(ds, a, b, x, y);
      ConnectedExtend(mst, e, x, y);
      ConnectedExtend(examined, e, x, y);
      ConnectedSymIff(mst, y, a);
      ConnectedSymIff(mst, y, b);
      ConnectedSymIff(examined, y, a);
      ConnectedSymIff(examined, y, b);
      assert Same(ds, x, a) <==> Connected(mst, x, a);
      assert Same(ds, x, b) <==> Connected(mst, x, b);
      assert Same(ds, y, a) <==> Connected(mst, y, a);
      assert Same(ds, y, b) <==> Connected(mst, y, b);
    }
  }

  /** The chosen edges come from the first `i` edges, in order, and weigh no more than the rest. */
  ghost predicate Chosen(edges: seq<Edge>, i: int, mst: seq<Edge>)
    requires 0 <= i <= |edges|
  {
    (forall k :: 0 <= k < |mst| ==> mst[k] in edges[..i]) &&
    SortedByWeight(mst) &&
    (forall k, j :: 0 <= k < |mst| && i <= j < |edges| ==> mst[k].weight <= edges[j].weight)
  }

  /** The selection loop's invariant after examining the first `i` edges. */
  ghost predicate Progress(edges: seq<Edge>, n: int, i: int, cost: int, mst: seq<Edge>, djs: DisjointSet)
  {
    0 <= i <= |edges| && Tracks(djs, mst, edges[..i], n) && |mst| + Count(djs) == n &&
    cost == Weight(mst) && Chosen(edges, i, mst) && Acyclic(mst)
  }

  lemma StartProgress(edges: seq<Edge>, n: int)
    requires n >= 0
    ensures Progress(edges, n, 0, 0, [], New(n))
  {
    CountNew(n);
    forall x, y | 0 <= x < n && 0 <= y < n
      ensures Same(New(n), x, y) <==> Connected([], x, y)
      ensures Connected([], x, y) <==> Connected(edges[..0], x, y)
    {
      NewSame(n, x, y);
      ConnectedEmpty(x, y);
    }
  }

  lemma TakeKeeps(edges: seq<Edge>, n: int, i: int, cost: int, mst: seq<Edge>, djs: DisjointSet)
    requires InRange(edges, n) && SortedByWeight(edges) && i < |edges|
    requires Progress(edges, n, i, cost, mst, djs)
    requires !Same(djs, edges[i].from, edges[i].to)
    ensures Progress(edges, n, i + 1, cost + edges[i].weight, mst + [edges[i]],
                     Union(djs, edges[i].from, edges[i].to))
  {
    var e := edges[i];
    SliceStep(edges, i);
    TakeStep(djs, mst, edges[..i], n, e);
    CountUnion(djs, e.from, e.to);
    AcyclicAppend(mst, e);
    var m := mst + [e];
    assert Weight(m) == Weight(mst) + e.weight by {
      assert m[..|m| - 1] == mst;
    }
    forall k | 0 <= k < |m|
      ensures m[k] in edges[..i + 1]
    {
      if k < |mst| {
        assert mst[k] in edges[..i];
      }
    }
  }

  lemma SkipKeeps(edges: seq<Edge>, n: int, i: int, cost: int, mst: seq<Edge>, djs: DisjointSet)
    requires InRange(edges, n) && SortedByWeight(edges) && i < |edges|
    requires Progress(edges, n, i, cost, mst, djs)
    requires Same(djs, edges[i].from, edges[i].to)
    ensures Progress(edges, n, i + 1, cost, mst, djs)
  {
    SliceStep(edges, i);
    SkipStep(djs, mst, edges[..i], n, edges[i]);
    forall k | 0 <= k < |mst|
      ensures mst[k] in edges[..i + 1]
    {
      assert mst[k] in edges[..i];
    }
  }

  /** One turn of the selection loop: take the edge when its endpoints are in different sets. */
  method Examine(edges: seq<Edge>, n: int, i: int, cost: int, mst: seq<Edge>, djs: DisjointSet)
    returns (cost': int, mst': seq<Edge>, djs': DisjointSet)
    requires InRange(edges, n) && SortedByWeight(edges) && i < |edges|
    requires Progress(edges, n, i, cost, mst, djs)
    ensures Progress(edges, n, i + 1, cost', mst', djs')
  {
    var e := edges[i];
    if !Same(djs, e.from, e.to) {
      TakeKeeps(edges, n, i, cost, mst, djs);
      cost', mst', djs' := cost + e.weight, mst + [e], Union(djs, e.from, e.to);
    } else {
      SkipKeeps(edges, n, i, cost, mst, djs);
      cost', mst', djs' := cost, mst, djs;
    }
  }

  /**
   * The selection loop over edges already sorted by weight: the chosen
   * edges, their total weight, and the union-find structure they built.
   */
  method Select(edges: seq<Edge>, n: int) returns (cost: int, mst: seq<Edge>, djs: DisjointSet)
    requires n >= 0 && InRange(edges, n) && SortedByWeight(edges)
    ensures Progress(edges, n, |edges|, cost, mst, djs)
  {
    cost, mst, djs := 0, [], New(n);
    StartProgress(edges, n);
    var i := 0;
    while i < |edges|
      invariant 0 <= i <= |edges|
      invariant Progress(edges, n, i, cost, mst, djs)
    {
      cost, mst, djs := Examine(edges, n, i, cost, mst, djs);
      i := i + 1;
    }
  }

  lemma EdgesFromGraph(g: seq<seq<Edge>>, edges: seq<Edge>, mst: seq<Edge>)
    requires multiset(edges) == multiset(Flatten(g))
    requires forall k :: 0 <= k < |mst| ==> mst[k] in edges
    ensures forall k :: 0 <= k < |mst| ==> mst[k] in Flatten(g)
  {
    forall k | 0 <= k < |mst|
      ensures mst[k] in Flatten(g)
    {
      assert mst[k] in multiset(edges);
    }
  }

  lemma TracksGraph(g: seq<seq<Edge>>, edges: seq<Edge>, mst: seq<Edge>, djs: DisjointSet)
    requires multiset(edges) == multiset(Flatten(g))
    requires Tracks(djs, mst, edges, |g|)
    ensures forall x, y :: 0 <= x < |g| && 0 <= y < |g| ==>
              (Same(djs, x, y) <==> Connected(Flatten(g), x, y)) &&
              (Connected(mst, x, y) <==> Connected(Flatten(g), x, y))
  {
    forall x, y | 0 <= x < |g| && 0 <= y < |g|
      ensures Connected(edges, x, y) <==> Connected(Flatten(g), x, y)
    {
      ConnectedSameEdges(edges, Flatten(g), x, y);
    }
  }

  /**
   * After all edges of a graph are examined, the chosen edges are graph
   * edges that connect exactly what the graph connects; one set is left
   * iff the graph is connected, and then there are `n - 1` chosen edges.
   */
  lemma Spans(g: seq<seq<Edge>>, edges: seq<Edge>, cost: int, mst: seq<Edge>, djs: DisjointSet)
    requires multiset(edges) == multiset(Flatten(g))
    requires Progress(edges, |g|, |edges|, cost, mst, djs)
    ensures forall k :: 0 <= k < |mst| ==> mst[k] in Flatten(g)
    ensures forall x, y :: 0 <= x < |g| && 0 <= y < |g| ==>
              (Connected(mst, x, y) <==> Connected(Flatten(g), x, y))
    ensures |g| >= 1 ==> |mst| <= |g| - 1
    ensures Count(djs) == 1 <==> AllConnected(Flatten(g), |g|)
    ensures Count(djs) == 1 ==> |mst| == |g| - 1
  {
    assert edges[..|edges|] == edges;
    EdgesFromGraph(g, edges, mst);
    TracksGraph(g, edges, mst, djs);
    CountIsRoots(djs);
    CountOne(djs);
  }

  /**
   * The cost and edges of a minimum spanning tree of the graph given by its
   * adjacency lists.  The chosen edges are graph edges in nondecreasing
   * weight order, none of them closes a cycle with the ones before, and they
   * connect exactly what the graph connects.  The cost is their total weight
   * when the graph is connected and `-Infinity` otherwise (also for the
   * empty graph, whose set count is 0).
   */
  method Mst(g: seq<seq<Edge>>) returns (cost: int, mst: seq<Edge>)
    requires InRange(Flatten(g), |g|)
    ensures forall k :: 0 <= k < |mst| ==> mst[k] in Flatten(g)
    ensures SortedByWeight(mst)
    ensures forall k :: 0 <= k < |mst| ==> !Connected(mst[..k], mst[k].from, mst[k].to)
    ensures forall x, y :: 0 <= x < |g| && 0 <= y < |g| ==>
              (Connected(mst, x, y) <==> Connected(Flatten(g), x, y))
    ensures |g| >= 1 ==> |mst| <= |g| - 1
    ensures AllConnected(Flatten(g), |g|) ==> |mst| == |g| - 1 && cost == Weight(mst)
    ensures !AllConnected(Flatten(g), |g|) ==> cost == -Infinity
  {
    var all := Flatten(g);
    var n := |g|;
    var edges := SortByWeight(all);
    assert InRange(edges, n) by {
      forall k | 0 <= k < |edges|
        ensures 0 <= edges[k].from < n && 0 <= edges[k].to < n
      {
        assert edges[k] in multiset(all);
      }
    }
    var djs;
    cost, mst, djs := Select(edges, n);
    Spans(g, edges, cost, mst, djs);
    if Count(djs) != 1 {
      cost := -Infinity;
    }
  }
}
