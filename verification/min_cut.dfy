/**
 * Minimum cut (Lab2/task2.7/mincut.cc): run the maximum flow, then list in
 * increasing order the vertices still reachable from the source over
 * edges with spare capacity.
 */
module MinCut {
  import opened Common
  import opened FlowNetwork
  import opened EdmondsKarp

  /** The search's loop state: queued vertices are exactly the marked ones, all reachable. */
  ghost predicate Visiting(g: seq<seq<Edge>>, s: int, visited: seq<bool>, queue: seq<int>, head: int)
  {
    Paired(g) && 0 <= s < |g| && |visited| == |g| &&
    0 <= head <= |queue| && |queue| > 0 && queue[0] == s &&
    (forall i :: 0 <= i < |queue| ==> 0 <= queue[i] < |g|) &&
    (forall i, j :: 0 <= i < j < |queue| ==> queue[i] != queue[j]) &&
    (forall v :: 0 <= v < |g| ==> (visited[v] <==> v in queue)) &&
    (forall i :: 0 <= i < |queue| ==> Reachable(g, s, queue[i]))
  }

  lemma VisitBound(g: seq<seq<Edge>>, s: int, visited: seq<bool>, queue: seq<int>, head: int)
    requires Visiting(g, s, visited, queue, head)
    ensures |queue| <= |g|
  {
    DistinctCard(queue);
    SubsetOfRangeCard(set i | 0 <= i < |queue| :: queue[i], |g|);
  }

  /** Marking `w`, reached by edge `k` of the queued vertex `u`. */
  lemma Mark(g: seq<seq<Edge>>, s: int, visited: seq<bool>, queue: seq<int>, head: int, u: int, k: int)
    requires Visiting(g, s, visited, queue, head) && u in queue && 0 <= k < |g[u]|
    requires var w := g[u][k].to; 0 <= w < |g| && !visited[w] && Residual(g[u][k])
    ensures var w := g[u][k].to; Visiting(g, s, visited[w := true], queue + [w], head)
  {
    var w := g[u][k].to;
    var i :| 0 <= i < |queue| && queue[i] == u;
    assert Reachable(g, s, u);
    ReachableStep(g, s, u, w);
    var queue' := queue + [w];
    assert forall i :: 0 <= i < |queue| ==> queue'[i] == queue[i];
  }

  /**
   * The second `BFS` of the program: marks the source and then every
   * vertex reached over an edge with spare capacity, which is every vertex
   * reachable that way and no other.
   */
  method Visit(g: seq<seq<Edge>>, s: int) returns (visited: seq<bool>)
    requires Paired(g) && 0 <= s < |g|
    ensures |visited| == |g|
    ensures forall v :: 0 <= v < |g| ==> (visited[v] <==> Reachable(g, s, v))
  {
    visited := seq(|g|, _ => false)[s := true];
    var queue := [s];
    var head := 0;
    ReachableStart(g, s);
    while head < |queue|
      invariant Visiting(g, s, visited, queue, head)
      invariant Expanded(g, queue, head)
      decreases |g| - |queue|, |queue| - head
    {
      VisitBound(g, s, visited, queue, head);
      var u := queue[head];
      head := head + 1;
      var k := 0;
      ghost var before := |queue|;
      while k < |g[u]|
        invariant |queue| >= before
        invariant Visiting(g, s, visited, queue, head) && u == queue[head - 1]
        invariant Expanded(g, queue, head - 1)
        invariant 0 <= k <= |g[u]| && Scanned(g, u, k, queue)
      {
        var e := g[u][k];
        assert EdgeAt(g, u, k) && Mate(g, u, k);
        ghost var queue0 := queue;
        if !visited[e.to] && e.flow < e.capacity {
          Mark(g, s, visited, queue, head, u, k);
          visited := visited[e.to := true];
          queue := queue + [e.to];
        }
        ScanStep(g, u, k, queue0, queue, head - 1);
        k := k + 1;
      }
      ScanDone(g, queue, head);
      VisitBound(g, s, visited, queue, head);
    }
    forall v | 0 <= v < |g| && Reachable(g, s, v)
      ensures visited[v]
    {
      ClosedReach(g, queue, s, v);
    }
  }

  /** `vs` lists, in increasing order, the indices below `n` that `visited` marks. */
  ghost predicate ListsMarked(visited: seq<bool>, n: int, vs: seq<int>)
    requires 0 <= n <= |visited|
  {
    (forall i, j :: 0 <= i < j < |vs| ==> vs[i] < vs[j]) &&
    (forall i :: 0 <= i < |vs| ==> 0 <= vs[i] < n) &&
    forall v :: 0 <= v < n ==> (v in vs <==> visited[v])
  }

  /**
   * The program's `MinCut`.  Along with the list it returns the flow it
   * computed (a ghost result): the list is sorted and holds exactly the
   * vertices reachable from `s` over spare capacity in that flow, so it
   * holds `s` and, when `t` differs, not `t`, and every edge leaving it is
   * saturated.
   */
  method MinCut(g: seq<seq<Edge>>, s: int, t: int) returns (vertices: seq<int>, ghost fg: seq<seq<Edge>>)
    requires Feasible(g) && 0 <= s < |g| && 0 <= t < |g|
    ensures |fg| == |g| && Carries(g, fg, s, t, NetOut(fg, s) - NetOut(g, s))
    ensures forall i, j :: 0 <= i < j < |vertices| ==> vertices[i] < vertices[j]
    ensures forall v :: v in vertices <==> 0 <= v < |g| && Reachable(fg, s, v)
    ensures s in vertices && (s != t ==> t !in vertices)
    ensures forall u, k :: EdgeAt(fg, u, k) && u in vertices && fg[u][k].to !in vertices ==>
              fg[u][k].flow == fg[u][k].capacity
  {
    var value, flowGraph := MaxFlow(g, s, t);
    fg := flowGraph;
    var visited := Visit(flowGraph, s);
    vertices := [];
    var i := 0;
    while i < |g|
      invariant 0 <= i <= |g| && ListsMarked(visited, i, vertices)
    {
      if visited[i] {
        vertices := vertices + [i];
      }
      i := i + 1;
    }
    ReachableStart(fg, s);
    forall u, k | EdgeAt(fg, u, k) && u in vertices && fg[u][k].to !in vertices
      ensures fg[u][k].flow == fg[u][k].capacity
    {
      assert Mate(fg, u, k);
      if Residual(fg[u][k]) {
        ReachableStep(fg, s, u, fg[u][k].to);
      }
    }
  }
}
