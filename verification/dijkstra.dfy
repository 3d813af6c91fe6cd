/**
 * Dijkstra's single-source shortest paths with lazy deletion
 * (Lab2/task2.1/shortestpath1.cc).  The priority queue holds (distance,
 * vertex) entries; an entry whose distance is larger than the vertex's
 * current distance is stale and skipped, any other marks its vertex as found
 * and relaxes the vertex's edges towards vertices not yet found.
 */
module Dijkstra {
  import opened Graphs

  /** The source's `kInfinity`: the distance of a vertex not reached. */
  const Infinity: int := 100000000
  /** The source's `kInvalidNode`: the parent of a vertex not reached. */
  const InvalidNode: int := -1

  /** A queue entry `(d, v)`, ordered as `std::pair` orders them. */
  datatype Entry = Entry(d: int, v: int)

  predicate Below(a: Entry, b: Entry)
  {
    a.d < b.d || (a.d == b.d && a.v <= b.v)
  }

  /** The algorithm's arrays and its queue, as a list of entries. */
  datatype State = State(distance: seq<int>, parent: seq<int>, found: seq<bool>, heap: seq<Entry>)

  /** Vertices not yet found; the outer loop's first termination measure. */
  function Unfound(found: seq<bool>): nat
  {
    if |found| == 0 then 0 else Unfound(found[..|found| - 1]) + (if found[|found| - 1] then 0 else 1)
  }

  lemma {:induction false} UnfoundMark(found: seq<bool>, u: int)
    requires 0 <= u < |found| && !found[u]
    ensures Unfound(found[u := true]) == Unfound(found) - 1
    decreases |found|
  {
    var f := found[u := true];
    var n := |found|;
    if u < n - 1 {
      assert f[..n - 1] == found[..n - 1][u := true];
      UnfoundMark(found[..n - 1], u);
    } else {
      assert f[..n - 1] == found[..n - 1];
    }
  }

  // ---------------------------------------------------------------------
  // The invariant, piece by piece
  // ---------------------------------------------------------------------

  ghost predicate Shape(g: seq<seq<Edge>>, st: State, walks: seq<seq<Edge>>)
  {
    |st.distance| == |g| && |st.parent| == |g| && |st.found| == |g| && |walks| == |g|
  }

  /**
   * Distances lie in `0..Infinity`, the start is at 0, and every finite
   * distance is the weight of a walk (kept in `walks`) to its vertex.
   */
  ghost predicate Witnessed(g: seq<seq<Edge>>, start: int, st: State, walks: seq<seq<Edge>>)
    requires Shape(g, st, walks)
  {
    0 <= start < |g| && st.distance[start] == 0 &&
    (forall v :: 0 <= v < |g| ==> 0 <= st.distance[v] <= Infinity) &&
    (forall v :: 0 <= v < |g| && st.distance[v] < Infinity ==>
       WalkTo(g, start, walks[v], v) && Weight(walks[v]) == st.distance[v])
  }

  /** A found vertex has its final, shortest distance. */
  ghost predicate Settled(g: seq<seq<Edge>>, start: int, st: State)
    requires |st.distance| == |g| && |st.found| == |g|
  {
    forall v :: 0 <= v < |g| && st.found[v] ==> st.distance[v] < Infinity && NoShorter(g, start, v, st.distance[v])
  }

  /** The edges of found vertices are relaxed, except those of `u` from index `j` on. */
  ghost predicate RelaxedExcept(g: seq<seq<Edge>>, st: State, u: int, j: int)
    requires |st.distance| == |g| && |st.found| == |g| && Targets(g)
  {
    forall x, k :: 0 <= x < |g| && st.found[x] && 0 <= k < |g[x]| && (x != u || k < j) ==>
      st.distance[g[x][k].to] <= st.distance[x] + g[x][k].weight
  }

  /**
   * Every reached vertex not yet found has its current distance queued; each
   * entry is for a vertex, is finite and never below the vertex's distance,
   * and is above it once the vertex is found; no entry is queued twice.
   */
  ghost predicate Queued(g: seq<seq<Edge>>, st: State)
    requires |st.distance| == |g| && |st.found| == |g|
  {
    (forall y :: 0 <= y < |g| && !st.found[y] && st.distance[y] < Infinity ==> Entry(st.distance[y], y) in st.heap) &&
    (forall k :: 0 <= k < |st.heap| ==> EntryOk(g, st, st.heap[k])) &&
    (forall a, b :: 0 <= a < b < |st.heap| ==> st.heap[a] != st.heap[b])
  }

  ghost predicate EntryOk(g: seq<seq<Edge>>, st: State, e: Entry)
    requires |st.distance| == |g| && |st.found| == |g|
  {
    0 <= e.v < |g| && st.distance[e.v] <= e.d < Infinity && (st.found[e.v] ==> e.d > st.distance[e.v])
  }

  /** `parent[v]` is a found vertex with an edge to `v` that accounts for `v`'s distance. */
  ghost predicate ParentEdge(g: seq<seq<Edge>>, st: State, v: int)
    requires |st.distance| == |g| && |st.found| == |g| && |st.parent| == |g| && 0 <= v < |g|
  {
    var p := st.parent[v];
    0 <= p < |g| && st.found[p] &&
    exists k :: 0 <= k < |g[p]| && g[p][k].to == v && st.distance[v] == st.distance[p] + g[p][k].weight
  }

  /**
   * The start is its own parent, a vertex has no parent exactly when it is
   * unreached, and every other reached vertex's parent edge explains its distance.
   */
  ghost predicate Parents(g: seq<seq<Edge>>, start: int, st: State)
    requires |st.distance| == |g| && |st.found| == |g| && |st.parent| == |g| && 0 <= start < |g|
  {
    st.parent[start] == start &&
    (forall v :: 0 <= v < |g| ==> (st.parent[v] == InvalidNode <==> st.distance[v] == Infinity)) &&
    (forall v :: 0 <= v < |g| && v != start && st.distance[v] < Infinity ==> ParentEdge(g, st, v))
  }

  ghost predicate Inv(g: seq<seq<Edge>>, start: int, st: State, walks: seq<seq<Edge>>, u: int, j: int)
  {
    Targets(g) && NonNegative(g) && Shape(g, st, walks) && Witnessed(g, start, st, walks) &&
    Settled(g, start, st) && RelaxedExcept(g, st, u, j) && Queued(g, st) && Parents(g, start, st)
  }

  // ---------------------------------------------------------------------
  // Steps
  // ---------------------------------------------------------------------

  /** The initial state: only the start is reached, and it is queued at 0. */
  function Initial(n: int, start: int): (st: State)
    requires 0 <= start < n
    ensures |st.distance| == n && |st.parent| == n && |st.found| == n
    ensures st.distance[start] == 0 && st.parent[start] == start
    ensures forall v :: 0 <= v < n && v != start ==> st.distance[v] == Infinity && st.parent[v] == InvalidNode
  {
    State(seq(n, _ => Infinity)[start := 0], seq(n, _ => InvalidNode)[start := start],
          seq(n, _ => false), [Entry(0, start)])
  }

  lemma InitialInv(g: seq<seq<Edge>>, start: int)
    requires Targets(g) && NonNegative(g) && 0 <= start < |g|
    ensures Inv(g, start, Initial(|g|, start), seq(|g|, _ => []), -1, 0)
  {
    var st := Initial(|g|, start);
    var walks: seq<seq<Edge>> := seq(|g|, _ => []);
    assert WalkTo(g, start, walks[start], start);
  }

  /** Removes the entry at index `m` of the queue. */
  function Remove(heap: seq<Entry>, m: int): (r: seq<Entry>)
    requires 0 <= m < |heap|
    ensures |r| == |heap| - 1
    ensures forall k :: 0 <= k < |r| ==> r[k] == heap[if k < m then k else k + 1]
    ensures forall k :: 0 <= k < |heap| && k != m ==> heap[k] in r
  {
    var r := heap[..m] + heap[m + 1..];
    assert forall k :: 0 <= k < |heap| && k != m ==> heap[k] == r[if k < m then k else k - 1];
    r
  }

  /** The index of a smallest entry: the top of the source's min-heap. */
  method FindMin(heap: seq<Entry>) returns (m: int)
    requires |heap| > 0
    ensures 0 <= m < |heap| && forall k :: 0 <= k < |heap| ==> Below(heap[m], heap[k])
  {
    m := 0;
    var k := 1;
    while k < |heap|
      invariant 1 <= k <= |heap| && 0 <= m < k
      invariant forall i :: 0 <= i < k ==> Below(heap[m], heap[i])
    {
      if !Below(heap[m], heap[k]) {
        m := k;
      }
      k := k + 1;
    }
  }

  /** Dropping a stale entry keeps the queue's invariant. */
  lemma QueuedStale(g: seq<seq<Edge>>, st: State, m: int)
    requires |st.distance| == |g| && |st.found| == |g| && Queued(g, st) && 0 <= m < |st.heap|
    requires st.heap[m].d > st.distance[st.heap[m].v]
    ensures Queued(g, st.(heap := Remove(st.heap, m)))
  {
    var r := st.(heap := Remove(st.heap, m));
    StaleCovers(g, st, m, r);
    StaleEntries(g, st, m, r);
    RemoveDistinct(st.heap, m, r.heap);
  }

  /** Dropping a stale entry leaves every unfound, reached vertex queued. */
  lemma StaleCovers(g: seq<seq<Edge>>, st: State, m: int, r: State)
    requires |st.distance| == |g| && |st.found| == |g| && Queued(g, st) && 0 <= m < |st.heap|
    requires st.heap[m].d > st.distance[st.heap[m].v] && r == st.(heap := Remove(st.heap, m))
    ensures forall y :: 0 <= y < |g| && !r.found[y] && r.distance[y] < Infinity ==> Entry(r.distance[y], y) in r.heap
  {
    forall y | 0 <= y < |g| && !r.found[y] && r.distance[y] < Infinity
      ensures Entry(r.distance[y], y) in r.heap
    {
      var k :| 0 <= k < |st.heap| && st.heap[k] == Entry(st.distance[y], y);
    }
  }

  /** Dropping a stale entry keeps every remaining entry valid. */
  lemma StaleEntries(g: seq<seq<Edge>>, st: State, m: int, r: State)
    requires |st.distance| == |g| && |st.found| == |g| && Queued(g, st) && 0 <= m < |st.heap|
    requires r == st.(heap := Remove(st.heap, m))
    ensures forall k :: 0 <= k < |r.heap| ==> EntryOk(g, r, r.heap[k])
  {
    forall k | 0 <= k < |r.heap|
      ensures EntryOk(g, r, r.heap[k])
    {
      assert EntryOk(g, st, st.heap[if k < m then k else k + 1]);
    }
  }

  /** Removing one entry keeps the entries distinct. */
  lemma RemoveDistinct(heap: seq<Entry>, m: int, r: seq<Entry>)
    requires 0 <= m < |heap| && r == Remove(heap, m)
    requires forall a, b :: 0 <= a < b < |heap| ==> heap[a] != heap[b]
    ensures forall a, b :: 0 <= a < b < |r| ==> r[a] != r[b]
  {
    forall a, b | 0 <= a < b < |r|
      ensures r[a] != r[b]
    {
      var a', b' := if a < m then a else a + 1, if b < m then b else b + 1;
      assert heap[a'] != heap[b'];
    }
  }

  lemma PopStale(g: seq<seq<Edge>>, start: int, st: State, walks: seq<seq<Edge>>, m: int)
    requires Inv(g, start, st, walks, -1, 0) && 0 <= m < |st.heap|
    requires st.heap[m].d > st.distance[st.heap[m].v]
    ensures Inv(g, start, st.(heap := Remove(st.heap, m)), walks, -1, 0)
  {
    QueuedStale(g, st, m);
    var r := st.(heap := Remove(st.heap, m));
    assert Parents(g, start, r) by {
      forall v | 0 <= v < |g| && v != start && r.distance[v] < Infinity
        ensures ParentEdge(g, r, v)
      {
        assert ParentEdge(g, st, v);
      }
    }
  }

  /**
   * A smallest entry that is not stale gives the shortest distance of its
   * vertex: any walk there leaves the found vertices along a relaxed edge
   * to a queued vertex, whose entry is no smaller.
   */
  lemma PopOptimal(g: seq<seq<Edge>>, start: int, st: State, m: int)
    requires Targets(g) && NonNegative(g) && |st.distance| == |g| && |st.found| == |g|
    requires 0 <= start < |g| && st.distance[start] == 0
    requires Settled(g, start, st) && RelaxedExcept(g, st, -1, 0) && Queued(g, st)
    requires 0 <= m < |st.heap| && forall k :: 0 <= k < |st.heap| ==> Below(st.heap[m], st.heap[k])
    requires st.heap[m].d <= st.distance[st.heap[m].v]
    ensures NoShorter(g, start, st.heap[m].v, st.heap[m].d)
  {
    var e := st.heap[m];
    assert EntryOk(g, st, e);
    assert !st.found[e.v];
    forall p | WalkTo(g, start, p, e.v)
      ensures e.d <= Weight(p)
    {
      WeightNonNegative(g, start, p);
      if !st.found[start] {
        var k :| 0 <= k < |st.heap| && st.heap[k] == Entry(0, start);
        assert Below(e, st.heap[k]);
      } else {
        var q, x, j := Crossing(g, start, p, st.found);
        var y := g[x][j].to;
        assert st.distance[x] <= Weight(q);
        assert st.distance[y] <= st.distance[x] + g[x][j].weight;
        if st.distance[y] < Infinity {
          var k :| 0 <= k < |st.heap| && st.heap[k] == Entry(st.distance[y], y);
          assert Below(e, st.heap[k]);
        }
      }
    }
  }

  /** Taking a fresh smallest entry off the queue and marking its vertex found. */
  function Settle(st: State, m: int): (r: State)
    requires 0 <= m < |st.heap| && 0 <= st.heap[m].v < |st.found|
    ensures r.distance == st.distance && r.parent == st.parent && r.heap == Remove(st.heap, m)
    ensures r.found == st.found[st.heap[m].v := true]
  {
    st.(found := st.found[st.heap[m].v := true], heap := Remove(st.heap, m))
  }

  /** Removing the vertex's only entry at its distance as it is found keeps the queue's invariant. */
  lemma QueuedFresh(g: seq<seq<Edge>>, st: State, m: int)
    requires |st.distance| == |g| && |st.found| == |g| && Queued(g, st) && 0 <= m < |st.heap|
    requires st.heap[m].d <= st.distance[st.heap[m].v]
    ensures 0 <= st.heap[m].v < |g| && !st.found[st.heap[m].v] && st.heap[m].d == st.distance[st.heap[m].v]
    ensures Queued(g, Settle(st, m))
  {
    assert EntryOk(g, st, st.heap[m]);
    var r := Settle(st, m);
    SettleCovers(g, st, m, r);
    SettleEntries(g, st, m, r);
    RemoveDistinct(st.heap, m, r.heap);
  }

  /** Settling a fresh entry leaves every other unfound, reached vertex queued. */
  lemma SettleCovers(g: seq<seq<Edge>>, st: State, m: int, r: State)
    requires |st.distance| == |g| && |st.found| == |g| && Queued(g, st) && 0 <= m < |st.heap|
    requires 0 <= st.heap[m].v < |g| && st.heap[m].d == st.distance[st.heap[m].v] && r == Settle(st, m)
    ensures forall y :: 0 <= y < |g| && !r.found[y] && r.distance[y] < Infinity ==> Entry(r.distance[y], y) in r.heap
  {
    forall y | 0 <= y < |g| && !r.found[y] && r.distance[y] < Infinity
      ensures Entry(r.distance[y], y) in r.heap
    {
      var k :| 0 <= k < |st.heap| && st.heap[k] == Entry(st.distance[y], y);
    }
  }

  /** Settling a fresh entry keeps every remaining entry valid. */
  lemma SettleEntries(g: seq<seq<Edge>>, st: State, m: int, r: State)
    requires |st.distance| == |g| && |st.found| == |g| && Queued(g, st) && 0 <= m < |st.heap|
    requires 0 <= st.heap[m].v < |g| && st.heap[m].d == st.distance[st.heap[m].v] && r == Settle(st, m)
    ensures forall k :: 0 <= k < |r.heap| ==> EntryOk(g, r, r.heap[k])
  {
    forall k | 0 <= k < |r.heap|
      ensures EntryOk(g, r, r.heap[k])
    {
      var k' := if k < m then k else k + 1;
      assert EntryOk(g, st, st.heap[k']) && st.heap[k'] != st.heap[m];
    }
  }

  /** Parents stay valid while vertices are only added to the found ones. */
  lemma ParentsGrow(g: seq<seq<Edge>>, start: int, st: State, r: State)
    requires |st.distance| == |g| && |st.found| == |g| && |st.parent| == |g| && 0 <= start < |g|
    requires Parents(g, start, st)
    requires r.distance == st.distance && r.parent == st.parent && |r.found| == |g|
    requires forall v :: 0 <= v < |g| && st.found[v] ==> r.found[v]
    ensures Parents(g, start, r)
  {
    forall v | 0 <= v < |g| && v != start && r.distance[v] < Infinity
      ensures ParentEdge(g, r, v)
    {
      assert ParentEdge(g, st, v);
    }
  }

  lemma PopFresh(g: seq<seq<Edge>>, start: int, st: State, walks: seq<seq<Edge>>, m: int)
    requires Inv(g, start, st, walks, -1, 0) && 0 <= m < |st.heap|
    requires forall k :: 0 <= k < |st.heap| ==> Below(st.heap[m], st.heap[k])
    requires st.heap[m].d <= st.distance[st.heap[m].v]
    ensures 0 <= st.heap[m].v < |g| && !st.found[st.heap[m].v]
    ensures Inv(g, start, Settle(st, m), walks, st.heap[m].v, 0)
  {
    QueuedFresh(g, st, m);
    PopOptimal(g, start, st, m);
    ParentsGrow(g, start, st, Settle(st, m));
  }

  /**
   * Relaxing edge `j` of the found vertex `u`: a vertex not yet found gets a
   * shorter distance through `u`, `u` as its parent and a new queue entry.
   */
  function Relax(g: seq<seq<Edge>>, st: State, u: int, j: int): (r: State)
    requires Targets(g) && |st.distance| == |g| && |st.parent| == |g| && |st.found| == |g|
    requires 0 <= u < |g| && 0 <= j < |g[u]|
    ensures |r.distance| == |g| && |r.parent| == |g| && r.found == st.found
    ensures forall v :: 0 <= v < |g| ==> r.distance[v] <= st.distance[v]
    ensures !st.found[g[u][j].to] ==> r.distance[g[u][j].to] <= st.distance[u] + g[u][j].weight
    ensures forall v :: 0 <= v < |g| && v != g[u][j].to ==> r.distance[v] == st.distance[v] && r.parent[v] == st.parent[v]
    ensures r.heap == st.heap || (r.heap == st.heap + [Entry(r.distance[g[u][j].to], g[u][j].to)] && r.parent[g[u][j].to] == u)
  {
    var e := g[u][j];
    var nd := st.distance[u] + e.weight;
    if !st.found[e.to] && st.distance[e.to] > nd then
      st.(distance := st.distance[e.to := nd], parent := st.parent[e.to := u], heap := st.heap + [Entry(nd, e.to)])
    else
      st
  }

  /** The walk to the relaxed vertex: the walk to `u` and the edge. */
  function RelaxWalks(g: seq<seq<Edge>>, st: State, walks: seq<seq<Edge>>, u: int, j: int): seq<seq<Edge>>
    requires Targets(g) && |st.distance| == |g| && |st.found| == |g| && |walks| == |g|
    requires 0 <= u < |g| && 0 <= j < |g[u]|
  {
    var e := g[u][j];
    if !st.found[e.to] && st.distance[e.to] > st.distance[u] + e.weight then walks[e.to := walks[u] + [e]] else walks
  }

  /** The conditions under which `Relax` changes anything. */
  predicate Improves(g: seq<seq<Edge>>, st: State, u: int, j: int)
    requires Targets(g) && |st.distance| == |g| && |st.found| == |g| && 0 <= u < |g| && 0 <= j < |g[u]|
  {
    !st.found[g[u][j].to] && st.distance[g[u][j].to] > st.distance[u] + g[u][j].weight
  }

  lemma RelaxQueued(g: seq<seq<Edge>>, st: State, u: int, j: int)
    requires Targets(g) && |st.distance| == |g| && |st.parent| == |g| && |st.found| == |g|
    requires 0 <= u < |g| && 0 <= j < |g[u]| && Queued(g, st) && Improves(g, st, u, j)
    requires st.distance[g[u][j].to] <= Infinity
    ensures Queued(g, Relax(g, st, u, j))
  {
    var v := g[u][j].to;
    var r := Relax(g, st, u, j);
    forall y | 0 <= y < |g| && !r.found[y] && r.distance[y] < Infinity
      ensures Entry(r.distance[y], y) in r.heap
    {
      if y != v {
        assert Entry(st.distance[y], y) in st.heap;
      }
    }
    forall k | 0 <= k < |r.heap|
      ensures EntryOk(g, r, r.heap[k])
    {
      if k < |st.heap| {
        assert EntryOk(g, st, st.heap[k]);
      }
    }
    forall a, b | 0 <= a < b < |r.heap|
      ensures r.heap[a] != r.heap[b]
    {
      if b == |st.heap| {
        assert EntryOk(g, st, st.heap[a]);
      }
    }
  }

  lemma RelaxParents(g: seq<seq<Edge>>, start: int, st: State, u: int, j: int)
    requires Targets(g) && |st.distance| == |g| && |st.parent| == |g| && |st.found| == |g|
    requires 0 <= start < |g| && st.distance[start] == 0 && Parents(g, start, st)
    requires 0 <= u < |g| && st.found[u] && 0 <= j < |g[u]| && Improves(g, st, u, j)
    requires 0 <= st.distance[u] + g[u][j].weight && st.distance[g[u][j].to] <= Infinity
    ensures Parents(g, start, Relax(g, st, u, j))
  {
    var v := g[u][j].to;
    var r := Relax(g, st, u, j);
    assert v != start && v != u;
    forall x | 0 <= x < |g| && x != start && r.distance[x] < Infinity
      ensures ParentEdge(g, r, x)
    {
      if x != v {
        assert ParentEdge(g, st, x);
        var p := st.parent[x];
        var k :| 0 <= k < |g[p]| && g[p][k].to == x && st.distance[x] == st.distance[p] + g[p][k].weight;
        assert p != v;
        assert g[p][k].to == x && r.distance[x] == r.distance[p] + g[p][k].weight;
      } else {
        assert g[u][j].to == x && r.distance[x] == r.distance[u] + g[u][j].weight;
      }
    }
  }

  lemma RelaxWitnessed(g: seq<seq<Edge>>, start: int, st: State, walks: seq<seq<Edge>>, u: int, j: int)
    requires Targets(g) && NonNegative(g) && Shape(g, st, walks) && Witnessed(g, start, st, walks)
    requires 0 <= u < |g| && st.distance[u] < Infinity && 0 <= j < |g[u]|
    ensures Shape(g, Relax(g, st, u, j), RelaxWalks(g, st, walks, u, j))
    ensures Witnessed(g, start, Relax(g, st, u, j), RelaxWalks(g, st, walks, u, j))
  {
    WalkAppend(g, start, walks[u], g[u][j]);
    WeightNonNegative(g, start, walks[u]);
  }

  lemma RelaxSettled(g: seq<seq<Edge>>, start: int, st: State, u: int, j: int)
    requires Targets(g) && |st.distance| == |g| && |st.parent| == |g| && |st.found| == |g|
    requires Settled(g, start, st) && 0 <= u < |g| && 0 <= j < |g[u]|
    ensures Settled(g, start, Relax(g, st, u, j))
  {
  }

  lemma RelaxRelaxed(g: seq<seq<Edge>>, start: int, st: State, walks: seq<seq<Edge>>, u: int, j: int)
    requires Targets(g) && NonNegative(g) && Shape(g, st, walks) && Witnessed(g, start, st, walks)
    requires Settled(g, start, st) && RelaxedExcept(g, st, u, j)
    requires 0 <= u < |g| && st.found[u] && 0 <= j < |g[u]|
    ensures RelaxedExcept(g, Relax(g, st, u, j), u, j + 1)
  {
    var e := g[u][j];
    if !Improves(g, st, u, j) && st.found[e.to] {
      WalkAppend(g, start, walks[u], e);
      assert NoShorter(g, start, e.to, st.distance[e.to]);
    }
  }

  lemma RelaxInv(g: seq<seq<Edge>>, start: int, st: State, walks: seq<seq<Edge>>, u: int, j: int)
    requires Inv(g, start, st, walks, u, j) && 0 <= u < |g| && st.found[u] && 0 <= j < |g[u]|
    ensures Inv(g, start, Relax(g, st, u, j), RelaxWalks(g, st, walks, u, j), u, j + 1)
  {
    RelaxWitnessed(g, start, st, walks, u, j);
    RelaxSettled(g, start, st, u, j);
    RelaxRelaxed(g, start, st, walks, u, j);
    if Improves(g, st, u, j) {
      WeightNonNegative(g, start, walks[u]);
      RelaxQueued(g, st, u, j);
      RelaxParents(g, start, st, u, j);
    }
  }

  /** The inner loop: relaxes every edge of the found vertex `u`. */
  method RelaxEdges(g: seq<seq<Edge>>, start: int, st: State, ghost walks: seq<seq<Edge>>, u: int)
    returns (r: State, ghost w: seq<seq<Edge>>)
    requires Inv(g, start, st, walks, u, 0) && 0 <= u < |g| && st.found[u]
    ensures Inv(g, start, r, w, -1, 0) && r.found == st.found
    ensures forall v :: 0 <= v < |g| ==> r.distance[v] <= st.distance[v]
  {
    r, w := st, walks;
    var j := 0;
    while j < |g[u]|
      invariant 0 <= j <= |g[u]| && Inv(g, start, r, w, u, j) && r.found == st.found
      invariant forall v :: 0 <= v < |g| ==> r.distance[v] <= st.distance[v]
    {
      RelaxInv(g, start, r, w, u, j);
      w := RelaxWalks(g, r, w, u, j);
      r := Relax(g, r, u, j);
      j := j + 1;
    }
  }

  /** With the queue empty, every vertex has its shortest distance or is unreachable. */
  lemma FinalOptimal(g: seq<seq<Edge>>, start: int, st: State, walks: seq<seq<Edge>>, v: int)
    requires Inv(g, start, st, walks, -1, 0) && |st.heap| == 0 && 0 <= v < |g|
    ensures NoShorter(g, start, v, st.distance[v])
  {
    if !st.found[v] {
      assert st.distance[v] == Infinity;
      assert st.found[start];
      forall p | WalkTo(g, start, p, v)
        ensures st.distance[v] <= Weight(p)
      {
        var q, x, j := Crossing(g, start, p, st.found);
        var y := g[x][j].to;
        assert st.distance[x] <= Weight(q);
        assert st.distance[y] <= st.distance[x] + g[x][j].weight;
      }
    }
  }

  /**
   * Shortest distances from `start` and the parent of each vertex on a
   * shortest-path tree, for non-negative edge weights.  Every walk to `v`
   * weighs at least `distance[v]`; a finite `distance[v]` is the weight of
   * some walk, and for `v != start` it is the parent's distance plus the
   * weight of an edge from the parent to `v`.  A vertex not reached keeps
   * `Infinity` and `InvalidNode`.
   */
  method ShortestPath(g: seq<seq<Edge>>, start: int) returns (distance: seq<int>, parent: seq<int>)
    requires Targets(g) && NonNegative(g) && 0 <= start < |g|
    ensures |distance| == |g| && |parent| == |g|
    ensures distance[start] == 0 && parent[start] == start
    ensures forall v :: 0 <= v < |g| ==> NoShorter(g, start, v, distance[v])
    ensures forall v :: 0 <= v < |g| && distance[v] < Infinity ==> Reaches(g, start, v, distance[v])
    ensures forall v :: 0 <= v < |g| ==> (distance[v] == Infinity <==> parent[v] == InvalidNode)
    ensures forall v :: 0 <= v < |g| ==> distance[v] <= Infinity
    ensures forall v :: 0 <= v < |g| && v != start && distance[v] < Infinity ==>
              0 <= parent[v] < |g| &&
              exists k :: 0 <= k < |g[parent[v]]| && g[parent[v]][k].to == v &&
                          distance[v] == distance[parent[v]] + g[parent[v]][k].weight
  {
    var st := Initial(|g|, start);
    ghost var walks: seq<seq<Edge>> := seq(|g|, _ => []);
    InitialInv(g, start);
    while |st.heap| > 0
      invariant Inv(g, start, st, walks, -1, 0)
      decreases Unfound(st.found), |st.heap|
    {
      var m := FindMin(st.heap);
      var top := st.heap[m];
      if top.d > st.distance[top.v] {
        PopStale(g, start, st, walks, m);
        st := st.(heap := Remove(st.heap, m));
      } else {
        PopFresh(g, start, st, walks, m);
        UnfoundMark(st.found, top.v);
        st := Settle(st, m);
        st, walks := RelaxEdges(g, start, st, walks, top.v);
      }
    }
    forall v | 0 <= v < |g|
      ensures NoShorter(g, start, v, st.distance[v])
    {
      FinalOptimal(g, start, st, walks, v);
    }
    forall v | 0 <= v < |g| && st.distance[v] < Infinity
      ensures Reaches(g, start, v, st.distance[v])
    {
      assert WalkTo(g, start, walks[v], v) && Weight(walks[v]) == st.distance[v];
    }
    forall v | 0 <= v < |g| && v != start && st.distance[v] < Infinity
      ensures ParentEdge(g, st, v)
    {
    }
    distance, parent := st.distance, st.parent;
  }
}
