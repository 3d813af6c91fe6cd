/**
 * Minimum-cost maximum flow (Lab2/task2.8/mincostmaxflow.cc): augment
 * along cheapest paths of edges with spare capacity, found by a heap
 * search over costs adjusted by vertex potentials, until none is left.
 *
 * The heap search re-queues a vertex whenever its distance drops, so it
 * stays correct with the negative costs of reverse edges; the search is
 * given a budget of heap steps (`fuel`), since its running time is not
 * bounded here.
 */
module MinCostFlow {
  import opened Common
  import opened FlowNetwork
  import opened FlowCost
  import opened EdmondsKarp
  import CArith

  // ---------------------------------------------------------------------
  // The heap
  // ---------------------------------------------------------------------

  /** A heap entry: a tentative distance and its vertex. */
  datatype Entry = Entry(d: int, v: int)

  /** The heap's order, `std::greater` on pairs: smaller distance first, then smaller vertex. */
  predicate Before(a: Entry, b: Entry)
  {
    a.d < b.d || (a.d == b.d && a.v < b.v)
  }

  /** The position of the heap's top: no entry comes before it. */
  function Top(h: seq<Entry>): (i: int)
    requires |h| > 0
    ensures 0 <= i < |h| && forall j :: 0 <= j < |h| ==> !Before(h[j], h[i])
  {
    if |h| == 1 then 0
    else
      var i := Top(h[..|h| - 1]);
      assert forall j :: 0 <= j < |h| - 1 ==> h[..|h| - 1][j] == h[j];
      if Before(h[|h| - 1], h[i]) then |h| - 1 else i
  }

  // ---------------------------------------------------------------------
  // Distance labels
  // ---------------------------------------------------------------------

  /** Edge `k` of `u`'s cost adjusted by the potentials of its ends. */
  function Reduced(g: seq<seq<Edge>>, costs: seq<seq<int>>, pot: seq<int>, u: int, k: int): int
    requires Shaped(g, costs) && EdgeAt(g, u, k) && |pot| == |g| && 0 <= g[u][k].to < |g|
  {
    costs[u][k] + pot[u] - pot[g[u][k].to]
  }

  /** Every vertex with a finite distance can be reached from `s` along edges with spare capacity. */
  ghost predicate Rooted(g: seq<seq<Edge>>, s: int, distance: seq<int>)
  {
    |distance| == |g| && forall v {:trigger Reachable(g, s, v)} :: 0 <= v < |g| && distance[v] < Infinity ==> Reachable(g, s, v)
  }

  /**
   * What the search keeps true of its labels: distances never exceed
   * `Infinity` and the source's stays below it; only vertices reachable
   * from the source are finite; a vertex other than the source has a
   * finite distance only once it has a parent edge, which has spare
   * capacity and comes from a finite vertex whose distance plus the
   * edge's adjusted cost is at most its own.
   */
  ghost predicate Labelled(g: seq<seq<Edge>>, costs: seq<seq<int>>, pot: seq<int>, s: int,
                           distance: seq<int>, parent: seq<Parent>)
  {
    CostsFor(g, costs) && |pot| == |g| && |distance| == |g| && |parent| == |g| && 0 <= s < |g| &&
    distance[s] < Infinity && Rooted(g, s, distance) &&
    (forall v :: 0 <= v < |g| ==> distance[v] <= Infinity) &&
    (forall v :: 0 <= v < |g| && v != s && parent[v] == NoParent ==> distance[v] == Infinity) &&
    forall v :: 0 <= v < |g| && parent[v].Via? ==> LabelEdge(g, costs, pot, distance, parent, v)
  }

  ghost predicate LabelEdge(g: seq<seq<Edge>>, costs: seq<seq<int>>, pot: seq<int>,
                            distance: seq<int>, parent: seq<Parent>, v: int)
    requires CostsFor(g, costs) && |pot| == |g| && |distance| == |g| && |parent| == |g|
    requires 0 <= v < |g| && parent[v].Via?
  {
    var u, k := parent[v].u, parent[v].k;
    EdgeAt(g, u, k) && Mate(g, u, k) && g[u][k].to == v && Residual(g[u][k]) &&
    distance[u] < Infinity && distance[v] < Infinity &&
    distance[u] + Reduced(g, costs, pot, u, k) <= distance[v]
  }

  /** The potentials the program starts from: `Infinity` at every vertex. */
  function StartPotential(n: nat): (pot: seq<int>)
    ensures |pot| == n && forall v :: 0 <= v < n ==> pot[v] == Infinity
  {
    seq(n, _ => Infinity)
  }

  /** Edge `k` of `u` costs nothing negative once adjusted by `pot` and then by `phi`. */
  ghost predicate Fits(g: seq<seq<Edge>>, costs: seq<seq<int>>, pot: seq<int>, phi: seq<int>, u: int, k: int)
    requires CostsFor(g, costs) && |pot| == |g| && |phi| == |g| && EdgeAt(g, u, k)
  {
    Mate(g, u, k) && Reduced(g, costs, pot, u, k) + phi[u] - phi[g[u][k].to] >= 0
  }

  /**
   * `phi` certifies that no walk of spare capacity from `s` and no cycle
   * of spare capacity has negative adjusted cost: it is 0 at `s`, never
   * negative, and every edge with spare capacity fits it.
   */
  ghost predicate Certified(g: seq<seq<Edge>>, costs: seq<seq<int>>, pot: seq<int>, s: int, phi: seq<int>)
    requires CostsFor(g, costs) && |pot| == |g|
  {
    |phi| == |g| && 0 <= s < |g| && phi[s] == 0 && (forall v :: 0 <= v < |g| ==> phi[v] >= 0) &&
    forall u, k {:trigger Fits(g, costs, pot, phi, u, k)} :: EdgeAt(g, u, k) && Residual(g[u][k]) ==> Fits(g, costs, pot, phi, u, k)
  }

  /** Every finite distance is at least `phi`. */
  ghost predicate Above(phi: seq<int>, distance: seq<int>)
  {
    |phi| == |distance| && forall v {:trigger phi[v]} :: 0 <= v < |distance| && distance[v] < Infinity ==> phi[v] <= distance[v]
  }

  /** No edge with spare capacity out of `u` can lower its head's distance. */
  ghost predicate Settled(g: seq<seq<Edge>>, costs: seq<seq<int>>, pot: seq<int>, distance: seq<int>, u: int)
    requires CostsFor(g, costs) && |pot| == |g| && |distance| == |g| && 0 <= u < |g|
  {
    forall k :: 0 <= k < |g[u]| && Residual(g[u][k]) ==>
      Mate(g, u, k) && distance[g[u][k].to] <= distance[u] + Reduced(g, costs, pot, u, k)
  }

  /** A finite vertex is settled. */
  ghost predicate Calm(g: seq<seq<Edge>>, costs: seq<seq<int>>, pot: seq<int>, distance: seq<int>, u: int)
    requires CostsFor(g, costs) && |pot| == |g| && |distance| == |g| && 0 <= u < |g|
  {
    distance[u] < Infinity ==> Settled(g, costs, pot, distance, u)
  }

  /** Every finite vertex is settled: the labels can no longer be lowered. */
  ghost predicate Stable(g: seq<seq<Edge>>, costs: seq<seq<int>>, pot: seq<int>, distance: seq<int>)
    requires CostsFor(g, costs) && |pot| == |g| && |distance| == |g|
  {
    forall u :: 0 <= u < |g| ==> Calm(g, costs, pot, distance, u)
  }

  /** `w` is queued at its distance, or settled. */
  ghost predicate Pending(g: seq<seq<Edge>>, costs: seq<seq<int>>, pot: seq<int>, distance: seq<int>,
                          heap: seq<Entry>, w: int)
    requires CostsFor(g, costs) && |pot| == |g| && |distance| == |g| && 0 <= w < |g|
  {
    Entry(distance[w], w) in heap || Calm(g, costs, pot, distance, w)
  }

  /**
   * The heap holds finite entries no smaller than their vertices'
   * distances, and every vertex but `except` is pending.
   */
  ghost predicate Queued(g: seq<seq<Edge>>, costs: seq<seq<int>>, pot: seq<int>, distance: seq<int>,
                         heap: seq<Entry>, except: int)
    requires CostsFor(g, costs) && |pot| == |g| && |distance| == |g|
  {
    (forall i :: 0 <= i < |heap| ==> 0 <= heap[i].v < |g| && distance[heap[i].v] <= heap[i].d < Infinity) &&
    forall w :: 0 <= w < |g| && w != except ==> Pending(g, costs, pot, distance, heap, w)
  }

  /** Taking the top entry off the heap: only its own vertex may lose its queued entry. */
  lemma PopTop(g: seq<seq<Edge>>, costs: seq<seq<int>>, pot: seq<int>, distance: seq<int>, heap: seq<Entry>, i: int)
    requires CostsFor(g, costs) && |pot| == |g| && |distance| == |g| && 0 <= i < |heap|
    requires Queued(g, costs, pot, distance, heap, -1)
    ensures var rest := heap[..i] + heap[i + 1..];
            var d, u := heap[i].d, heap[i].v;
            distance[u] <= d < Infinity &&
            Queued(g, costs, pot, distance, rest, if d > distance[u] then -1 else u)
  {
    var rest := heap[..i] + heap[i + 1..];
    assert forall j :: 0 <= j < i ==> rest[j] == heap[j];
    assert forall j :: i < j < |heap| ==> rest[j - 1] == heap[j];
    forall x | x in heap && x != heap[i]
      ensures x in rest
    {
      var j :| 0 <= j < |heap| && heap[j] == x;
      if j < i { assert rest[j] == x; } else { assert rest[j - 1] == x; }
    }
    var d, u := heap[i].d, heap[i].v;
    forall w | 0 <= w < |g| && w != (if d > distance[u] then -1 else u)
      ensures Pending(g, costs, pot, distance, rest, w)
    {
      assert Pending(g, costs, pot, distance, heap, w);
    }
  }

  /** A lower finite distance for `w`, reached by edge `k` of the finite `u`, keeps the labels consistent. */
  lemma RelaxLabels(g: seq<seq<Edge>>, costs: seq<seq<int>>, pot: seq<int>, s: int,
                    distance: seq<int>, parent: seq<Parent>, u: int, d: int, k: int,
                    distance': seq<int>, parent': seq<Parent>)
    requires Labelled(g, costs, pot, s, distance, parent)
    requires 0 <= u < |g| && distance[u] <= d < Infinity && 0 <= k < |g[u]| && Residual(g[u][k]) && Mate(g, u, k)
    requires d + Reduced(g, costs, pot, u, k) < distance[g[u][k].to]
    requires distance' == distance[g[u][k].to := d + Reduced(g, costs, pot, u, k)]
    requires parent' == parent[g[u][k].to := Via(u, k)]
    ensures Labelled(g, costs, pot, s, distance', parent')
  {
    var w := g[u][k].to;
    forall v | 0 <= v < |g| && parent'[v].Via?
      ensures LabelEdge(g, costs, pot, distance', parent', v)
    {
      if v != w {
        assert LabelEdge(g, costs, pot, distance, parent, v);
      }
    }
    assert Rooted(g, s, distance) && Step(g, u, w);
    ReachableStep(g, s, u, w);
    forall v | 0 <= v < |g| && distance'[v] < Infinity
      ensures Reachable(g, s, v)
    {
      if v != w {
        assert distance[v] == distance'[v];
      }
    }
  }

  /** The same step keeps finite distances above a certifying potential. */
  lemma RelaxAbove(g: seq<seq<Edge>>, costs: seq<seq<int>>, pot: seq<int>, s: int, phi: seq<int>,
                   distance: seq<int>, u: int, d: int, k: int, distance': seq<int>)
    requires CostsFor(g, costs) && |pot| == |g| && |distance| == |g|
    requires Certified(g, costs, pot, s, phi) && Above(phi, distance)
    requires 0 <= u < |g| && distance[u] <= d < Infinity && 0 <= k < |g[u]| && Residual(g[u][k]) && Mate(g, u, k)
    requires distance' == distance[g[u][k].to := d + Reduced(g, costs, pot, u, k)]
    ensures Above(phi, distance')
  {
    assert Fits(g, costs, pot, phi, u, k);
  }

  /** The same step keeps every vertex but `u` pending, and `u` queued if its distance fell below `d`. */
  lemma RelaxQueued(g: seq<seq<Edge>>, costs: seq<seq<int>>, pot: seq<int>,
                    distance: seq<int>, heap: seq<Entry>, u: int, d: int, w: int, nd: int,
                    distance': seq<int>, heap': seq<Entry>)
    requires CostsFor(g, costs) && |pot| == |g| && |distance| == |g| && Queued(g, costs, pot, distance, heap, u)
    requires 0 <= u < |g| && distance[u] <= d && (distance[u] < d ==> Entry(distance[u], u) in heap)
    requires 0 <= w < |g| && nd < distance[w] && nd < Infinity
    requires distance' == distance[w := nd] && heap' == heap + [Entry(nd, w)]
    ensures Queued(g, costs, pot, distance', heap', u)
    ensures distance'[u] <= d && (distance'[u] < d ==> Entry(distance'[u], u) in heap')
  {
    assert forall j :: 0 <= j < |heap| ==> heap'[j] == heap[j];
    assert heap'[|heap|] == Entry(nd, w);
    forall j | 0 <= j < |heap'|
      ensures 0 <= heap'[j].v < |g| && distance'[heap'[j].v] <= heap'[j].d < Infinity
    {
      if j < |heap| {
        assert distance'[heap[j].v] <= distance[heap[j].v];
      }
    }
    forall x | 0 <= x < |g| && x != u
      ensures Pending(g, costs, pot, distance', heap', x)
    {
      assert Pending(g, costs, pot, distance, heap, x);
      if x == w {
        assert Entry(distance'[x], x) == heap'[|heap|];
      } else if Entry(distance[x], x) in heap {
        var j :| 0 <= j < |heap| && heap[j] == Entry(distance[x], x);
        assert heap'[j] == Entry(distance'[x], x);
      } else if distance[x] < Infinity {
        assert Settled(g, costs, pot, distance, x);
        forall j | 0 <= j < |g[x]| && Residual(g[x][j])
          ensures Mate(g, x, j) && distance'[g[x][j].to] <= distance'[x] + Reduced(g, costs, pot, x, j)
        {
        }
        assert Calm(g, costs, pot, distance', x);
      }
    }
    if distance'[u] < d {
      if u == w {
        assert Entry(distance'[u], u) == heap'[|heap|];
      } else {
        var j :| 0 <= j < |heap| && heap[j] == Entry(distance[u], u);
        assert heap'[j] == Entry(distance'[u], u);
      }
    }
  }

  /**
   * Relaxing edge `k` of `u`, popped at distance `d`: the head gets the
   * lower distance `d + Reduced`, the edge as parent and a heap entry,
   * and the search's invariants survive.
   */
  method Relax(g: seq<seq<Edge>>, costs: seq<seq<int>>, pot: seq<int>, s: int,
              distance: seq<int>, parent: seq<Parent>, heap: seq<Entry>, u: int, d: int, k: int, ghost phi: seq<int>)
    returns (distance': seq<int>, parent': seq<Parent>, heap': seq<Entry>)
    requires Labelled(g, costs, pot, s, distance, parent) && Queued(g, costs, pot, distance, heap, u)
    requires Certified(g, costs, pot, s, phi) ==> Above(phi, distance)
    requires 0 <= u < |g| && distance[u] <= d < Infinity && (distance[u] < d ==> Entry(distance[u], u) in heap)
    requires 0 <= k < |g[u]| && Residual(g[u][k])
    requires Mate(g, u, k) && d + Reduced(g, costs, pot, u, k) < distance[g[u][k].to]
    ensures distance' == distance[g[u][k].to := d + Reduced(g, costs, pot, u, k)]
    ensures parent' == parent[g[u][k].to := Via(u, k)]
    ensures heap' == heap + [Entry(d + Reduced(g, costs, pot, u, k), g[u][k].to)]
    ensures Labelled(g, costs, pot, s, distance', parent') && Queued(g, costs, pot, distance', heap', u)
    ensures distance'[u] <= d && (distance'[u] < d ==> Entry(distance'[u], u) in heap')
    ensures forall x :: 0 <= x < |g| ==> distance'[x] <= distance[x]
    ensures Certified(g, costs, pot, s, phi) ==> Above(phi, distance')
  {
    var w := g[u][k].to;
    var nd := d + Reduced(g, costs, pot, u, k);
    distance', parent', heap' := distance[w := nd], parent[w := Via(u, k)], heap + [Entry(nd, w)];
    RelaxLabels(g, costs, pot, s, distance, parent, u, d, k, distance', parent');
    RelaxQueued(g, costs, pot, distance, heap, u, d, w, nd, distance', heap');
    if Certified(g, costs, pot, s, phi) {
      RelaxAbove(g, costs, pot, s, phi, distance, u, d, k, distance');
    }
  }

  /** The first `k` edges of `u` with spare capacity cannot lower their heads below `d` plus their cost. */
  ghost predicate ScannedBy(g: seq<seq<Edge>>, costs: seq<seq<int>>, pot: seq<int>, distance: seq<int>,
                            u: int, d: int, k: int)
    requires CostsFor(g, costs) && |pot| == |g| && |distance| == |g| && 0 <= u < |g| && 0 <= k <= |g[u]|
  {
    forall j :: 0 <= j < k && Residual(g[u][j]) ==>
      Mate(g, u, j) && distance[g[u][j].to] <= d + Reduced(g, costs, pot, u, j)
  }

  lemma ScanNext(g: seq<seq<Edge>>, costs: seq<seq<int>>, pot: seq<int>, distance: seq<int>, distance': seq<int>,
                 u: int, d: int, k: int)
    requires CostsFor(g, costs) && |pot| == |g| && |distance| == |g| && |distance'| == |g|
    requires 0 <= u < |g| && 0 <= k < |g[u]| && ScannedBy(g, costs, pot, distance, u, d, k)
    requires forall x :: 0 <= x < |g| ==> distance'[x] <= distance[x]
    requires Mate(g, u, k) && (Residual(g[u][k]) ==> distance'[g[u][k].to] <= d + Reduced(g, costs, pot, u, k))
    ensures ScannedBy(g, costs, pot, distance', u, d, k + 1)
  {
    forall j | 0 <= j < k + 1 && Residual(g[u][j])
      ensures Mate(g, u, j) && distance'[g[u][j].to] <= d + Reduced(g, costs, pot, u, j)
    {
      if j < k {
        assert distance'[g[u][j].to] <= distance[g[u][j].to];
      }
    }
  }

  /** Once all of `u`'s edges are scanned, `u` is pending again. */
  lemma ScanDone(g: seq<seq<Edge>>, costs: seq<seq<int>>, pot: seq<int>, distance: seq<int>, heap: seq<Entry>, u: int, d: int)
    requires CostsFor(g, costs) && |pot| == |g| && |distance| == |g| && 0 <= u < |g|
    requires Queued(g, costs, pot, distance, heap, u) && ScannedBy(g, costs, pot, distance, u, d, |g[u]|)
    requires distance[u] <= d && (distance[u] < d ==> Entry(distance[u], u) in heap)
    ensures Queued(g, costs, pot, distance, heap, -1)
  {
    if distance[u] == d {
      assert Settled(g, costs, pot, distance, u);
    }
    assert Pending(g, costs, pot, distance, heap, u);
  }

  /** The least of two integers. */
  function Min(a: int, b: int): (r: int)
    ensures r <= a && r <= b && (r == a || r == b)
  {
    if a < b then a else b
  }

  /** The inner loop: relax, in order, every edge of spare capacity leaving `u`. */
  method ScanEdges(g: seq<seq<Edge>>, costs: seq<seq<int>>, pot: seq<int>, s: int,
                   distance0: seq<int>, parent0: seq<Parent>, heap0: seq<Entry>, u: int, d: int, ghost phi: seq<int>)
    returns (distance: seq<int>, parent: seq<Parent>, heap: seq<Entry>)
    requires CostsFor(g, costs) && |pot| == |g|
    requires Labelled(g, costs, pot, s, distance0, parent0) && distance0[s] <= 0
    requires Queued(g, costs, pot, distance0, heap0, u) && 0 <= u < |g|
    requires distance0[u] <= d < Infinity && (distance0[u] < d ==> Entry(distance0[u], u) in heap0)
    requires ScannedBy(g, costs, pot, distance0, u, d, 0)
    requires Certified(g, costs, pot, s, phi) ==> Above(phi, distance0)
    ensures Labelled(g, costs, pot, s, distance, parent) && distance[s] <= 0
    ensures Certified(g, costs, pot, s, phi) ==> Above(phi, distance)
    ensures Queued(g, costs, pot, distance, heap, u)
    ensures distance[u] <= d && (distance[u] < d ==> Entry(distance[u], u) in heap)
    ensures ScannedBy(g, costs, pot, distance, u, d, |g[u]|)
  {
    distance, parent, heap := distance0, parent0, heap0;
    var k := 0;
    while k < |g[u]|
      invariant Labelled(g, costs, pot, s, distance, parent) && distance[s] <= 0
      invariant Queued(g, costs, pot, distance, heap, u)
      invariant distance[u] <= d && (distance[u] < d ==> Entry(distance[u], u) in heap)
      invariant 0 <= k <= |g[u]| && ScannedBy(g, costs, pot, distance, u, d, k)
      invariant Certified(g, costs, pot, s, phi) ==> Above(phi, distance)
    {
      var e := g[u][k];
      assert EdgeAt(g, u, k) && Mate(g, u, k);
      var through := d + Reduced(g, costs, pot, u, k);
      ghost var before := distance;
      if e.flow < e.capacity && distance[e.to] > through {
        distance, parent, heap := Relax(g, costs, pot, s, distance, parent, heap, u, d, k, phi);
      }
      ScanNext(g, costs, pot, before, distance, u, d, k);
      k := k + 1;
    }
  }

  /** The search's start: only the source is finite, at 0, without a parent, and it alone is queued. */
  lemma SearchStart(g: seq<seq<Edge>>, costs: seq<seq<int>>, pot: seq<int>, s: int, phi: seq<int>,
                    distance: seq<int>, parent: seq<Parent>, heap: seq<Entry>)
    requires CostsFor(g, costs) && |pot| == |g| && 0 <= s < |g|
    requires parent == seq(|g|, _ => NoParent) && distance == seq(|g|, _ => Infinity)[s := 0] && heap == [Entry(0, s)]
    ensures Labelled(g, costs, pot, s, distance, parent) && distance[s] <= 0
    ensures Queued(g, costs, pot, distance, heap, -1)
    ensures Certified(g, costs, pot, s, phi) ==> Above(phi, distance)
  {
    ReachableStart(g, s);
    forall v | 0 <= v < |g| && distance[v] < Infinity
      ensures Reachable(g, s, v)
    {
      assert v == s;
    }
    assert Pending(g, costs, pot, distance, heap, s) by {
      assert heap[0] == Entry(distance[s], s);
    }
  }

  /** An empty heap leaves every vertex settled. */
  lemma Drained(g: seq<seq<Edge>>, costs: seq<seq<int>>, pot: seq<int>, distance: seq<int>)
    requires CostsFor(g, costs) && |pot| == |g| && |distance| == |g| && Queued(g, costs, pot, distance, [], -1)
    ensures Stable(g, costs, pot, distance)
  {
    forall u | 0 <= u < |g|
      ensures Calm(g, costs, pot, distance, u)
    {
      assert Pending(g, costs, pot, distance, [], u);
    }
  }

  /** The potentials raised by the distances, each capped at `Infinity`. */
  function Raised(pot: seq<int>, distance: seq<int>): (pot': seq<int>)
    requires |pot| == |distance|
    ensures |pot'| == |pot|
    ensures forall i :: 0 <= i < |pot| ==> pot'[i] == Min(pot[i] + distance[i], Infinity)
  {
    seq(|pot|, i requires 0 <= i < |pot| => Min(pot[i] + distance[i], Infinity))
  }

  /**
   * The program's `ShortestPath`, allowed `fuel` heap steps.  When the heap
   * empties in time (`finished`), every finite vertex is settled, the
   * target is found exactly when its distance is finite, and only then
   * are the potentials raised by the distances, capped at `Infinity`.
   */
  method ShortestPath(g: seq<seq<Edge>>, costs: seq<seq<int>>, s: int, t: int, pot: seq<int>, fuel: nat,
                      ghost phi: seq<int>)
    returns (finished: bool, found: bool, parent: seq<Parent>, distance: seq<int>, pot': seq<int>)
    requires CostsFor(g, costs) && |pot| == |g| && 0 <= s < |g| && 0 <= t < |g|
    ensures Labelled(g, costs, pot, s, distance, parent) && distance[s] <= 0
    ensures Certified(g, costs, pot, s, phi) ==> Above(phi, distance)
    ensures finished ==> Stable(g, costs, pot, distance)
    ensures found <==> finished && distance[t] != Infinity
    ensures |pot'| == |g|
    ensures found ==> forall i :: 0 <= i < |g| ==> pot'[i] == Min(pot[i] + distance[i], Infinity)
    ensures !found ==> pot' == pot
  {
    parent := seq(|g|, _ => NoParent);
    distance := seq(|g|, _ => Infinity)[s := 0];
    var heap := [Entry(0, s)];
    SearchStart(g, costs, pot, s, phi, distance, parent, heap);
    var steps := 0;
    while |heap| > 0 && steps < fuel
      invariant Labelled(g, costs, pot, s, distance, parent) && distance[s] <= 0
      invariant Queued(g, costs, pot, distance, heap, -1)
      invariant Certified(g, costs, pot, s, phi) ==> Above(phi, distance)
      decreases fuel - steps
    {
      steps := steps + 1;
      var i := Top(heap);
      var d, u := heap[i].d, heap[i].v;
      PopTop(g, costs, pot, distance, heap, i);
      heap := heap[..i] + heap[i + 1..];
      if d > distance[u] {
        continue;
      }
      distance, parent, heap := ScanEdges(g, costs, pot, s, distance, parent, heap, u, d, phi);
      ScanDone(g, costs, pot, distance, heap, u, d);
    }
    finished := |heap| == 0;
    if finished {
      Drained(g, costs, pot, distance);
    }
    if finished && distance[t] != Infinity {
      pot' := Raised(pot, distance);
      found := true;
    } else {
      pot' := pot;
      found := false;
    }
  }

  // ---------------------------------------------------------------------
  // Following the parent edges
  // ---------------------------------------------------------------------

  /** Every parent edge is an edge of `g` leading into its vertex. */
  predicate ParentsOn(g: seq<seq<Edge>>, parent: seq<Parent>)
  {
    |parent| == |g| &&
    forall v :: 0 <= v < |g| && parent[v].Via? ==> EdgeAt(g, parent[v].u, parent[v].k) && g[parent[v].u][parent[v].k].to == v
  }

  lemma LabelledParents(g: seq<seq<Edge>>, costs: seq<seq<int>>, pot: seq<int>, s: int,
                        distance: seq<int>, parent: seq<Parent>)
    requires Labelled(g, costs, pot, s, distance, parent)
    ensures ParentsOn(g, parent)
  {
    forall v | 0 <= v < |g| && parent[v].Via?
      ensures EdgeAt(g, parent[v].u, parent[v].k) && g[parent[v].u][parent[v].k].to == v
    {
      assert LabelEdge(g, costs, pot, distance, parent, v);
    }
  }

  /**
   * The loops `for (e = parent[t]; e != nullptr; e = parent[e->from])`:
   * the parent edges from the vertex without a parent down to `v`, or
   * `None` when `fuel` steps do not reach one.
   */
  function Chain(g: seq<seq<Edge>>, parent: seq<Parent>, v: int, fuel: nat): (r: Option<seq<Hop>>)
    requires ParentsOn(g, parent) && 0 <= v < |g|
    ensures r.Some? ==> |r.value| <= fuel && OnGraph(g, r.value)
    decreases fuel
  {
    if parent[v] == NoParent then Some([])
    else if fuel == 0 then None
    else
      match Chain(g, parent, parent[v].u, fuel - 1)
      case None => None
      case Some(p) => Some(p + [Hop(parent[v].u, parent[v].k)])
  }

  /** More fuel gives the same chain. */
  lemma {:induction false} ChainFuel(g: seq<seq<Edge>>, parent: seq<Parent>, v: int, fuel: nat, fuel': nat)
    requires ParentsOn(g, parent) && 0 <= v < |g| && Chain(g, parent, v, fuel).Some?
    requires fuel' >= |Chain(g, parent, v, fuel).value|
    ensures Chain(g, parent, v, fuel') == Chain(g, parent, v, fuel)
    decreases fuel
  {
    if parent[v] != NoParent {
      ChainFuel(g, parent, parent[v].u, fuel - 1, fuel' - 1);
    }
  }

  /** The chain to `v` passes each of its tails along the chain to that tail. */
  lemma {:induction false} ChainPrefix(g: seq<seq<Edge>>, parent: seq<Parent>, v: int, fuel: nat, i: int)
    requires ParentsOn(g, parent) && 0 <= v < |g| && Chain(g, parent, v, fuel).Some?
    requires 0 <= i < |Chain(g, parent, v, fuel).value|
    ensures var p := Chain(g, parent, v, fuel).value;
            0 <= p[i].u < |g| && Chain(g, parent, p[i].u, fuel) == Some(p[..i])
    decreases fuel
  {
    var p := Chain(g, parent, v, fuel).value;
    var u := parent[v].u;
    var p' := Chain(g, parent, u, fuel - 1).value;
    assert p == p' + [Hop(u, parent[v].k)];
    if i == |p'| {
      assert p[..i] == p';
      ChainFuel(g, parent, u, fuel - 1, fuel);
    } else {
      ChainPrefix(g, parent, u, fuel - 1, i);
      assert p[i] == p'[i] && p[..i] == p'[..i];
      ChainFuel(g, parent, p'[i].u, fuel - 1, fuel);
    }
  }

  /** A chain that ends never meets a vertex twice: parents form no cycle along it. */
  lemma ChainDistinct(g: seq<seq<Edge>>, parent: seq<Parent>, v: int, fuel: nat)
    requires ParentsOn(g, parent) && 0 <= v < |g| && Chain(g, parent, v, fuel).Some?
    ensures DistinctTails(Chain(g, parent, v, fuel).value)
  {
    var p := Chain(g, parent, v, fuel).value;
    forall i, j | 0 <= i < j < |p|
      ensures p[i].u != p[j].u
    {
      ChainPrefix(g, parent, v, fuel, i);
      ChainPrefix(g, parent, v, fuel, j);
    }
  }

  /** `|g|` steps are enough: any chain found with more fuel is found with `|g|`. */
  lemma ChainEnough(g: seq<seq<Edge>>, parent: seq<Parent>, v: int, fuel: nat)
    requires ParentsOn(g, parent) && 0 <= v < |g| && Chain(g, parent, v, fuel).Some?
    ensures Chain(g, parent, v, |g|) == Chain(g, parent, v, fuel)
  {
    var p := Chain(g, parent, v, fuel).value;
    ChainDistinct(g, parent, v, fuel);
    var tails := seq(|p|, i requires 0 <= i < |p| => p[i].u);
    if |p| > |g| {
      Pigeonhole(tails, |g|);
      assert false;
    }
    ChainFuel(g, parent, v, fuel, |g|);
  }

  // ---------------------------------------------------------------------
  // Path costs
  // ---------------------------------------------------------------------

  /** The adjusted cost of a path: the sum of its edges' `Reduced` costs. */
  ghost function ReducedCost(g: seq<seq<Edge>>, costs: seq<seq<int>>, pot: seq<int>, p: seq<Hop>): int
    requires CostsFor(g, costs) && |pot| == |g| && OnGraph(g, p)
  {
    if |p| == 0 then 0
    else
      var h := p[|p| - 1];
      assert EdgeAt(g, h.u, h.k) && Mate(g, h.u, h.k);
      ReducedCost(g, costs, pot, p[..|p| - 1]) + Reduced(g, costs, pot, h.u, h.k)
  }

  /** Potentials cancel along a path: only its two ends remain. */
  lemma {:induction false} Telescope(g: seq<seq<Edge>>, costs: seq<seq<int>>, pot: seq<int>, p: seq<Hop>, a: int, b: int)
    requires CostsFor(g, costs) && |pot| == |g| && PathFrom(g, p, a, b) && 0 <= a < |g| && 0 <= b < |g|
    ensures ReducedCost(g, costs, pot, p) == PathCost(costs, p) + pot[a] - pot[b]
    decreases |p|
  {
    if |p| > 0 {
      var h := p[|p| - 1];
      assert PathFrom(g, p[..|p| - 1], a, h.u);
      Telescope(g, costs, pot, p[..|p| - 1], a, h.u);
    }
  }

  /** A path of edges with spare capacity from `a` to `b`. */
  ghost predicate ResidualPath(g: seq<seq<Edge>>, p: seq<Hop>, a: int, b: int)
  {
    PathFrom(g, p, a, b) && forall i :: 0 <= i < |p| ==> Residual(g[p[i].u][p[i].k])
  }

  /** Edge `k` of `u` joins two finite vertices and its adjusted cost is exactly their difference in distance. */
  ghost predicate TightEdge(g: seq<seq<Edge>>, costs: seq<seq<int>>, pot: seq<int>, distance: seq<int>, u: int, k: int)
    requires CostsFor(g, costs) && |pot| == |g| && |distance| == |g| && EdgeAt(g, u, k)
  {
    Mate(g, u, k) && distance[u] < Infinity && distance[g[u][k].to] < Infinity &&
    distance[u] + Reduced(g, costs, pot, u, k) == distance[g[u][k].to]
  }

  /** Every edge of `p` is tight. */
  ghost predicate Tight(g: seq<seq<Edge>>, costs: seq<seq<int>>, pot: seq<int>, distance: seq<int>, p: seq<Hop>)
    requires CostsFor(g, costs) && |pot| == |g| && |distance| == |g| && OnGraph(g, p)
  {
    forall i :: 0 <= i < |p| ==> TightEdge(g, costs, pot, distance, p[i].u, p[i].k)
  }

  /**
   * After a finished search, the parent chain to a finite vertex is a
   * path of spare capacity from the source whose adjusted cost is exactly
   * the difference of the two distances, each of its edges tight.
   */
  lemma {:induction false} ChainCost(g: seq<seq<Edge>>, costs: seq<seq<int>>, pot: seq<int>, s: int,
                                     distance: seq<int>, parent: seq<Parent>, v: int, fuel: nat)
    requires Labelled(g, costs, pot, s, distance, parent) && Stable(g, costs, pot, distance)
    requires 0 <= v < |g| && distance[v] < Infinity
    requires ParentsOn(g, parent) && Chain(g, parent, v, fuel).Some?
    ensures var p := Chain(g, parent, v, fuel).value;
            ResidualPath(g, p, s, v) && ReducedCost(g, costs, pot, p) == distance[v] - distance[s] &&
            Tight(g, costs, pot, distance, p)
    decreases fuel
  {
    if parent[v].Via? {
      var u, k := parent[v].u, parent[v].k;
      assert LabelEdge(g, costs, pot, distance, parent, v);
      assert Calm(g, costs, pot, distance, u);
      assert distance[u] + Reduced(g, costs, pot, u, k) == distance[v];
      ChainCost(g, costs, pot, s, distance, parent, u, fuel - 1);
      var p' := Chain(g, parent, u, fuel - 1).value;
      ChainHop(g, costs, pot, s, distance, p', p' + [Hop(u, k)], u, k, v);
    }
  }

  /** A tight edge of spare capacity extends a path whose adjusted cost is the distance difference. */
  lemma ChainHop(g: seq<seq<Edge>>, costs: seq<seq<int>>, pot: seq<int>, s: int, distance: seq<int>,
                 p': seq<Hop>, p: seq<Hop>, u: int, k: int, v: int)
    requires CostsFor(g, costs) && |pot| == |g| && |distance| == |g| && 0 <= v < |g|
    requires EdgeAt(g, u, k) && Mate(g, u, k) && g[u][k].to == v && Residual(g[u][k])
    requires distance[u] < Infinity && distance[v] < Infinity && distance[u] + Reduced(g, costs, pot, u, k) == distance[v]
    requires ResidualPath(g, p', s, u) && ReducedCost(g, costs, pot, p') == distance[u] - distance[s]
    requires Tight(g, costs, pot, distance, p')
    requires p == p' + [Hop(u, k)]
    ensures ResidualPath(g, p, s, v) && ReducedCost(g, costs, pot, p) == distance[v] - distance[s]
    ensures Tight(g, costs, pot, distance, p)
  {
    ResidualSnoc(g, p', p, s, u, k);
    assert p[..|p| - 1] == p';
    assert forall i :: 0 <= i < |p'| ==> p[i] == p'[i];
    assert p[|p'|] == Hop(u, k);
  }

  /** An edge of spare capacity out of a path's end extends the path. */
  lemma ResidualSnoc(g: seq<seq<Edge>>, p': seq<Hop>, p: seq<Hop>, s: int, u: int, k: int)
    requires ResidualPath(g, p', s, u) && EdgeAt(g, u, k) && Residual(g[u][k]) && p == p' + [Hop(u, k)]
    ensures ResidualPath(g, p, s, g[u][k].to)
  {
    assert forall i :: 0 <= i < |p'| ==> p[i] == p'[i];
    if |p'| > 0 {
      assert p[0] == p'[0] && p[|p'|] == Hop(u, k);
    }
  }

  /**
   * After a finished search no path of spare capacity from the source
   * costs less than a distance: if every prefix of the path keeps the
   * source's distance plus its adjusted cost below `Infinity`, its end's
   * distance is at most that sum.
   */
  lemma {:induction false} Cheapest(g: seq<seq<Edge>>, costs: seq<seq<int>>, pot: seq<int>, s: int,
                                    distance: seq<int>, parent: seq<Parent>, q: seq<Hop>, v: int)
    requires Labelled(g, costs, pot, s, distance, parent) && Stable(g, costs, pot, distance)
    requires 0 <= v < |g| && ResidualPath(g, q, s, v)
    requires forall i :: 0 <= i <= |q| ==> distance[s] + ReducedCost(g, costs, pot, q[..i]) < Infinity
    ensures distance[v] <= distance[s] + ReducedCost(g, costs, pot, q)
    decreases |q|
  {
    if |q| > 0 {
      var h := q[|q| - 1];
      var q' := q[..|q| - 1];
      assert ResidualPath(g, q', s, h.u);
      forall i | 0 <= i <= |q'|
        ensures distance[s] + ReducedCost(g, costs, pot, q'[..i]) < Infinity
      {
        assert q'[..i] == q[..i];
      }
      Cheapest(g, costs, pot, s, distance, parent, q', h.u);
      assert q[..|q|] == q;
      assert Calm(g, costs, pot, distance, h.u);
    } else {
      assert q[..0] == q;
    }
  }

  /** Every path of spare capacity from `s` to `t` has a prefix whose adjusted cost reaches `Infinity`. */
  ghost predicate Blocked(g: seq<seq<Edge>>, costs: seq<seq<int>>, pot: seq<int>, s: int, t: int)
    requires CostsFor(g, costs) && |pot| == |g|
  {
    forall q :: ResidualPath(g, q, s, t) ==>
      exists i :: 0 <= i <= |q| && ReducedCost(g, costs, pot, q[..i]) >= Infinity
  }

  /**
   * After a finished search that leaves `t` at `Infinity`, every path of
   * spare capacity from the source to `t` has a prefix whose adjusted
   * cost reaches `Infinity`.
   */
  lemma Unreached(g: seq<seq<Edge>>, costs: seq<seq<int>>, pot: seq<int>, s: int,
                  distance: seq<int>, parent: seq<Parent>, t: int)
    requires Labelled(g, costs, pot, s, distance, parent) && Stable(g, costs, pot, distance)
    requires distance[s] <= 0 && 0 <= t < |g| && distance[t] == Infinity
    ensures Blocked(g, costs, pot, s, t)
  {
    forall q | ResidualPath(g, q, s, t)
      ensures exists i :: 0 <= i <= |q| && ReducedCost(g, costs, pot, q[..i]) >= Infinity
    {
      if forall i :: 0 <= i <= |q| ==> distance[s] + ReducedCost(g, costs, pot, q[..i]) < Infinity {
        assert q[..|q|] == q;
        Cheapest(g, costs, pot, s, distance, parent, q, t);
        assert false;
      } else {
        var i :| 0 <= i <= |q| && distance[s] + ReducedCost(g, costs, pot, q[..i]) >= Infinity;
        assert ReducedCost(g, costs, pot, q[..i]) >= Infinity;
      }
    }
  }

  /**
   * A path of spare capacity to `t` whose adjusted cost is the distance
   * of `t` costs no more than any other such path whose prefixes all
   * stay below `Infinity`.
   */
  lemma ChainCheapest(g: seq<seq<Edge>>, costs: seq<seq<int>>, pot: seq<int>, s: int,
                      distance: seq<int>, parent: seq<Parent>, path: seq<Hop>, t: int)
    requires Labelled(g, costs, pot, s, distance, parent) && Stable(g, costs, pot, distance)
    requires CostsFor(g, costs) && distance[s] <= 0 && 0 <= t < |g|
    requires ResidualPath(g, path, s, t) && ReducedCost(g, costs, pot, path) == distance[t] - distance[s]
    ensures forall q :: (ResidualPath(g, q, s, t) &&
                         forall i :: 0 <= i <= |q| ==> ReducedCost(g, costs, pot, q[..i]) < Infinity) ==>
                        PathCost(costs, path) <= PathCost(costs, q)
  {
    forall q | ResidualPath(g, q, s, t) &&
               (forall i :: 0 <= i <= |q| ==> ReducedCost(g, costs, pot, q[..i]) < Infinity)
      ensures PathCost(costs, path) <= PathCost(costs, q)
    {
      Cheapest(g, costs, pot, s, distance, parent, q, t);
      Telescope(g, costs, pot, q, s, t);
      Telescope(g, costs, pot, path, s, t);
    }
  }

  // ---------------------------------------------------------------------
  // Potentials that certify the searches
  // ---------------------------------------------------------------------

  /** The largest absolute value in a row of costs. */
  function RowMax(row: seq<int>): (m: int)
    ensures m >= 0
    ensures forall k :: 0 <= k < |row| ==> -m <= row[k] <= m
    ensures m == 0 || exists k :: 0 <= k < |row| && (row[k] == m || row[k] == -m)
  {
    if |row| == 0 then 0
    else
      var m := RowMax(row[..|row| - 1]);
      assert forall k :: 0 <= k < |row| - 1 ==> row[..|row| - 1][k] == row[k];
      var x := row[|row| - 1];
      var a := if x < 0 then -x else x;
      if a > m then a else m
  }

  /** The largest absolute cost in the table. */
  function MaxCost(costs: seq<seq<int>>): (m: int)
    ensures m >= 0
    ensures forall u, k :: 0 <= u < |costs| && 0 <= k < |costs[u]| ==> -m <= costs[u][k] <= m
    ensures m == 0 || exists u, k :: 0 <= u < |costs| && 0 <= k < |costs[u]| && (costs[u][k] == m || costs[u][k] == -m)
  {
    if |costs| == 0 then 0
    else
      var m := MaxCost(costs[..|costs| - 1]);
      assert forall u :: 0 <= u < |costs| - 1 ==> costs[..|costs| - 1][u] == costs[u];
      var a := RowMax(costs[|costs| - 1]);
      if a > m then a else m
  }

  /** Costs small enough that `|g|` edges of the largest cost stay below `Infinity`. */
  predicate ModerateCosts(g: seq<seq<Edge>>, costs: seq<seq<int>>)
  {
    MaxCost(costs) * |g| < Infinity
  }

  /** Under the starting potentials, a settled finite vertex puts each step's head at most the largest cost further. */
  lemma WalkEdge(g: seq<seq<Edge>>, costs: seq<seq<int>>, distance: seq<int>, u: int, w: int)
    requires CostsFor(g, costs) && |distance| == |g| && Stable(g, costs, StartPotential(|g|), distance)
    requires Step(g, u, w) && 0 <= w < |g| && distance[u] < Infinity
    ensures distance[w] <= distance[u] + MaxCost(costs)
  {
    var k :| 0 <= k < |g[u]| && g[u][k].to == w && Residual(g[u][k]);
    assert Calm(g, costs, StartPotential(|g|), distance, u);
    assert EdgeAt(g, u, k) && Mate(g, u, k) && costs[u][k] <= MaxCost(costs);
  }

  /** A walk without its last vertex is a walk. */
  lemma WalkPrefix(g: seq<seq<Edge>>, q: seq<int>, q': seq<int>)
    requires ResidualWalk(g, q) && |q| > 1 && q' == q[..|q| - 1]
    ensures ResidualWalk(g, q') && q'[0] == q[0] && q'[|q'| - 1] == q[|q| - 2]
  {
    assert forall i :: 0 <= i < |q'| ==> q'[i] == q[i];
    forall i | 0 <= i < |q'| - 1
      ensures Step(g, q'[i], q'[i + 1])
    {
      assert Step(g, q[i], q[i + 1]);
    }
  }

  /**
   * Under the starting potentials, a finished search puts the end of a
   * walk of spare capacity from the source no further than the walk's
   * length times the largest cost.
   */
  lemma {:induction false} WalkBound(g: seq<seq<Edge>>, costs: seq<seq<int>>, distance: seq<int>, q: seq<int>)
    requires CostsFor(g, costs) && |distance| == |g| && Stable(g, costs, StartPotential(|g|), distance)
    requires ResidualWalk(g, q) && distance[q[0]] <= 0 && MaxCost(costs) * (|q| - 1) < Infinity
    ensures distance[q[|q| - 1]] <= MaxCost(costs) * (|q| - 1)
    decreases |q|
  {
    if |q| > 1 {
      var m := MaxCost(costs);
      var q' := q[..|q| - 1];
      WalkPrefix(g, q, q');
      CArith.MulSucc(m, |q'| - 1);
      WalkBound(g, costs, distance, q');
      assert Step(g, q[|q| - 2], q[|q| - 1]);
      WalkEdge(g, costs, distance, q[|q| - 2], q[|q| - 1]);
    }
  }

  /**
   * With moderate costs and the starting potentials, a finished search
   * puts every vertex reachable from the source at a distance of at most
   * `|g| - 1` times the largest cost, so one more edge stays below `Infinity`.
   */
  lemma ReachFinite(g: seq<seq<Edge>>, costs: seq<seq<int>>, s: int,
                    distance: seq<int>, parent: seq<Parent>, v: int)
    requires Labelled(g, costs, StartPotential(|g|), s, distance, parent)
    requires Stable(g, costs, StartPotential(|g|), distance) && distance[s] <= 0
    requires ModerateCosts(g, costs) && 0 <= v < |g|
    ensures MaxCost(costs) * (|g| - 1) + MaxCost(costs) < Infinity
    ensures Reachable(g, s, v) ==> distance[v] <= MaxCost(costs) * (|g| - 1)
  {
    var m := MaxCost(costs);
    CArith.MulSucc(m, |g| - 1);
    if Reachable(g, s, v) {
      var q :| ResidualWalk(g, q) && q[0] == s && q[|q| - 1] == v;
      var q' := ShortWalk(g, q);
      CArith.MulMonotone(m, |q'| - 1, |g| - 1);
      WalkBound(g, costs, distance, q');
    }
  }

  /** With moderate costs and the starting potentials, a target the search leaves at `Infinity` is unreachable. */
  lemma NoPathUnreachable(g: seq<seq<Edge>>, costs: seq<seq<int>>, s: int,
                          distance: seq<int>, parent: seq<Parent>, t: int)
    requires Labelled(g, costs, StartPotential(|g|), s, distance, parent)
    requires Stable(g, costs, StartPotential(|g|), distance) && distance[s] <= 0
    requires ModerateCosts(g, costs) && 0 <= t < |g| && distance[t] == Infinity
    ensures !Reachable(g, s, t)
  {
    ReachFinite(g, costs, s, distance, parent, t);
  }

  /** Distances above a certificate are never negative, so raising `Infinity` by them and capping changes nothing. */
  lemma PotentialsKept(g: seq<seq<Edge>>, costs: seq<seq<int>>, s: int, phi: seq<int>,
                       distance: seq<int>, parent: seq<Parent>, pot': seq<int>)
    requires Labelled(g, costs, StartPotential(|g|), s, distance, parent)
    requires Certified(g, costs, StartPotential(|g|), s, phi) && Above(phi, distance)
    requires |pot'| == |g| && forall i :: 0 <= i < |g| ==> pot'[i] == Min(StartPotential(|g|)[i] + distance[i], Infinity)
    ensures pot' == StartPotential(|g|)
  {
    forall i | 0 <= i < |g|
      ensures pot'[i] == Infinity
    {
      if distance[i] < Infinity {
        assert phi[i] <= distance[i];
      }
    }
  }

  /** The certificate after a round: the distances where finite, elsewhere `phi` raised past every finite distance. */
  ghost function NextPotential(phi: seq<int>, distance: seq<int>, m: int): seq<int>
    requires |phi| == |distance|
  {
    seq(|distance|, v requires 0 <= v < |distance| =>
      if distance[v] < Infinity then distance[v] else phi[v] + Infinity + m)
  }

  /** An edge whose cost, adjusted by `pot` and `phi`, is not negative fits in any graph with the same network. */
  lemma FitsFrom(g: seq<seq<Edge>>, g': seq<seq<Edge>>, costs: seq<seq<int>>, pot: seq<int>, phi: seq<int>, u: int, k: int)
    requires CostsFor(g, costs) && SameNetwork(g, g') && CostsFor(g', costs)
    requires |pot| == |g| && |phi| == |g| && EdgeAt(g, u, k) && 0 <= g[u][k].to < |g|
    requires costs[u][k] + pot[u] - pot[g[u][k].to] + phi[u] - phi[g[u][k].to] >= 0
    ensures Fits(g', costs, pot, phi, u, k)
  {
    assert g'[u][k].to == g[u][k].to;
  }

  /** With moderate costs, an edge of spare capacity out of a finite vertex leads to a finite vertex no further than its cost. */
  lemma FiniteStep(g: seq<seq<Edge>>, costs: seq<seq<int>>, s: int, distance: seq<int>, parent: seq<Parent>, u: int, k: int)
    requires Labelled(g, costs, StartPotential(|g|), s, distance, parent)
    requires Stable(g, costs, StartPotential(|g|), distance) && distance[s] <= 0 && ModerateCosts(g, costs)
    requires EdgeAt(g, u, k) && Residual(g[u][k]) && distance[u] < Infinity
    ensures 0 <= g[u][k].to < |g| && distance[g[u][k].to] < Infinity
    ensures distance[g[u][k].to] <= distance[u] + costs[u][k]
  {
    assert Mate(g, u, k) && costs[u][k] <= MaxCost(costs);
    assert Calm(g, costs, StartPotential(|g|), distance, u);
    assert Rooted(g, s, distance);
    ReachFinite(g, costs, s, distance, parent, u);
  }

  /** The mate of a tight path edge leads back to its tail at the negated cost, between two finite vertices. */
  lemma MateStep(g: seq<seq<Edge>>, costs: seq<seq<int>>, distance: seq<int>, path: seq<Hop>, i: int, u: int, k: int)
    requires CostsFor(g, costs) && |distance| == |g| && OnGraph(g, path)
    requires Tight(g, costs, StartPotential(|g|), distance, path) && 0 <= i < |path|
    requires g[path[i].u][path[i].k].to == u && g[path[i].u][path[i].k].rev == k
    ensures EdgeAt(g, u, k) && g[u][k].to == path[i].u
    ensures distance[u] < Infinity && distance[path[i].u] < Infinity
    ensures costs[u][k] + distance[u] - distance[path[i].u] == 0
  {
    var a, ka := path[i].u, path[i].k;
    assert TightEdge(g, costs, StartPotential(|g|), distance, a, ka);
    assert EdgeAt(g, a, ka) && Mate(g, a, ka);
  }

  /** After augmenting along a tight path, an edge with spare capacity fits the next certificate. */
  lemma NextFits(g: seq<seq<Edge>>, costs: seq<seq<int>>, s: int, phi: seq<int>,
                 distance: seq<int>, parent: seq<Parent>, path: seq<Hop>, t: int, f: int, u: int, k: int)
    requires Labelled(g, costs, StartPotential(|g|), s, distance, parent)
    requires Stable(g, costs, StartPotential(|g|), distance) && distance[s] <= 0 && ModerateCosts(g, costs)
    requires Certified(g, costs, StartPotential(|g|), s, phi) && Above(phi, distance)
    requires ResidualPath(g, path, s, t) && Tight(g, costs, StartPotential(|g|), distance, path) && f >= 0
    requires CostsFor(Augment(g, path, f), costs)
    requires EdgeAt(g, u, k) && Residual(Augment(g, path, f)[u][k])
    ensures Fits(Augment(g, path, f), costs, StartPotential(|g|), NextPotential(phi, distance, MaxCost(costs)), u, k)
  {
    var g': seq<seq<Edge>> := Augment(g, path, f);
    var pot := StartPotential(|g|);
    var m := MaxCost(costs);
    var phi' := NextPotential(phi, distance, m);
    var v := g[u][k].to;
    assert Mate(g, u, k) && -m <= costs[u][k] <= m;
    assert pot[u] == pot[v];
    if Residual(g[u][k]) {
      if distance[u] < Infinity {
        FiniteStep(g, costs, s, distance, parent, u, k);
        assert phi'[u] == distance[u] && phi'[v] == distance[v];
      } else if distance[v] < Infinity {
        assert phi'[u] == phi[u] + Infinity + m && phi'[v] == distance[v];
      } else {
        assert Fits(g, costs, pot, phi, u, k);
        assert phi'[u] == phi[u] + Infinity + m && phi'[v] == phi[v] + Infinity + m;
      }
    } else {
      AugmentRaises(g, path, f, u, k);
      assert g'[u][k].flow < g[u][k].flow;
      var i :| 0 <= i < |path| && g[path[i].u][path[i].k].to == u && g[path[i].u][path[i].k].rev == k;
      MateStep(g, costs, distance, path, i, u, k);
      assert phi'[u] == distance[u] && phi'[v] == distance[v];
    }
    FitsFrom(g, g', costs, pot, phi', u, k);
  }

  /**
   * After augmenting any non-negative amount along a tight path from a
   * finished search, the next potential certifies the new graph: with
   * moderate costs no edge of spare capacity leaves the finite vertices,
   * and the only edges that gain spare capacity are mates of the path's
   * edges, whose adjusted costs cancel the distances.
   */
  lemma NextCertified(g: seq<seq<Edge>>, costs: seq<seq<int>>, s: int, phi: seq<int>,
                      distance: seq<int>, parent: seq<Parent>, path: seq<Hop>, t: int, f: int)
    requires Labelled(g, costs, StartPotential(|g|), s, distance, parent)
    requires Stable(g, costs, StartPotential(|g|), distance) && distance[s] <= 0 && ModerateCosts(g, costs)
    requires Certified(g, costs, StartPotential(|g|), s, phi) && Above(phi, distance)
    requires ResidualPath(g, path, s, t) && Tight(g, costs, StartPotential(|g|), distance, path) && f >= 0
    ensures CostsFor(Augment(g, path, f), costs)
    ensures Certified(Augment(g, path, f), costs, StartPotential(|g|), s, NextPotential(phi, distance, MaxCost(costs)))
  {
    var g': seq<seq<Edge>> := Augment(g, path, f);
    var phi' := NextPotential(phi, distance, MaxCost(costs));
    CostsSame(g, g', costs);
    assert phi[s] <= distance[s];
    forall v | 0 <= v < |g|
      ensures phi'[v] >= 0
    {
      if distance[v] < Infinity {
        assert phi[v] <= distance[v];
      }
    }
    forall u, k | EdgeAt(g', u, k) && Residual(g'[u][k])
      ensures Fits(g', costs, StartPotential(|g|), phi', u, k)
    {
      NextFits(g, costs, s, phi, distance, parent, path, t, f, u, k);
    }
  }

  /** A network without flow whose edges with capacity cost nothing negative is certified by the zero potential. */
  lemma UnusedCertified(g: seq<seq<Edge>>, costs: seq<seq<int>>, s: int)
    requires Unused(g) && CostsFor(g, costs) && 0 <= s < |g|
    requires forall u, k :: EdgeAt(g, u, k) && g[u][k].capacity > 0 ==> costs[u][k] >= 0
    ensures Certified(g, costs, StartPotential(|g|), s, seq(|g|, _ => 0))
  {
    forall u, k | EdgeAt(g, u, k) && Residual(g[u][k])
      ensures Fits(g, costs, StartPotential(|g|), seq(|g|, _ => 0), u, k)
    {
      assert g[u][k].flow == 0;
    }
  }

  // ---------------------------------------------------------------------
  // One round and the whole algorithm
  // ---------------------------------------------------------------------

  /**
   * The parent chain to a finite target after a finished search is a
   * cheapest path of spare capacity through different vertices, and from
   * the starting potentials with a certificate and moderate costs, the
   * next potential certifies the graph augmented along it.
   */
  lemma FoundPath(g: seq<seq<Edge>>, costs: seq<seq<int>>, s: int, t: int, pot: seq<int>, phi: seq<int>,
                  distance: seq<int>, parent: seq<Parent>, path: seq<Hop>)
    requires Labelled(g, costs, pot, s, distance, parent) && Stable(g, costs, pot, distance) && distance[s] <= 0
    requires Certified(g, costs, pot, s, phi) ==> Above(phi, distance)
    requires 0 <= t < |g| && distance[t] < Infinity
    requires ParentsOn(g, parent) && Chain(g, parent, t, |g|) == Some(path)
    ensures ResidualPath(g, path, s, t) && DistinctTails(path)
    ensures forall q :: (ResidualPath(g, q, s, t) &&
                         forall i :: 0 <= i <= |q| ==> ReducedCost(g, costs, pot, q[..i]) < Infinity) ==>
                        PathCost(costs, path) <= PathCost(costs, q)
    ensures pot == StartPotential(|g|) && Certified(g, costs, pot, s, phi) && ModerateCosts(g, costs) ==>
              CostsFor(Augment(g, path, Bottleneck(g, path)), costs) &&
              Certified(Augment(g, path, Bottleneck(g, path)), costs, pot, s, NextPotential(phi, distance, MaxCost(costs)))
  {
    ChainDistinct(g, parent, t, |g|);
    ChainCost(g, costs, pot, s, distance, parent, t, |g|);
    ChainCheapest(g, costs, pot, s, distance, parent, path, t);
    if pot == StartPotential(|g|) && Certified(g, costs, pot, s, phi) && ModerateCosts(g, costs) {
      BottleneckPositive(g, path);
      NextCertified(g, costs, s, phi, distance, parent, path, t, Bottleneck(g, path));
    }
  }

  /** How a round's search ends: out of fuel, with no path, or with the path to augment. */
  datatype Search = Exhausted | NoPath | Found(path: seq<Hop>)

  /**
   * `ShortestPath` followed by the walk down the parent edges.  A path
   * found is a path of spare capacity from `s` to `t` through different
   * vertices, and no cheaper than any other such path whose prefixes all
   * have adjusted cost below `Infinity`.  When there is none, every path
   * of spare capacity from `s` to `t` has a prefix whose adjusted cost
   * reaches `Infinity`.
   *
   * From the starting potentials: a certificate `phi` keeps them as they
   * are, and with moderate costs no path means `t` is unreachable, while
   * a path found leaves a certificate `next` for the graph augmented
   * along it.
   */
  method AugmentingPath(g: seq<seq<Edge>>, costs: seq<seq<int>>, s: int, t: int, pot: seq<int>, fuel: nat,
                        ghost phi: seq<int>)
    returns (r: Search, pot': seq<int>, ghost next: seq<int>)
    requires CostsFor(g, costs) && |pot| == |g| && 0 <= s < |g| && 0 <= t < |g|
    ensures |pot'| == |g|
    ensures r.Found? ==> ResidualPath(g, r.path, s, t) && DistinctTails(r.path)
    ensures r.Found? ==> forall q :: (ResidualPath(g, q, s, t) &&
                                      forall i :: 0 <= i <= |q| ==> ReducedCost(g, costs, pot, q[..i]) < Infinity) ==>
                                     PathCost(costs, r.path) <= PathCost(costs, q)
    ensures r.NoPath? ==> pot' == pot && Blocked(g, costs, pot, s, t)
    ensures pot == StartPotential(|g|) && Certified(g, costs, pot, s, phi) ==> pot' == pot
    ensures r.NoPath? && pot == StartPotential(|g|) && ModerateCosts(g, costs) ==> !Reachable(g, s, t)
    ensures r.Found? && pot == StartPotential(|g|) && Certified(g, costs, pot, s, phi) && ModerateCosts(g, costs) ==>
              CostsFor(Augment(g, r.path, Bottleneck(g, r.path)), costs) &&
              Certified(Augment(g, r.path, Bottleneck(g, r.path)), costs, pot, s, next)
  {
    next := phi;
    var finished, found, parent, distance;
    finished, found, parent, distance, pot' := ShortestPath(g, costs, s, t, pot, fuel, phi);
    ghost var certified := pot == StartPotential(|g|) && Certified(g, costs, pot, s, phi);
    if found && certified {
      PotentialsKept(g, costs, s, phi, distance, parent, pot');
    }
    if !finished {
      return Exhausted, pot', next;
    }
    if !found {
      Unreached(g, costs, pot, s, distance, parent, t);
      if pot == StartPotential(|g|) && ModerateCosts(g, costs) {
        NoPathUnreachable(g, costs, s, distance, parent, t);
      }
      return NoPath, pot', next;
    }
    LabelledParents(g, costs, pot, s, distance, parent);
    var chain := Chain(g, parent, t, |g|);
    if chain.None? {
      return Exhausted, pot', next;
    }
    var path := chain.value;
    FoundPath(g, costs, s, t, pot, phi, distance, parent, path);
    if certified && ModerateCosts(g, costs) {
      next := NextPotential(phi, distance, MaxCost(costs));
    }
    r := Found(path);
  }

  /** The program's result: the flow value, its cost, and the flow graph. */
  datatype Outcome = Outcome(maxFlow: int, minCost: int, flowGraph: seq<seq<Edge>>)

  /** Bookkeeping for one round: the reported cost grows by the path's cost times the flow sent. */
  lemma CostStep(a: int, b: int, m: int, f: int, c: int)
    requires 2 * m == a - b
    ensures 2 * (m + f * c) == a + 2 * f * c - b
  {
  }

  /**
   * One round of the main loop: the bottleneck flow is sent along the path
   * found, the value carried grows by it and the reported cost by the
   * path's cost times it.
   */
  method SendFlow(g: seq<seq<Edge>>, costs: seq<seq<int>>, s: int, t: int, fg: seq<seq<Edge>>,
                  maxFlow: int, minCost: int, path: seq<Hop>)
    returns (fg': seq<seq<Edge>>, maxFlow': int, minCost': int)
    requires Carries(g, fg, s, t, maxFlow) && CostsFor(fg, costs) && s != t
    requires 2 * minCost == GraphCost(fg, costs) - GraphCost(g, costs)
    requires ResidualPath(fg, path, s, t) && DistinctTails(path)
    ensures Carries(g, fg', s, t, maxFlow') && CostsFor(fg', costs) && maxFlow' > maxFlow
    ensures 2 * minCost' == GraphCost(fg', costs) - GraphCost(g, costs)
    ensures NetOut(fg', s) > NetOut(fg, s)
    ensures fg' == Augment(fg, path, Bottleneck(fg, path))
  {
    var pathFlow := Bottleneck(fg, path);
    BottleneckPositive(fg, path);
    AugmentStep(g, fg, s, t, maxFlow, path, pathFlow);
    AugmentCost(fg, costs, path, pathFlow);
    CostStep(GraphCost(fg, costs), GraphCost(g, costs), minCost, pathFlow, PathCost(costs, path));
    maxFlow' := maxFlow + pathFlow;
    minCost' := minCost + pathFlow * PathCost(costs, path);
    fg' := Augment(fg, path, pathFlow);
    CostsSame(fg, fg', costs);
  }

  /**
   * The program's `MaxFlowMinCost`, each search allowed `fuel` heap steps
   * (`None` when one runs out).  Otherwise the result is a feasible flow
   * on the same network, conserved away from `s` and `t`, of value
   * `maxFlow`; `minCost` is its cost (each unit on an edge counted once,
   * which is half the sum over edges and mates); and no path of spare
   * capacity from `s` to `t` is left whose prefixes all cost, under the
   * final potentials, less than `Infinity`.
   *
   * When some potential certifies the input (no negative cycle and no
   * walk of negative cost from `s` along edges of spare capacity) and the
   * costs are moderate, the potentials stay at `Infinity` and at the end
   * `t` cannot be reached from `s` at all: the flow is maximum.
   */
  method MaxFlowMinCost(g: seq<seq<Edge>>, costs: seq<seq<int>>, s: int, t: int, fuel: nat)
    returns (r: Option<Outcome>, ghost pot: seq<int>)
    requires Feasible(g) && CostsFor(g, costs) && 0 <= s < |g| && 0 <= t < |g| && s != t
    ensures |pot| == |g|
    ensures r.Some? ==> Carries(g, r.value.flowGraph, s, t, r.value.maxFlow)
    ensures r.Some? ==> Shaped(r.value.flowGraph, costs) &&
                        2 * r.value.minCost == GraphCost(r.value.flowGraph, costs) - GraphCost(g, costs)
    ensures r.Some? ==> CostsFor(r.value.flowGraph, costs) && Blocked(r.value.flowGraph, costs, pot, s, t)
    ensures ModerateCosts(g, costs) && (exists phi :: Certified(g, costs, StartPotential(|g|), s, phi)) ==>
              pot == StartPotential(|g|) && (r.Some? ==> !Reachable(r.value.flowGraph, s, t))
  {
    ghost var good := ModerateCosts(g, costs) && exists phi :: Certified(g, costs, StartPotential(|g|), s, phi);
    ghost var phi: seq<int> := [];
    if good {
      phi :| Certified(g, costs, StartPotential(|g|), s, phi);
    }
    var potential := seq(|g|, _ => Infinity);
    assert potential == StartPotential(|g|);
    var maxFlow, minCost, fg := 0, 0, g;
    var search;
    search, potential, phi := AugmentingPath(fg, costs, s, t, potential, fuel, phi);
    while search.Found?
      invariant Carries(g, fg, s, t, maxFlow) && CostsFor(fg, costs) && |potential| == |g|
      invariant 2 * minCost == GraphCost(fg, costs) - GraphCost(g, costs)
      invariant search.Found? ==> ResidualPath(fg, search.path, s, t) && DistinctTails(search.path)
      invariant search.NoPath? ==> Blocked(fg, costs, potential, s, t)
      invariant good ==> potential == StartPotential(|g|)
      invariant good && search.Found? ==>
                  CostsFor(Augment(fg, search.path, Bottleneck(fg, search.path)), costs) &&
                  Certified(Augment(fg, search.path, Bottleneck(fg, search.path)), costs, potential, s, phi)
      invariant good && search.NoPath? ==> !Reachable(fg, s, t)
      decreases RowCapacity(g[s]) - NetOut(fg, s)
    {
      NetOutBound(g, fg, s);
      fg, maxFlow, minCost := SendFlow(g, costs, s, t, fg, maxFlow, minCost, search.path);
      NetOutBound(g, fg, s);
      search, potential, phi := AugmentingPath(fg, costs, s, t, potential, fuel, phi);
    }
    pot := potential;
    if search.Exhausted? {
      return None, pot;
    }
    r := Some(Outcome(maxFlow, minCost, fg));
  }
}
