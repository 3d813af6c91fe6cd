/**
 * Floyd-Warshall all-pairs shortest paths on a weight matrix
 * (Lab2/task2.4/allpairspath.cc).  Entry `(i, j)` holds the weight of the
 * edge from `i` to `j`, or `Infinity` when there is none.  The first phase
 * tightens every entry through each intermediate vertex in turn, in place;
 * the second sets to `-Infinity` the entries a negative cycle makes
 * unbounded.
 *
 * The matrix is read as a graph through `Adj`, so that walks, their
 * weights and negative cycles are those of the `Graphs` module.
 */
module FloydWarshall {
  import opened Graphs

  /** The source's `kInfinity`: no edge, or no walk. */
  const Infinity: int := 100000001

  predicate Square(d: seq<seq<int>>)
  {
    forall i :: 0 <= i < |d| ==> |d[i]| == |d|
  }

  /** A weight matrix as the caller builds it: absent edges hold `Infinity`. */
  predicate WellFormed(g: seq<seq<int>>)
  {
    Square(g) && forall i, j :: 0 <= i < |g| && 0 <= j < |g| ==> g[i][j] <= Infinity
  }

  // ---------------------------------------------------------------------
  // The matrix as a graph
  // ---------------------------------------------------------------------

  function EdgesFrom(g: seq<seq<int>>, u: int, v: int): (r: seq<Edge>)
    requires Square(g) && 0 <= u < |g| && 0 <= v <= |g|
    ensures forall e :: e in r <==> e.from == u && v <= e.to < |g| && g[u][e.to] < Infinity && e.weight == g[u][e.to]
    decreases |g| - v
  {
    if v == |g| then []
    else (if g[u][v] < Infinity then [Edge(u, v, g[u][v])] else []) + EdgesFrom(g, u, v + 1)
  }

  /** The adjacency lists of the matrix: one edge per finite entry. */
  function Adj(g: seq<seq<int>>): (r: seq<seq<Edge>>)
    requires Square(g)
    ensures |r| == |g| && Targets(r)
    ensures forall u, e :: 0 <= u < |g| ==>
              (e in r[u] <==> e.from == u && 0 <= e.to < |g| && g[u][e.to] < Infinity && e.weight == g[u][e.to])
  {
    seq(|g|, u requires 0 <= u < |g| => EdgesFrom(g, u, 0))
  }

  /** Some walk of at least one edge from `i` to `j` weighs exactly `x`. */
  ghost predicate Realized(a: seq<seq<Edge>>, i: int, j: int, x: int)
  {
    exists p :: WalkTo(a, i, p, j) && |p| > 0 && Weight(p) == x
  }

  /** Some walk of at least one edge leads from `i` to `j`. */
  ghost predicate Linked(a: seq<seq<Edge>>, i: int, j: int)
  {
    exists p :: WalkTo(a, i, p, j) && |p| > 0
  }

  /** No walk of at least one edge from `i` to `j` weighs less than `x`. */
  ghost predicate Lightest(a: seq<seq<Edge>>, i: int, j: int, x: int)
  {
    forall p :: WalkTo(a, i, p, j) && |p| > 0 ==> x <= Weight(p)
  }

  // ---------------------------------------------------------------------
  // The tightening phase
  // ---------------------------------------------------------------------

  /**
   * Tighten entry `(i, j)` through `k`, skipping it when either leg is
   * `Infinity`.
   */
  function RelaxEntry(d: seq<seq<int>>, k: int, i: int, j: int): (r: seq<seq<int>>)
    requires Square(d) && 0 <= k < |d| && 0 <= i < |d| && 0 <= j < |d|
    ensures Square(r) && |r| == |d|
    ensures r[i][j] <= d[i][j]
    ensures d[i][k] < Infinity && d[k][j] < Infinity ==> r[i][j] <= d[i][k] + d[k][j]
    ensures r[i][j] == d[i][j] || (d[i][k] < Infinity && d[k][j] < Infinity && r[i][j] == d[i][k] + d[k][j])
    ensures forall x, y :: 0 <= x < |d| && 0 <= y < |d| && (x != i || y != j) ==> r[x][y] == d[x][y]
  {
    if d[i][k] < Infinity && d[k][j] < Infinity && d[i][k] + d[k][j] < d[i][j]
    then d[i := d[i][j := d[i][k] + d[k][j]]]
    else d
  }

  function RelaxRow(d: seq<seq<int>>, k: int, i: int, j: int): (r: seq<seq<int>>)
    requires Square(d) && 0 <= k < |d| && 0 <= i < |d| && 0 <= j <= |d|
    ensures Square(r) && |r| == |d|
    decreases |d| - j
  {
    if j == |d| then d else RelaxRow(RelaxEntry(d, k, i, j), k, i, j + 1)
  }

  function RelaxRound(d: seq<seq<int>>, k: int, i: int): (r: seq<seq<int>>)
    requires Square(d) && 0 <= k < |d| && 0 <= i <= |d|
    ensures Square(r) && |r| == |d|
    decreases |d| - i
  {
    if i == |d| then d else RelaxRound(RelaxRow(d, k, i, 0), k, i + 1)
  }

  /** The first phase, from intermediate vertex `k` on. */
  function Tighten(d: seq<seq<int>>, k: int): (r: seq<seq<int>>)
    requires Square(d) && 0 <= k <= |d|
    ensures Square(r) && |r| == |d|
    decreases |d| - k
  {
    if k == |d| then d else Tighten(RelaxRound(d, k, 0), k + 1)
  }

  predicate Lower(d: seq<seq<int>>, d0: seq<seq<int>>)
    requires Square(d) && Square(d0)
  {
    |d| == |d0| && forall i, j :: 0 <= i < |d| && 0 <= j < |d| ==> d[i][j] <= d0[i][j]
  }

  /** Entry `(i, j)` is at most `Infinity`, and when smaller it is the weight of a walk. */
  ghost predicate EntryOk(a: seq<seq<Edge>>, d: seq<seq<int>>, i: int, j: int)
    requires Square(d) && 0 <= i < |d| && 0 <= j < |d|
  {
    d[i][j] <= Infinity && (d[i][j] < Infinity ==> Realized(a, i, j, d[i][j]))
  }

  ghost predicate Sound(a: seq<seq<Edge>>, d: seq<seq<int>>)
  {
    Square(d) && |d| == |a| &&
    forall i, j :: 0 <= i < |d| && 0 <= j < |d| ==> EntryOk(a, d, i, j)
  }

  /** Entry `(i, j)` is no larger than its route through `k` as it stood when the round began. */
  predicate ViaRelaxed(d0: seq<seq<int>>, d: seq<seq<int>>, k: int, i: int, j: int)
    requires Square(d0) && Square(d) && |d| == |d0| && 0 <= k < |d| && 0 <= i < |d| && 0 <= j < |d|
  {
    d0[i][k] < Infinity && d0[k][j] < Infinity ==> d[i][j] <= d0[i][k] + d0[k][j]
  }

  /** Every entry before `(i, j)` in row-major order is relaxed through `k`. */
  ghost predicate RelaxedBefore(d0: seq<seq<int>>, d: seq<seq<int>>, k: int, i: int, j: int)
    requires Square(d0) && Square(d) && |d| == |d0| && 0 <= k < |d|
  {
    forall x, y :: 0 <= x < |d| && 0 <= y < |d| && (x < i || (x == i && y < j)) ==> ViaRelaxed(d0, d, k, x, y)
  }

  /** The route through `k` joins two walks, so the tightened entry is realized. */
  lemma ViaRealized(a: seq<seq<Edge>>, d: seq<seq<int>>, k: int, i: int, j: int)
    requires Sound(a, d) && 0 <= k < |d| && 0 <= i < |d| && 0 <= j < |d|
    requires d[i][k] < Infinity && d[k][j] < Infinity
    ensures Realized(a, i, j, d[i][k] + d[k][j])
  {
    assert EntryOk(a, d, i, k) && EntryOk(a, d, k, j);
    var p1 :| WalkTo(a, i, p1, k) && |p1| > 0 && Weight(p1) == d[i][k];
    var p2 :| WalkTo(a, k, p2, j) && |p2| > 0 && Weight(p2) == d[k][j];
    WalkConcat(a, i, p1, p2);
    assert WalkTo(a, i, p1 + p2, j) && |p1 + p2| > 0;
  }

  lemma EntrySound(a: seq<seq<Edge>>, d: seq<seq<int>>, k: int, i: int, j: int)
    requires Sound(a, d) && 0 <= k < |d| && 0 <= i < |d| && 0 <= j < |d|
    ensures Sound(a, RelaxEntry(d, k, i, j)) && Lower(RelaxEntry(d, k, i, j), d)
  {
    var r := RelaxEntry(d, k, i, j);
    if d[i][k] < Infinity && d[k][j] < Infinity && d[i][k] + d[k][j] < d[i][j] {
      ViaRealized(a, d, k, i, j);
      forall x, y | 0 <= x < |d| && 0 <= y < |d|
        ensures EntryOk(a, r, x, y)
      {
        if x != i || y != j {
          assert r[x][y] == d[x][y];
          assert EntryOk(a, d, x, y);
        } else {
          assert EntryOk(a, d, i, j);
          assert r[i][j] == d[i][k] + d[k][j] < d[i][j];
        }
      }
    }
  }

  lemma EntryRelaxed(d0: seq<seq<int>>, d: seq<seq<int>>, k: int, i: int, j: int)
    requires Square(d0) && Square(d) && |d| == |d0| && Lower(d, d0)
    requires 0 <= k < |d| && 0 <= i < |d| && 0 <= j < |d| && RelaxedBefore(d0, d, k, i, j)
    requires Lower(RelaxEntry(d, k, i, j), d)
    ensures RelaxedBefore(d0, RelaxEntry(d, k, i, j), k, i, j + 1)
  {
    var r := RelaxEntry(d, k, i, j);
    forall x, y | 0 <= x < |d| && 0 <= y < |d| && (x < i || (x == i && y < j + 1))
      ensures ViaRelaxed(d0, r, k, x, y)
    {
      if x != i || y != j {
        assert ViaRelaxed(d0, d, k, x, y);
      }
    }
  }

  lemma LowerTrans(a: seq<seq<int>>, b: seq<seq<int>>, c: seq<seq<int>>)
    requires Square(a) && Square(b) && Square(c) && Lower(a, b) && Lower(b, c)
    ensures Lower(a, c)
  {
  }

  lemma {:induction false} RowKeeps(a: seq<seq<Edge>>, d0: seq<seq<int>>, d: seq<seq<int>>, k: int, i: int, j: int)
    requires Sound(a, d) && Square(d0) && Lower(d, d0)
    requires 0 <= k < |d| && 0 <= i < |d| && 0 <= j <= |d| && RelaxedBefore(d0, d, k, i, j)
    ensures var r := RelaxRow(d, k, i, j);
            Sound(a, r) && Lower(r, d0) && RelaxedBefore(d0, r, k, i + 1, 0)
    decreases |d| - j
  {
    if j < |d| {
      var r := RelaxEntry(d, k, i, j);
      EntrySound(a, d, k, i, j);
      EntryRelaxed(d0, d, k, i, j);
      LowerTrans(r, d, d0);
      RowKeeps(a, d0, r, k, i, j + 1);
    } else {
      forall x, y | 0 <= x < |d| && 0 <= y < |d| && (x < i + 1 || (x == i + 1 && y < 0))
        ensures ViaRelaxed(d0, d, k, x, y)
      {
        assert x < i || (x == i && y < j);
      }
    }
  }

  lemma {:induction false} RoundKeeps(a: seq<seq<Edge>>, d0: seq<seq<int>>, d: seq<seq<int>>, k: int, i: int)
    requires Sound(a, d) && Square(d0) && Lower(d, d0)
    requires 0 <= k < |d| && 0 <= i <= |d| && RelaxedBefore(d0, d, k, i, 0)
    ensures var r := RelaxRound(d, k, i);
            Sound(a, r) && Lower(r, d0) && RelaxedBefore(d0, r, k, |d|, 0)
    decreases |d| - i
  {
    if i < |d| {
      RowKeeps(a, d0, d, k, i, 0);
      RoundKeeps(a, d0, RelaxRow(d, k, i, 0), k, i + 1);
    }
  }

  /** The vertices strictly inside `p` are all below `k`. */
  ghost predicate InnerBelow(s: int, p: seq<Edge>, k: int)
  {
    forall t :: 0 < t < |p| ==> End(s, p[..t]) < k
  }

  /** Every simple walk whose inner vertices are below `k` weighs at least its entry. */
  ghost predicate BoundBy(a: seq<seq<Edge>>, d: seq<seq<int>>, k: int)
    requires Square(d) && |d| == |a|
  {
    forall i, p ::
      0 <= i < |a| && IsWalk(a, i, p) && |p| > 0 && Simple(i, p) && InnerBelow(i, p, k) && 0 <= End(i, p) < |a|
      ==> d[i][End(i, p)] <= Weight(p)
  }

  lemma BoundStart(g: seq<seq<int>>)
    requires WellFormed(g)
    ensures BoundBy(Adj(g), g, 0)
  {
    var a := Adj(g);
    forall i, p | 0 <= i < |g| && IsWalk(a, i, p) && |p| > 0 && Simple(i, p) && InnerBelow(i, p, 0) && 0 <= End(i, p) < |g|
      ensures g[i][End(i, p)] <= Weight(p)
    {
      if |p| > 1 {
        assert false;
      }
      assert p[..|p| - 1] == [];
    }
  }

  /**
   * A simple walk through `k` splits there into two simple walks whose
   * inner vertices stay below `k` when the whole walk's stay below `k + 1`.
   */
  lemma SplitAt(g: seq<seq<Edge>>, i: int, p: seq<Edge>, t: int, k: int)
    requires Targets(g) && IsWalk(g, i, p) && Simple(i, p) && InnerBelow(i, p, k + 1)
    requires 0 < t < |p| && End(i, p[..t]) == k
    ensures WalkTo(g, i, p[..t], k) && Simple(i, p[..t]) && InnerBelow(i, p[..t], k)
    ensures WalkTo(g, k, p[t..], End(i, p)) && Simple(k, p[t..]) && InnerBelow(k, p[t..], k)
    ensures Weight(p) == Weight(p[..t]) + Weight(p[t..])
  {
    var p1, p2 := p[..t], p[t..];
    WalkPrefix(g, i, p, t);
    WalkSuffix(g, i, p, t);
    assert p1 + p2 == p;
    forall x, y | 0 <= x < y <= |p1|
      ensures End(i, p1[..x]) != End(i, p1[..y])
    {
      assert p1[..x] == p[..x] && p1[..y] == p[..y];
    }
    forall c | 0 < c < |p1|
      ensures End(i, p1[..c]) < k
    {
      assert p1[..c] == p[..c];
      assert End(i, p[..c]) != End(i, p[..t]);
    }
    forall x, y | 0 <= x < y <= |p2|
      ensures End(k, p2[..x]) != End(k, p2[..y])
    {
      TailVertex(g, i, p, t, x);
      TailVertex(g, i, p, t, y);
    }
    forall c | 0 < c < |p2|
      ensures End(k, p2[..c]) < k
    {
      TailVertex(g, i, p, t, c);
      TailVertex(g, i, p, t, 0);
      assert End(i, p[..t + c]) != End(i, p[..t]);
    }
  }

  /**
   * A round through `k` extends the bound to walks that may pass through `k`:
   * such a walk splits at `k` into two walks whose inner vertices are below `k`.
   */
  lemma RoundBound(a: seq<seq<Edge>>, d0: seq<seq<int>>, d: seq<seq<int>>, k: int)
    requires Targets(a) && Sound(a, d0) && Square(d) && |d| == |a| && Moderate(a, Infinity) && 0 <= k < |a|
    requires BoundBy(a, d0, k) && Lower(d, d0) && RelaxedBefore(d0, d, k, |a|, 0)
    ensures BoundBy(a, d, k + 1)
  {
    forall i, p | 0 <= i < |a| && IsWalk(a, i, p) && |p| > 0 && Simple(i, p) && InnerBelow(i, p, k + 1) && 0 <= End(i, p) < |a|
      ensures d[i][End(i, p)] <= Weight(p)
    {
      var j := End(i, p);
      if InnerBelow(i, p, k) {
        assert d0[i][j] <= Weight(p);
      } else {
        var t :| 0 < t < |p| && End(i, p[..t]) >= k;
        SplitAt(a, i, p, t, k);
        Through(a, d0, d, k, i, p, t);
      }
    }
  }

  /** The split walk's two legs bound the route through `k`. */
  lemma Through(a: seq<seq<Edge>>, d0: seq<seq<int>>, d: seq<seq<int>>, k: int, i: int, p: seq<Edge>, t: int)
    requires Targets(a) && Sound(a, d0) && Square(d) && |d| == |a| && Moderate(a, Infinity) && 0 <= k < |a|
    requires BoundBy(a, d0, k) && RelaxedBefore(d0, d, k, |a|, 0) && 0 <= i < |a|
    requires IsWalk(a, i, p) && Simple(i, p) && 0 < t < |p|
    requires WalkTo(a, i, p[..t], k) && Simple(i, p[..t]) && InnerBelow(i, p[..t], k)
    requires WalkTo(a, k, p[t..], End(i, p)) && Simple(k, p[t..]) && InnerBelow(k, p[t..], k)
    requires Weight(p) == Weight(p[..t]) + Weight(p[t..])
    ensures 0 <= End(i, p) < |a| && d[i][End(i, p)] <= Weight(p)
  {
    WalkEndInRange(a, i, p);
    var j := End(i, p);
    SimpleLength(a, i, p);
    ShortWeight(a, i, p[..t], Infinity);
    ShortWeight(a, k, p[t..], Infinity);
    WalkEndInRange(a, i, p[..t]);
    assert d0[i][k] <= Weight(p[..t]);
    assert d0[k][j] <= Weight(p[t..]);
    assert ViaRelaxed(d0, d, k, i, j);
  }

  lemma {:induction false} TightenKeeps(a: seq<seq<Edge>>, d: seq<seq<int>>, k: int)
    requires Targets(a) && Sound(a, d) && 0 <= k <= |d|
    requires Moderate(a, Infinity) ==> BoundBy(a, d, k)
    ensures var r := Tighten(d, k);
            Sound(a, r) && Lower(r, d) && (Moderate(a, Infinity) ==> BoundBy(a, r, |a|))
    decreases |d| - k
  {
    if k < |d| {
      var d' := RelaxRound(d, k, 0);
      RoundKeeps(a, d, d, k, 0);
      if Moderate(a, Infinity) {
        RoundBound(a, d, d', k);
      }
      TightenKeeps(a, d', k + 1);
      LowerTrans(Tighten(d', k + 1), d', d);
    }
  }

  lemma SoundStart(g: seq<seq<int>>)
    requires WellFormed(g)
    ensures Sound(Adj(g), g)
  {
    var a := Adj(g);
    forall i, j | 0 <= i < |g| && 0 <= j < |g|
      ensures EntryOk(a, g, i, j)
    {
      if g[i][j] < Infinity {
        var e := Edge(i, j, g[i][j]);
        assert e in a[i];
        WalkAppend(a, i, [], e);
        assert [] + [e] == [e];
      }
    }
  }

  /**
   * The first phase never raises an entry, each finite entry is the weight
   * of a walk, and under `Moderate` weights every simple walk weighs at
   * least the entry of its ends.
   */
  lemma TightenSound(g: seq<seq<int>>)
    requires WellFormed(g)
    ensures var d := Tighten(g, 0);
            Sound(Adj(g), d) && Lower(d, g) && (Moderate(Adj(g), Infinity) ==> BoundBy(Adj(g), d, |g|))
  {
    SoundStart(g);
    BoundStart(g);
    TightenKeeps(Adj(g), g, 0);
  }

  // ---------------------------------------------------------------------
  // The marking phase
  // ---------------------------------------------------------------------

  /**
   * Vertex `k` has a negative entry to itself and finite entries from `i`
   * and to `j`: a negative cycle lies between `i` and `j`.
   */
  predicate Detour(d: seq<seq<int>>, i: int, j: int, k: int)
    requires Square(d) && 0 <= i < |d| && 0 <= j < |d| && 0 <= k < |d|
  {
    d[i][k] < Infinity && d[k][j] < Infinity && d[k][k] < 0
  }

  /** Whether some vertex `x >= k` is a `Detour` between `i` and `j`. */
  function NegVia(d: seq<seq<int>>, i: int, j: int, k: int): (r: bool)
    requires Square(d) && 0 <= i < |d| && 0 <= j < |d| && 0 <= k <= |d|
    ensures r <==> exists x :: k <= x < |d| && Detour(d, i, j, x)
    decreases |d| - k
  {
    if k == |d| then false else Detour(d, i, j, k) || NegVia(d, i, j, k + 1)
  }

  /**
   * The second phase as it evidently should be: an entry becomes
   * `-Infinity` exactly when some detour between its ends exists.
   */
  function MarkNegative(d: seq<seq<int>>): (r: seq<seq<int>>)
    requires Square(d)
    ensures Square(r) && |r| == |d|
    ensures forall i, j :: 0 <= i < |d| && 0 <= j < |d| ==>
              ((exists k :: 0 <= k < |d| && Detour(d, i, j, k)) ==> r[i][j] == -Infinity) &&
              (r[i][j] == -Infinity ==> d[i][j] == -Infinity || exists k :: 0 <= k < |d| && Detour(d, i, j, k)) &&
              (r[i][j] != -Infinity ==> r[i][j] == d[i][j])
  {
    seq(|d|, i requires 0 <= i < |d| =>
      seq(|d|, j requires 0 <= j < |d| => if NegVia(d, i, j, 0) then -Infinity else d[i][j]))
  }

  /** All-pairs distances: the tightening phase, then the corrected marking. */
  function AllPairs(g: seq<seq<int>>): (r: seq<seq<int>>)
    requires WellFormed(g)
    ensures Square(r) && |r| == |g|
  {
    MarkNegative(Tighten(g, 0))
  }

  lemma LinkedTrans(a: seq<seq<Edge>>, i: int, k: int, j: int)
    requires Linked(a, i, k) && Linked(a, k, j)
    ensures Linked(a, i, j)
  {
    var p :| WalkTo(a, i, p, k) && |p| > 0;
    var q :| WalkTo(a, k, q, j) && |q| > 0;
    WalkConcat(a, i, p, q);
    assert WalkTo(a, i, p + q, j) && |p + q| > 0;
  }

  /** Every vertex a walk passes lies in the graph. */
  lemma AllBelow(a: seq<seq<Edge>>, i: int, p: seq<Edge>)
    requires Targets(a) && IsWalk(a, i, p)
    ensures InnerBelow(i, p, |a|) && 0 <= End(i, p) < |a|
  {
    forall t | 0 < t < |p|
      ensures End(i, p[..t]) < |a|
    {
      WalkPrefix(a, i, p, t);
      WalkEndInRange(a, i, p[..t]);
    }
    WalkEndInRange(a, i, p);
  }

  /** Under `Moderate` weights a linked pair has a finite entry after tightening. */
  lemma LinkedFinite(a: seq<seq<Edge>>, d: seq<seq<int>>, i: int, j: int)
    requires Targets(a) && Square(d) && |d| == |a| && Moderate(a, Infinity) && BoundBy(a, d, |a|)
    requires 0 <= i < |a| && 0 <= j < |a|
    ensures Linked(a, i, j) ==> d[i][j] < Infinity
  {
    if Linked(a, i, j) {
      var p :| WalkTo(a, i, p, j) && |p| > 0;
      var r := SimpleWalk(a, i, p);
      AllBelow(a, i, r);
      SimpleLength(a, i, r);
      ShortWeight(a, i, r, Infinity);
    }
  }

  /** A detour is realized by walks through a negative closed walk. */
  lemma DetourReaches(a: seq<seq<Edge>>, d: seq<seq<int>>, i: int, j: int, k: int)
    requires Sound(a, d) && 0 <= i < |d| && 0 <= j < |d| && 0 <= k < |d| && Detour(d, i, j, k)
    ensures NegativeCycleReaches(a, i, j) && Linked(a, i, j)
  {
    assert EntryOk(a, d, i, k) && EntryOk(a, d, k, k) && EntryOk(a, d, k, j);
    var p :| WalkTo(a, i, p, k) && |p| > 0 && Weight(p) == d[i][k];
    var c :| WalkTo(a, k, c, k) && |c| > 0 && Weight(c) == d[k][k];
    var q :| WalkTo(a, k, q, j) && |q| > 0 && Weight(q) == d[k][j];
    LinkedTrans(a, i, k, j);
  }

  /**
   * A negative cycle between `i` and `j` passes a vertex `k` that lies on a
   * simple negative closed walk and is linked from `i` and to `j`.
   */
  lemma CycleVertex(a: seq<seq<Edge>>, i: int, j: int) returns (k: int, cyc: seq<Edge>)
    requires Targets(a) && NegativeCycleReaches(a, i, j)
    ensures Linked(a, i, k) && Linked(a, k, j)
    ensures WalkTo(a, k, cyc, k) && |cyc| > 0 && Simple(k, cyc) && Weight(cyc) < 0
  {
    var z, p, c, q :| WalkTo(a, i, p, z) && WalkTo(a, z, c, z) && Weight(c) < 0 && WalkTo(a, z, q, j);
    assert |c| > 0;
    var u, v;
    k, u, cyc, v := NegativeSimpleCycle(a, z, c);
    LinkedThrough(a, i, p, z, c, u, k);
    LinkedThrough(a, k, v, z, c, q, j);
  }

  /** A walk to `z`, a non-empty cycle at `z`, and a walk on from `z` link the two ends. */
  lemma LinkedThrough(a: seq<seq<Edge>>, x: int, p: seq<Edge>, z: int, c: seq<Edge>, q: seq<Edge>, y: int)
    requires WalkTo(a, x, p, z) && WalkTo(a, z, c, z) && |c| > 0 && WalkTo(a, z, q, y)
    ensures Linked(a, x, y)
  {
    WalkConcat(a, x, p, c);
    WalkConcat(a, x, p + c, q);
    assert WalkTo(a, x, p + c + q, y) && |p + c + q| > 0;
  }


  /**
   * Under `Moderate` weights a negative cycle between `i` and `j` shows up
   * as a detour: some vertex on it has a negative entry to itself.
   */
  lemma ReachesDetour(a: seq<seq<Edge>>, d: seq<seq<int>>, i: int, j: int)
    requires Targets(a) && Square(d) && |d| == |a| && Moderate(a, Infinity) && BoundBy(a, d, |a|)
    requires 0 <= i < |a| && 0 <= j < |a|
    ensures NegativeCycleReaches(a, i, j) ==> NegVia(d, i, j, 0)
  {
    if NegativeCycleReaches(a, i, j) {
      var k, cyc := CycleVertex(a, i, j);
      AllBelow(a, k, cyc);
      LinkedFinite(a, d, i, k);
      LinkedFinite(a, d, k, j);
      assert d[k][k] <= Weight(cyc);
      assert Detour(d, i, j, k);
    }
  }

  /** Without a negative cycle between `i` and `j` the entry is above `-Infinity` and no walk is lighter. */
  lemma Floor(a: seq<seq<Edge>>, d: seq<seq<int>>, i: int, j: int)
    requires Targets(a) && Sound(a, d) && Moderate(a, Infinity) && BoundBy(a, d, |a|)
    requires 0 <= i < |a| && 0 <= j < |a|
    ensures !NegativeCycleReaches(a, i, j) ==> -Infinity < d[i][j] && Lightest(a, i, j, d[i][j])
  {
    if !NegativeCycleReaches(a, i, j) {
      forall p | WalkTo(a, i, p, j) && |p| > 0
        ensures d[i][j] <= Weight(p)
      {
        var r := LightSimpleWalk(a, i, p);
        AllBelow(a, i, r);
      }
      assert EntryOk(a, d, i, j);
      if d[i][j] < Infinity {
        var p :| WalkTo(a, i, p, j) && |p| > 0 && Weight(p) == d[i][j];
        var r := LightSimpleWalk(a, i, p);
        SimpleLength(a, i, r);
        ShortWeight(a, i, r, Infinity);
      }
    }
  }

  /** The result's entry `(i, j)`, from the tightened matrix `d`. */
  lemma EntryCorrect(a: seq<seq<Edge>>, d: seq<seq<int>>, i: int, j: int)
    requires Targets(a) && Sound(a, d) && 0 <= i < |a| && 0 <= j < |a|
    requires Moderate(a, Infinity) ==> BoundBy(a, d, |a|)
    ensures var x := MarkNegative(d)[i][j];
            x <= Infinity && (x < Infinity ==> Linked(a, i, j)) &&
            (-Infinity < x < Infinity ==> Realized(a, i, j, x)) &&
            (Moderate(a, Infinity) ==>
               (x == Infinity <==> !Linked(a, i, j)) &&
               (x == -Infinity <==> NegativeCycleReaches(a, i, j)) &&
               (-Infinity < x < Infinity ==> Lightest(a, i, j, x)))
  {
    var x := MarkNegative(d)[i][j];
    assert EntryOk(a, d, i, j);
    if NegVia(d, i, j, 0) {
      var k :| 0 <= k < |d| && Detour(d, i, j, k);
      DetourReaches(a, d, i, j, k);
    } else if d[i][j] < Infinity {
      var p :| WalkTo(a, i, p, j) && |p| > 0 && Weight(p) == d[i][j];
    }
    if Moderate(a, Infinity) {
      LinkedFinite(a, d, i, j);
      ReachesDetour(a, d, i, j);
      Floor(a, d, i, j);
    }
  }

  /**
   * What the program promises of every entry: `Infinity` exactly when no
   * walk links the pair, `-Infinity` exactly when a negative cycle lies
   * between them, and otherwise the least weight of a walk.  The first two
   * conjuncts hold for any weights; the rest need `Moderate` weights, so
   * that no simple walk weighs `Infinity` or more.
   */
  lemma AllPairsCorrect(g: seq<seq<int>>)
    requires WellFormed(g)
    ensures var r := AllPairs(g);
            forall i, j :: 0 <= i < |g| && 0 <= j < |g| ==>
              r[i][j] <= Infinity && (r[i][j] < Infinity ==> Linked(Adj(g), i, j)) &&
              (-Infinity < r[i][j] < Infinity ==> Realized(Adj(g), i, j, r[i][j]))
    ensures var r := AllPairs(g);
            Moderate(Adj(g), Infinity) ==>
            forall i, j :: 0 <= i < |g| && 0 <= j < |g| ==>
              (r[i][j] == Infinity <==> !Linked(Adj(g), i, j)) &&
              (r[i][j] == -Infinity <==> NegativeCycleReaches(Adj(g), i, j)) &&
              (-Infinity < r[i][j] < Infinity ==> Lightest(Adj(g), i, j, r[i][j]))
  {
    var a, d := Adj(g), Tighten(g, 0);
    TightenSound(g);
    forall i, j | 0 <= i < |g| && 0 <= j < |g|
      ensures var x := MarkNegative(d)[i][j];
              x <= Infinity && (x < Infinity ==> Linked(a, i, j)) &&
              (-Infinity < x < Infinity ==> Realized(a, i, j, x)) &&
              (Moderate(a, Infinity) ==>
                 (x == Infinity <==> !Linked(a, i, j)) &&
                 (x == -Infinity <==> NegativeCycleReaches(a, i, j)) &&
                 (-Infinity < x < Infinity ==> Lightest(a, i, j, x)))
    {
      EntryCorrect(a, d, i, j);
    }
  }

  // ---------------------------------------------------------------------
  // The marking phase as the program writes it
  // ---------------------------------------------------------------------

  /**
   * The program's marking state: the matrix and its flags, which it raises
   * on the column `j` of every entry it marks.
   */
  datatype Marking = Marking(d: seq<seq<int>>, flagged: seq<bool>)

  predicate Shaped(m: Marking)
  {
    Square(m.d) && |m.flagged| == |m.d|
  }

  /**
   * One step of the program's second phase: with both legs other than
   * `Infinity`, a flagged row `i` or a shorter route through `k` marks
   * entry `(i, j)` and flags `j`.
   */
  function MarkEntryAsWritten(m: Marking, k: int, i: int, j: int): (r: Marking)
    requires Shaped(m) && 0 <= k < |m.d| && 0 <= i < |m.d| && 0 <= j < |m.d|
    ensures Shaped(r) && |r.d| == |m.d|
    ensures r.d[i][j] == m.d[i][j] || r.d[i][j] == -Infinity
    ensures forall x, y :: 0 <= x < |m.d| && 0 <= y < |m.d| && (x != i || y != j) ==> r.d[x][y] == m.d[x][y]
  {
    if m.d[i][k] == Infinity || m.d[k][j] == Infinity then m
    else if m.flagged[i] || m.d[i][k] + m.d[k][j] < m.d[i][j] then
      Marking(m.d[i := m.d[i][j := -Infinity]], m.flagged[j := true])
    else m
  }

  function MarkRowAsWritten(m: Marking, k: int, i: int, j: int): (r: Marking)
    requires Shaped(m) && 0 <= k < |m.d| && 0 <= i < |m.d| && 0 <= j <= |m.d|
    ensures Shaped(r) && |r.d| == |m.d|
    decreases |m.d| - j
  {
    if j == |m.d| then m else MarkRowAsWritten(MarkEntryAsWritten(m, k, i, j), k, i, j + 1)
  }

  function MarkRoundAsWritten(m: Marking, k: int, i: int): (r: Marking)
    requires Shaped(m) && 0 <= k < |m.d| && 0 <= i <= |m.d|
    ensures Shaped(r) && |r.d| == |m.d|
    decreases |m.d| - i
  {
    if i == |m.d| then m else MarkRoundAsWritten(MarkRowAsWritten(m, k, i, 0), k, i + 1)
  }

  function MarkAsWritten(m: Marking, k: int): (r: Marking)
    requires Shaped(m) && 0 <= k <= |m.d|
    ensures Shaped(r) && |r.d| == |m.d|
    decreases |m.d| - k
  {
    if k == |m.d| then m else MarkAsWritten(MarkRoundAsWritten(m, k, 0), k + 1)
  }

  /** The program's result: the tightening phase, then its own marking. */
  function AllPairsAsWritten(g: seq<seq<int>>): (r: seq<seq<int>>)
    requires WellFormed(g)
    ensures Square(r) && |r| == |g|
  {
    var d := Tighten(g, 0);
    MarkAsWritten(Marking(d, seq(|d|, _ => false)), 0).d
  }

  /** In the example below, every walk from vertex 1 stays there at weight 0. */
  lemma StaysAtOne(a: seq<seq<Edge>>, p: seq<Edge>)
    requires |a| == 2 && forall e: Edge :: e in a[1] ==> e.to == 1 && e.weight == 0
    requires IsWalk(a, 1, p)
    ensures End(1, p) == 1 && Weight(p) == 0
  {
    if |p| > 0 {
      StaysAtOne(a, p[..|p| - 1]);
    }
  }

  /** The example's tightened matrix: only the pass through vertex 0 changes anything. */
  lemma ExampleTightened()
    ensures Tighten([[-1, 0], [Infinity, 0]], 0) == [[-2, -2], [Infinity, 0]]
  {
    var g, t := [[-1, 0], [Infinity, 0]], [[-2, -2], [Infinity, 0]];
    assert g[0][0 := -2] == [-2, 0] && [-2, 0][1 := -2] == [-2, -2];
    assert RelaxEntry(g, 0, 0, 0) == [[-2, 0], [Infinity, 0]];
    assert RelaxEntry([[-2, 0], [Infinity, 0]], 0, 0, 1) == t;
    assert RelaxRow(t, 0, 0, 2) == t;
    assert RelaxRow(g, 0, 0, 0) == t;
    assert RelaxEntry(t, 0, 1, 0) == t && RelaxEntry(t, 0, 1, 1) == t;
    assert RelaxRow(t, 0, 1, 2) == t;
    assert RelaxRow(t, 0, 1, 0) == t;
    assert RelaxRound(t, 0, 2) == t;
    assert RelaxRound(g, 0, 0) == t;
    assert RelaxEntry(t, 1, 0, 0) == t && RelaxEntry(t, 1, 0, 1) == t;
    assert RelaxEntry(t, 1, 1, 0) == t && RelaxEntry(t, 1, 1, 1) == t;
    assert RelaxRow(t, 1, 0, 2) == t && RelaxRow(t, 1, 1, 2) == t;
    assert RelaxRow(t, 1, 0, 1) == t && RelaxRow(t, 1, 1, 1) == t;
    assert RelaxRow(t, 1, 0, 0) == t && RelaxRow(t, 1, 1, 0) == t;
    assert RelaxRound(t, 1, 2) == t;
    assert RelaxRound(t, 1, 0) == t;
    assert Tighten(t, 2) == t;
    assert Tighten(t, 1) == t;
  }

  /** The pass through vertex 0 marks row 0 and flags both vertices. */
  lemma ExampleFirstPass()
    ensures MarkRoundAsWritten(Marking([[-2, -2], [Infinity, 0]], [false, false]), 0, 0) ==
            Marking([[-Infinity, -Infinity], [Infinity, 0]], [true, true])
  {
    var t := [[-2, -2], [Infinity, 0]];
    var m0 := Marking(t, [false, false]);
    var ma := Marking([[-Infinity, -2], [Infinity, 0]], [true, false]);
    var mb := Marking([[-Infinity, -Infinity], [Infinity, 0]], [true, true]);
    assert t[0][0 := -Infinity] == [-Infinity, -2] && [false, false][0 := true] == [true, false];
    assert [-Infinity, -2][1 := -Infinity] == [-Infinity, -Infinity] && [true, false][1 := true] == [true, true];
    assert MarkEntryAsWritten(m0, 0, 0, 0) == ma;
    assert MarkEntryAsWritten(ma, 0, 0, 1) == mb;
    assert MarkRowAsWritten(mb, 0, 0, 2) == mb;
    assert MarkRowAsWritten(m0, 0, 0, 0) == mb;
    assert MarkEntryAsWritten(mb, 0, 1, 0) == mb && MarkEntryAsWritten(mb, 0, 1, 1) == mb;
    assert MarkRowAsWritten(mb, 0, 1, 2) == mb;
    assert MarkRowAsWritten(mb, 0, 1, 0) == mb;
    assert MarkRoundAsWritten(mb, 0, 2) == mb;
  }

  /** The pass through vertex 1 marks entry (1, 1) because row 1 is flagged. */
  lemma ExampleSecondPass()
    ensures MarkRoundAsWritten(Marking([[-Infinity, -Infinity], [Infinity, 0]], [true, true]), 1, 0) ==
            Marking([[-Infinity, -Infinity], [Infinity, -Infinity]], [true, true])
  {
    var mb := Marking([[-Infinity, -Infinity], [Infinity, 0]], [true, true]);
    var mc := Marking([[-Infinity, -Infinity], [Infinity, -Infinity]], [true, true]);
    assert [-Infinity, -Infinity][1 := -Infinity] == [-Infinity, -Infinity] && [true, true][1 := true] == [true, true];
    assert [Infinity, 0][1 := -Infinity] == [Infinity, -Infinity];
    assert MarkEntryAsWritten(mb, 1, 0, 0) == mb && MarkEntryAsWritten(mb, 1, 0, 1) == mb;
    assert MarkRowAsWritten(mb, 1, 0, 2) == mb;
    assert MarkRowAsWritten(mb, 1, 0, 0) == mb;
    assert MarkEntryAsWritten(mb, 1, 1, 0) == mb && MarkEntryAsWritten(mb, 1, 1, 1) == mc;
    assert MarkRowAsWritten(mc, 1, 1, 2) == mc;
    assert MarkRowAsWritten(mb, 1, 1, 0) == mc;
    assert MarkRoundAsWritten(mc, 1, 2) == mc;
  }

  /** In the example no walk from vertex 1 meets a negative cycle. */
  lemma ExampleNoCycle()
    ensures var g := [[-1, 0], [Infinity, 0]];
            WellFormed(g) && Moderate(Adj(g), Infinity) && !NegativeCycleReaches(Adj(g), 1, 1)
  {
    var g := [[-1, 0], [Infinity, 0]];
    ExampleModerate(g);
    ExampleUnreached(g);
  }

  /** The example's two finite weights, -1 and 0, are far below `Infinity`. */
  lemma ExampleModerate(g: seq<seq<int>>)
    requires g == [[-1, 0], [Infinity, 0]]
    ensures WellFormed(g) && Moderate(Adj(g), Infinity)
  {
    SmallWeights(g);
  }

  /** A matrix whose finite entries are small is `Moderate` as a graph. */
  lemma SmallWeights(g: seq<seq<int>>)
    requires WellFormed(g)
    requires forall i, j :: 0 <= i < |g| && 0 <= j < |g| && g[i][j] < Infinity ==> |g| * Abs(g[i][j]) < Infinity
    ensures Moderate(Adj(g), Infinity)
  {
    var a: seq<seq<Edge>> := Adj(g);
    forall u: int, k: int | 0 <= u < |a| && 0 <= k < |a[u]|
      ensures |a| * Abs(a[u][k].weight) < Infinity
    {
      assert a[u][k] in a[u];
    }
  }

  /** Every walk from vertex 1 stays on its zero-weight loop. */
  lemma ExampleUnreached(g: seq<seq<int>>)
    requires g == [[-1, 0], [Infinity, 0]]
    ensures !NegativeCycleReaches(Adj(g), 1, 1)
  {
    var a := Adj(g);
    assert forall e: Edge :: e in a[1] ==> e.to == 1 && e.weight == 0;
    forall z, p, c | WalkTo(a, 1, p, z) && WalkTo(a, z, c, z)
      ensures Weight(c) >= 0
    {
      StaysAtOne(a, p);
      StaysAtOne(a, c);
    }
  }

  /**
   * The program's marking sets an entry to `-Infinity` when its row was
   * flagged by an earlier column, that is, when a negative cycle reaches
   * `i` rather than lies between `i` and `j`.  Here vertex 0 has a loop of
   * weight -1 and an edge to vertex 1, which has only its own zero-weight
   * loop: entry `(1, 1)` comes out `-Infinity` though no walk from 1 meets
   * a negative cycle, while the corrected marking gives 0.
   */
  lemma AsWrittenMarksUnreached()
    ensures var g := [[-1, 0], [Infinity, 0]];
            WellFormed(g) && Moderate(Adj(g), Infinity) && !NegativeCycleReaches(Adj(g), 1, 1) &&
            AllPairsAsWritten(g)[1][1] == -Infinity && AllPairs(g)[1][1] == 0
  {
    var g, t := [[-1, 0], [Infinity, 0]], [[-2, -2], [Infinity, 0]];
    var mb := Marking([[-Infinity, -Infinity], [Infinity, 0]], [true, true]);
    var mc := Marking([[-Infinity, -Infinity], [Infinity, -Infinity]], [true, true]);
    ExampleNoCycle();
    ExampleTightened();
    ExampleFirstPass();
    ExampleSecondPass();
    assert seq(2, _ => false) == [false, false];
    assert MarkAsWritten(mc, 2) == mc;
    assert MarkAsWritten(mb, 1) == mc;
    assert MarkAsWritten(Marking(t, [false, false]), 0) == mc;
    assert !NegVia(t, 1, 1, 0);
  }

  // The second example: a negative loop at vertex 1 between 0 and itself.

  /** Arcs 0 -> 1 and 1 -> 0 of weight 1 and a loop of weight -1 at vertex 1 tighten to [[0, 0], [0, -2]]. */
  lemma LoopTightened()
    ensures Tighten([[0, 1], [1, -1]], 0) == [[0, 0], [0, -2]]
  {
    var g, t := [[0, 1], [1, -1]], [[0, 0], [0, -2]];
    var h := [[0, 0], [1, -1]];
    var h' := [[0, 0], [0, -1]];
    assert RelaxEntry(g, 0, 0, 0) == g && RelaxEntry(g, 0, 0, 1) == g;
    assert RelaxEntry(g, 0, 1, 0) == g && RelaxEntry(g, 0, 1, 1) == g;
    assert RelaxRow(g, 0, 0, 2) == g && RelaxRow(g, 0, 1, 2) == g;
    assert RelaxRow(g, 0, 0, 1) == g && RelaxRow(g, 0, 1, 1) == g;
    assert RelaxRow(g, 0, 0, 0) == g && RelaxRow(g, 0, 1, 0) == g;
    assert RelaxRound(g, 0, 2) == g;
    assert RelaxRound(g, 0, 0) == g;
    assert [0, 1][1 := 0] == [0, 0] && [1, -1][0 := 0] == [0, -1] && [0, -1][1 := -2] == [0, -2];
    assert RelaxEntry(g, 1, 0, 0) == g && RelaxEntry(g, 1, 0, 1) == h;
    assert RelaxRow(h, 1, 0, 2) == h;
    assert RelaxRow(g, 1, 0, 0) == h;
    assert RelaxEntry(h, 1, 1, 0) == h' && RelaxEntry(h', 1, 1, 1) == t;
    assert RelaxRow(t, 1, 1, 2) == t;
    assert RelaxRow(h, 1, 1, 0) == t;
    assert RelaxRound(t, 1, 2) == t;
    assert RelaxRound(g, 1, 0) == t;
    assert Tighten(t, 2) == t;
    assert Tighten(g, 1) == t;
  }

  /** The pass through vertex 0 changes nothing: no entry is flagged or shortened. */
  lemma LoopFirstPass()
    ensures MarkRoundAsWritten(Marking([[0, 0], [0, -2]], [false, false]), 0, 0) ==
            Marking([[0, 0], [0, -2]], [false, false])
  {
    var m := Marking([[0, 0], [0, -2]], [false, false]);
    assert MarkEntryAsWritten(m, 0, 0, 0) == m && MarkEntryAsWritten(m, 0, 0, 1) == m;
    assert MarkEntryAsWritten(m, 0, 1, 0) == m && MarkEntryAsWritten(m, 0, 1, 1) == m;
    assert MarkRowAsWritten(m, 0, 0, 2) == m && MarkRowAsWritten(m, 0, 1, 2) == m;
    assert MarkRowAsWritten(m, 0, 0, 1) == m && MarkRowAsWritten(m, 0, 1, 1) == m;
    assert MarkRowAsWritten(m, 0, 0, 0) == m && MarkRowAsWritten(m, 0, 1, 0) == m;
    assert MarkRoundAsWritten(m, 0, 2) == m;
  }

  /**
   * The pass through vertex 1 skips entry (0, 0), which is read before any
   * flag is raised and whose route through 1 is not shorter, and then marks
   * the rest.
   */
  lemma LoopSecondPass()
    ensures MarkRoundAsWritten(Marking([[0, 0], [0, -2]], [false, false]), 1, 0).d[0][0] == 0
  {
    var m := Marking([[0, 0], [0, -2]], [false, false]);
    var ma := Marking([[0, -Infinity], [0, -2]], [false, true]);
    var mb := Marking([[0, -Infinity], [-Infinity, -2]], [true, true]);
    var mc := Marking([[0, -Infinity], [-Infinity, -Infinity]], [true, true]);
    assert [0, 0][1 := -Infinity] == [0, -Infinity] && [false, false][1 := true] == [false, true];
    assert [0, -2][0 := -Infinity] == [-Infinity, -2] && [false, true][0 := true] == [true, true];
    assert [-Infinity, -2][1 := -Infinity] == [-Infinity, -Infinity] && [true, true][1 := true] == [true, true];
    assert MarkEntryAsWritten(m, 1, 0, 0) == m && MarkEntryAsWritten(m, 1, 0, 1) == ma;
    assert MarkRowAsWritten(ma, 1, 0, 2) == ma;
    assert MarkRowAsWritten(m, 1, 0, 0) == ma;
    assert MarkEntryAsWritten(ma, 1, 1, 0) == mb && MarkEntryAsWritten(mb, 1, 1, 1) == mc;
    assert MarkRowAsWritten(mc, 1, 1, 2) == mc;
    assert MarkRowAsWritten(ma, 1, 1, 0) == mc;
    assert MarkRoundAsWritten(mc, 1, 2) == mc;
  }

  /**
   * The program's marking also misses entries: a flag raised on column `j`
   * is read only by later rows, and the shorter-route test needs the route
   * through `k` to beat the entry.  Here 0 -> 1 -> 1 -> 0 goes round the
   * loop at 1 as often as wanted, so entry (0, 0) should be `-Infinity`,
   * but the program leaves it at 0; the corrected marking gives `-Infinity`.
   */
  lemma AsWrittenMissesCycle()
    ensures var g := [[0, 1], [1, -1]];
            WellFormed(g) && Moderate(Adj(g), Infinity) && NegativeCycleReaches(Adj(g), 0, 0) &&
            AllPairsAsWritten(g)[0][0] == 0 && AllPairs(g)[0][0] == -Infinity
  {
    var g := [[0, 1], [1, -1]];
    LoopAsWritten(g);
    LoopCorrected(g);
  }

  /** The program leaves entry (0, 0) of the example at 0. */
  lemma LoopAsWritten(g: seq<seq<int>>)
    requires g == [[0, 1], [1, -1]]
    ensures WellFormed(g) && AllPairsAsWritten(g)[0][0] == 0
  {
    var t := [[0, 0], [0, -2]];
    var m := Marking(t, [false, false]);
    LoopTightened();
    LoopFirstPass();
    LoopSecondPass();
    var mr := MarkRoundAsWritten(m, 1, 0);
    assert seq(2, _ => false) == [false, false];
    assert MarkAsWritten(mr, 2) == mr;
    assert MarkAsWritten(m, 1) == mr;
    assert MarkAsWritten(m, 0) == mr;
  }

  /** The corrected marking sets entry (0, 0) of the example to `-Infinity`, as the loop at 1 demands. */
  lemma LoopCorrected(g: seq<seq<int>>)
    requires g == [[0, 1], [1, -1]]
    ensures WellFormed(g) && Moderate(Adj(g), Infinity)
    ensures NegativeCycleReaches(Adj(g), 0, 0) && AllPairs(g)[0][0] == -Infinity
  {
    SmallWeights(g);
    LoopTightened();
    assert Detour(Tighten(g, 0), 0, 0, 1);
    DetourMarked(g, 0, 0, 1);
  }

  /** A detour in the tightened matrix is a negative cycle between its ends, and the entry is marked. */
  lemma DetourMarked(g: seq<seq<int>>, i: int, j: int, k: int)
    requires WellFormed(g) && Moderate(Adj(g), Infinity) && 0 <= i < |g| && 0 <= j < |g| && 0 <= k < |g|
    requires Detour(Tighten(g, 0), i, j, k)
    ensures NegativeCycleReaches(Adj(g), i, j) && AllPairs(g)[i][j] == -Infinity
  {
    TightenSound(g);
    EntryCorrect(Adj(g), Tighten(g, 0), i, j);
  }
}
