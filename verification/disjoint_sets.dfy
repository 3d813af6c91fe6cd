/**
 * Union-find with union by size (Lab1/task1.4/disjoint_sets.cc, and the copy
 * with `Count` in Lab2/task2.5/minspantree.cc).  Each element points at its
 * parent; a root points at itself and records the size of its tree.  `Find`
 * follows parents without path compression.
 */
module DisjointSets {
  import opened Common

  datatype DisjointSet = DisjointSet(parent: seq<int>, size: seq<int>)

  /**
   * Parents are elements, sizes are positive, and a parent's recorded size
   * exceeds its child's: union by size only ever hangs a tree under a root
   * at least as large, whose size then grows by the child's.
   */
  ghost predicate Valid(ds: DisjointSet)
  {
    |ds.parent| == |ds.size| && forall x :: 0 <= x < |ds.parent| ==> Linked(ds, x)
  }

  /** The conditions `Valid` places on one element. */
  ghost predicate Linked(ds: DisjointSet, x: int)
    requires |ds.parent| == |ds.size| && 0 <= x < |ds.parent|
  {
    0 <= ds.parent[x] < |ds.parent| && ds.size[x] >= 1 &&
    (ds.parent[x] != x ==> ds.size[ds.parent[x]] > ds.size[x])
  }

  /** The largest recorded size, bounding every chain of growing sizes. */
  function MaxSize(s: seq<int>): (r: int)
    ensures forall k :: 0 <= k < |s| ==> s[k] <= r
  {
    if |s| == 0 then 0
    else
      var rest := MaxSize(s[1..]);
      assert forall k :: 1 <= k < |s| ==> s[k] == s[1..][k - 1];
      if s[0] >= rest then s[0] else rest
  }

  /** `n` singleton sets: every element is its own root, of size 1. */
  function New(n: int): (ds: DisjointSet)
    requires n >= 0
    ensures Valid(ds) && |ds.parent| == n
    ensures forall x :: 0 <= x < n ==> ds.parent[x] == x
  {
    DisjointSet(seq(n, i => i), seq(n, _ => 1))
  }

  /** The root of the tree holding `a`, found by following parents. */
  function Find(ds: DisjointSet, a: int): (r: int)
    requires Valid(ds) && 0 <= a < |ds.parent|
    ensures 0 <= r < |ds.parent| && ds.parent[r] == r
    ensures ds.parent[a] == a ==> r == a
    decreases MaxSize(ds.size) - ds.size[a]
  {
    assert Linked(ds, a);
    if a == ds.parent[a] then a else Find(ds, ds.parent[a])
  }

  /** Whether `a` and `b` are in the same set. */
  function Same(ds: DisjointSet, a: int, b: int): bool
    requires Valid(ds) && 0 <= a < |ds.parent| && 0 <= b < |ds.parent|
  {
    a == b || Find(ds, a) == Find(ds, b)
  }

  /** Of two roots, the one `Union` hangs under the other: the smaller tree, `rb` on a tie. */
  function Smaller(ds: DisjointSet, ra: int, rb: int): int
    requires 0 <= ra < |ds.size| && 0 <= rb < |ds.size|
  {
    if ds.size[ra] < ds.size[rb] then ra else rb
  }

  function Larger(ds: DisjointSet, ra: int, rb: int): int
    requires 0 <= ra < |ds.size| && 0 <= rb < |ds.size|
  {
    if ds.size[ra] < ds.size[rb] then rb else ra
  }

  /**
   * Merges the sets of `a` and `b`: the root of the smaller tree (`b`'s on a
   * tie) is hung under the other root, whose size becomes the sum.
   */
  function Union(ds: DisjointSet, a: int, b: int): (r: DisjointSet)
    requires Valid(ds) && 0 <= a < |ds.parent| && 0 <= b < |ds.parent|
    ensures Valid(r) && |r.parent| == |ds.parent|
    ensures Same(ds, a, b) ==> r == ds
    ensures !Same(ds, a, b) ==>
              var ra, rb := Find(ds, a), Find(ds, b);
              var small, large := Smaller(ds, ra, rb), Larger(ds, ra, rb);
              r.parent[small] == large && r.size[large] == ds.size[ra] + ds.size[rb] &&
              (forall x :: 0 <= x < |ds.parent| && x != small ==> r.parent[x] == ds.parent[x]) &&
              (forall x :: 0 <= x < |ds.parent| && x != large ==> r.size[x] == ds.size[x])
  {
    if a == b then ds
    else
      var rootA, rootB := Find(ds, a), Find(ds, b);
      if rootA == rootB then ds
      else
        var small, large := Smaller(ds, rootA, rootB), Larger(ds, rootA, rootB);
        LinkValid(ds, small, large);
        DisjointSet(ds.parent[small := large], ds.size[large := ds.size[large] + ds.size[small]])
  }

  /** Hanging a root under a root at least as large keeps the structure valid. */
  lemma LinkValid(ds: DisjointSet, small: int, large: int)
    requires Valid(ds) && 0 <= small < |ds.parent| && 0 <= large < |ds.parent| && small != large
    requires ds.parent[small] == small && ds.parent[large] == large && ds.size[small] <= ds.size[large]
    ensures Valid(DisjointSet(ds.parent[small := large], ds.size[large := ds.size[large] + ds.size[small]]))
  {
    var r := DisjointSet(ds.parent[small := large], ds.size[large := ds.size[large] + ds.size[small]]);
    assert Linked(ds, small) && Linked(ds, large);
    forall x | 0 <= x < |r.parent|
      ensures Linked(r, x)
    {
      assert Linked(ds, x);
      if ds.parent[x] != x {
        assert Linked(ds, ds.parent[x]);
      }
    }
  }

  /** The number of sets: the number of distinct roots `Find` reaches. */
  function Count(ds: DisjointSet): int
    requires Valid(ds)
  {
    |FoundRoots(ds)|
  }

  /** The roots `Find` reaches from the elements, collected in a set as the source does. */
  function FoundRoots(ds: DisjointSet): set<int>
    requires Valid(ds)
  {
    set i | 0 <= i < |ds.parent| :: Find(ds, i)
  }

  /** The roots of `ds`. */
  ghost function Roots(ds: DisjointSet): set<int>
  {
    set r | 0 <= r < |ds.parent| && ds.parent[r] == r
  }

  // ---------------------------------------------------------------------
  // Properties
  // ---------------------------------------------------------------------

  /** `Same` is `Find` agreement; the `a == b` shortcut agrees with it. */
  lemma SameIsFind(ds: DisjointSet, a: int, b: int)
    requires Valid(ds) && 0 <= a < |ds.parent| && 0 <= b < |ds.parent|
    ensures Same(ds, a, b) <==> Find(ds, a) == Find(ds, b)
  {
  }

  /** A fresh structure keeps every element apart. */
  lemma NewSame(n: int, a: int, b: int)
    requires n >= 0 && 0 <= a < n && 0 <= b < n
    ensures Same(New(n), a, b) <==> a == b
  {
  }

  /** Being in the same set is an equivalence relation. */
  lemma SameEquivalence(ds: DisjointSet, a: int, b: int, c: int)
    requires Valid(ds) && 0 <= a < |ds.parent| && 0 <= b < |ds.parent| && 0 <= c < |ds.parent|
    ensures Same(ds, a, a)
    ensures Same(ds, a, b) ==> Same(ds, b, a)
    ensures Same(ds, a, b) && Same(ds, b, c) ==> Same(ds, a, c)
  {
  }

  /**
   * After hanging root `small` under root `large`, the elements that found
   * `small` find `large`, and every other element finds what it found.
   */
  lemma {:induction false} FindAfterLink(ds: DisjointSet, r: DisjointSet, small: int, large: int, x: int)
    requires Valid(ds) && Valid(r) && |r.parent| == |ds.parent| && 0 <= x < |ds.parent|
    requires 0 <= small < |ds.parent| && 0 <= large < |ds.parent| && small != large
    requires ds.parent[small] == small && ds.parent[large] == large
    requires r.parent == ds.parent[small := large]
    ensures Find(r, x) == if Find(ds, x) == small then large else Find(ds, x)
    decreases MaxSize(ds.size) - ds.size[x]
  {
    assert Linked(ds, x);
    if ds.parent[x] != x {
      FindAfterLink(ds, r, small, large, ds.parent[x]);
    } else if x == small {
      assert r.parent[large] == large;
    }
  }

  /**
   * After `Union(a, b)` two elements are together exactly when they were
   * together before, or one was with `a` and the other with `b`.
   */
  lemma UnionSame(ds: DisjointSet, a: int, b: int, x: int, y: int)
    requires Valid(ds) && 0 <= a < |ds.parent| && 0 <= b < |ds.parent|
    requires 0 <= x < |ds.parent| && 0 <= y < |ds.parent|
    ensures Same(Union(ds, a, b), x, y) <==>
              Same(ds, x, y) || (Same(ds, x, a) && Same(ds, y, b)) || (Same(ds, x, b) && Same(ds, y, a))
  {
    var r := Union(ds, a, b);
    var ra, rb, fx, fy := Find(ds, a), Find(ds, b), Find(ds, x), Find(ds, y);
    if ra != rb {
      var small, large := Smaller(ds, ra, rb), Larger(ds, ra, rb);
      assert r.parent == ds.parent[small := large];
      FindAfterLink(ds, r, small, large, x);
      FindAfterLink(ds, r, small, large, y);
      LinkedRoots(fx, fy, ra, rb, small, large);
    }
  }

  /** The root bookkeeping behind `UnionSame`, with the structure abstracted away. */
  lemma LinkedRoots(fx: int, fy: int, ra: int, rb: int, small: int, large: int)
    requires ra != rb && ((small == ra && large == rb) || (small == rb && large == ra))
    ensures (if fx == small then large else fx) == (if fy == small then large else fy) <==>
              fx == fy || (fx == ra && fy == rb) || (fx == rb && fy == ra)
  {
  }

  /** Every element finds a root, and every root finds itself. */
  lemma FindsAreRoots(ds: DisjointSet)
    requires Valid(ds)
    ensures FoundRoots(ds) == Roots(ds)
  {
    var finds := FoundRoots(ds);
    forall r | r in Roots(ds)
      ensures r in finds
    {
      assert Find(ds, r) == r;
    }
    forall r | r in finds
      ensures r in Roots(ds)
    {
      var i :| 0 <= i < |ds.parent| && Find(ds, i) == r;
    }
  }

  /** The number of sets is the number of roots, between 1 and `n` for `n >= 1`. */
  lemma CountIsRoots(ds: DisjointSet)
    requires Valid(ds)
    ensures Count(ds) == |Roots(ds)|
    ensures |ds.parent| >= 1 ==> 1 <= Count(ds) <= |ds.parent|
  {
    FindsAreRoots(ds);
    if |ds.parent| >= 1 {
      assert Find(ds, 0) in Roots(ds);
      SubsetOfRangeCard(Roots(ds), |ds.parent|);
    }
  }

  /** When every element is its own parent there are as many roots as elements. */
  lemma {:induction false} AllRootsCard(p: seq<int>)
    requires forall i :: 0 <= i < |p| ==> p[i] == i
    ensures |set r | 0 <= r < |p| && p[r] == r| == |p|
  {
    if |p| > 0 {
      var q := p[..|p| - 1];
      AllRootsCard(q);
      assert (set r | 0 <= r < |p| && p[r] == r) == (set r | 0 <= r < |q| && q[r] == r) + {|p| - 1};
    }
  }

  /** A fresh structure has `n` sets. */
  lemma CountNew(n: int)
    requires n >= 0
    ensures Count(New(n)) == n
  {
    var ds := New(n);
    CountIsRoots(ds);
    AllRootsCard(ds.parent);
  }

  /** Merging two different sets leaves one set fewer. */
  lemma CountUnion(ds: DisjointSet, a: int, b: int)
    requires Valid(ds) && 0 <= a < |ds.parent| && 0 <= b < |ds.parent|
    ensures !Same(ds, a, b) ==> Count(Union(ds, a, b)) == Count(ds) - 1
    ensures Same(ds, a, b) ==> Count(Union(ds, a, b)) == Count(ds)
  {
    var r := Union(ds, a, b);
    CountIsRoots(ds);
    CountIsRoots(r);
    if !Same(ds, a, b) {
      var ra, rb := Find(ds, a), Find(ds, b);
      var small := if ds.size[ra] < ds.size[rb] then ra else rb;
      assert Roots(r) == Roots(ds) - {small};
    }
  }

  /** There is exactly one set iff there are elements and all of them are in the same set. */
  lemma CountOne(ds: DisjointSet)
    requires Valid(ds)
    ensures Count(ds) == 1 <==>
              |ds.parent| >= 1 && forall x, y :: 0 <= x < |ds.parent| && 0 <= y < |ds.parent| ==> Same(ds, x, y)
  {
    CountIsRoots(ds);
    FindsAreRoots(ds);
    var n := |ds.parent|;
    if n >= 1 {
      var r0 := Find(ds, 0);
      if forall x, y :: 0 <= x < n && 0 <= y < n ==> Same(ds, x, y) {
        forall r | r in Roots(ds)
          ensures r == r0
        {
          SameIsFind(ds, r, 0);
        }
        assert Roots(ds) == {r0};
      }
      if Count(ds) == 1 {
        forall x, y | 0 <= x < n && 0 <= y < n
          ensures Same(ds, x, y)
        {
          var fx, fy := Find(ds, x), Find(ds, y);
          assert fx in FoundRoots(ds) && fy in FoundRoots(ds);
          assert FoundRoots(ds) == {fx} by {
            var s := FoundRoots(ds);
            assert |s - {fx}| == 0;
          }
        }
      }
    } else {
      assert Roots(ds) == {};
    }
  }
}
