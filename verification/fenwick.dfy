/**
 * A Fenwick tree over `n` integers (Lab1/task1.5/predix_sums.cc).  The
 * program keeps `n_ = n + 1` and a vector `arr_` of `n_` entries; entry
 * `i >= 1` holds the sum of the `Lowbit(i)` array values ending just
 * before position `i`, and entry 0 is never used.
 */
module Fenwick {
  import opened Common

  datatype FenwickTree = FenwickTree(arr: seq<int>)

  /** `i & -i` for positive `i`: the largest power of two dividing `i`. */
  function Lowbit(i: int): (r: int)
    requires i > 0
    ensures 1 <= r <= i
  {
    if i % 2 == 1 then 1 else 2 * Lowbit(i / 2)
  }

  /** `Lowbit(i)` divides `i` an odd number of times: it is the lowest set bit of `i`. */
  lemma {:induction false} LowbitIsLowestBit(i: int) returns (q: int)
    requires i > 0
    ensures i == Lowbit(i) * q && q % 2 == 1
    decreases i
  {
    if i % 2 == 1 {
      q := i;
    } else {
      q := LowbitIsLowestBit(i / 2);
      assert i == 2 * (i / 2);
    }
  }

  function Total(a: seq<int>): int
  {
    if |a| == 0 then 0 else Total(a[..|a| - 1]) + a[|a| - 1]
  }

  lemma {:induction false} TotalConcat(a: seq<int>, b: seq<int>)
    ensures Total(a + b) == Total(a) + Total(b)
    decreases |b|
  {
    if |b| == 0 {
      assert a + b == a;
    } else {
      var n := |b| - 1;
      assert (a + b)[..|a + b| - 1] == a + b[..n];
      TotalConcat(a, b[..n]);
    }
  }

  /** The sum over `a[lo..hi]` splits at any `mid` in between. */
  lemma TotalSplit(a: seq<int>, lo: int, mid: int, hi: int)
    requires 0 <= lo <= mid <= hi <= |a|
    ensures Total(a[lo..hi]) == Total(a[lo..mid]) + Total(a[mid..hi])
  {
    assert a[lo..hi] == a[lo..mid] + a[mid..hi];
    TotalConcat(a[lo..mid], a[mid..hi]);
  }

  /** Raising one value raises exactly the range sums that contain it. */
  lemma {:induction false} TotalBump(a: seq<int>, k: int, d: int, lo: int, hi: int)
    requires 0 <= k < |a| && 0 <= lo <= hi <= |a|
    ensures Total(a[k := a[k] + d][lo..hi]) == Total(a[lo..hi]) + (if lo <= k < hi then d else 0)
    decreases hi - lo
  {
    var b := a[k := a[k] + d];
    if lo < hi {
      TotalSplit(a, lo, hi - 1, hi);
      TotalSplit(b, lo, hi - 1, hi);
      assert a[hi - 1..hi] == [a[hi - 1]] && b[hi - 1..hi] == [b[hi - 1]];
      TotalBump(a, k, d, lo, hi - 1);
    }
  }

  lemma {:induction false} TotalZero(a: seq<int>)
    requires forall k :: 0 <= k < |a| ==> a[k] == 0
    ensures Total(a) == 0
  {
    if |a| > 0 {
      TotalZero(a[..|a| - 1]);
    }
  }

  /** Entry `i` of the tree covers the values at positions `i - Lowbit(i) .. i - 1`. */
  predicate Covers(i: int, k: int)
  {
    i > 0 && i - Lowbit(i) <= k < i
  }

  /** The tree's invariant: it stores the range sums of the array `a`. */
  ghost predicate Represents(t: FenwickTree, a: seq<int>)
  {
    |t.arr| == |a| + 1 &&
    forall i :: 1 <= i <= |a| ==> t.arr[i] == Total(a[i - Lowbit(i)..i])
  }

  /** The constructor: `n + 1` zero entries. */
  function Create(n: nat): (t: FenwickTree)
    ensures Represents(t, seq(n, _ => 0))
  {
    var t := FenwickTree(seq(n + 1, _ => 0));
    var a: seq<int> := seq(n, _ => 0);
    assert forall i :: 1 <= i <= n ==> Total(a[i - Lowbit(i)..i]) == 0 by {
      forall i | 1 <= i <= n
        ensures Total(a[i - Lowbit(i)..i]) == 0
      {
        TotalZero(a[i - Lowbit(i)..i]);
      }
    }
    t
  }

  /** `Sum(index)`: add the entries down the chain `index, index - Lowbit(index), ...`. */
  function Sum(t: FenwickTree, index: int): int
    requires 0 <= index < |t.arr|
    decreases index
  {
    if index == 0 then 0 else t.arr[index] + Sum(t, index - Lowbit(index))
  }

  /** The chain walked by `Sum` adds up exactly the first `index` values. */
  lemma {:induction false} SumIsPrefix(t: FenwickTree, a: seq<int>, index: int)
    requires Represents(t, a) && 0 <= index <= |a|
    ensures Sum(t, index) == Total(a[..index])
    decreases index
  {
    if index > 0 {
      var lo := index - Lowbit(index);
      SumIsPrefix(t, a, lo);
      TotalSplit(a, 0, lo, index);
      assert a[..index] == a[0..index] && a[..lo] == a[0..lo];
    }
  }

  /** A new tree answers zero for every prefix. */
  lemma CreateSumsZero(n: nat, index: int)
    requires 0 <= index <= n
    ensures Sum(Create(n), index) == 0
  {
    var a: seq<int> := seq(n, _ => 0);
    SumIsPrefix(Create(n), a, index);
    TotalZero(a[..index]);
  }

  // ---------------------------------------------------------------------
  // Add
  // ---------------------------------------------------------------------

  /** Doubling: the entry after `i` in the chain has at least twice `i`'s low bit. */
  lemma {:induction false} LowbitNext(i: int)
    requires i > 0
    ensures Lowbit(i + Lowbit(i)) >= 2 * Lowbit(i)
    decreases i
  {
    if i % 2 == 0 {
      LowbitNext(i / 2);
      assert i + Lowbit(i) == 2 * (i / 2 + Lowbit(i / 2));
      assert (i + Lowbit(i)) / 2 == i / 2 + Lowbit(i / 2);
    }
  }

  /** No entry strictly between `i` and the next chain entry reaches back past `i`. */
  lemma {:induction false} LowbitGap(i: int, j: int)
    requires 0 < i < j < i + Lowbit(i)
    ensures j - Lowbit(j) >= i
    decreases i
  {
    if i % 2 == 0 && j % 2 == 0 {
      LowbitGap(i / 2, j / 2);
    }
  }

  /** The chain walked by `Add` from `index + 1` visits exactly the entries covering `index`. */
  lemma ChainStep(i: int, k: int, j: int)
    requires Covers(i, k) && 0 < j
    ensures Covers(i + Lowbit(i), k)
    ensures i < j < i + Lowbit(i) ==> !Covers(j, k)
  {
    LowbitNext(i);
    if i < j < i + Lowbit(i) {
      LowbitGap(i, j);
    }
  }

  /** `r` is `t` with `d` added to every entry that covers position `k`. */
  predicate Bumped(t: seq<int>, r: seq<int>, k: int, d: int)
  {
    |r| == |t| > 0 && r[0] == t[0] &&
    forall j :: 1 <= j < |t| ==> r[j] == t[j] + (if Covers(j, k) then d else 0)
  }

  /**
   * `Add(index, delta)`, with the loop stopping at the last entry of
   * `arr_`: the entries covering `index` grow by `delta`, the others stay.
   */
  method Add(t: FenwickTree, index: int, delta: int) returns (r: FenwickTree)
    requires 0 <= index < |t.arr| - 1
    ensures Bumped(t.arr, r.arr, index, delta)
  {
    var arr := t.arr;
    var i := index + 1;
    while i < |arr|
      invariant |arr| == |t.arr| && arr[0] == t.arr[0]
      invariant Covers(i, index)
      invariant forall j :: 1 <= j < |t.arr| ==>
                  arr[j] == t.arr[j] + (if j < i && Covers(j, index) then delta else 0)
      decreases |arr| - i
    {
      arr := arr[i := arr[i] + delta];
      forall j | i < j < i + Lowbit(i)
        ensures !Covers(j, index)
      {
        ChainStep(i, index, j);
      }
      ChainStep(i, index, i + Lowbit(i));
      i := i + Lowbit(i);
    }
    r := FenwickTree(arr);
  }

  /** After `Add(k, d)` the tree stores the array with `d` added at `k`, and prefix sums past `k` grow by `d`. */
  lemma AddKeeps(t: FenwickTree, r: FenwickTree, a: seq<int>, k: int, d: int)
    requires Represents(t, a) && 0 <= k < |a| && Bumped(t.arr, r.arr, k, d)
    ensures Represents(r, a[k := a[k] + d])
    ensures forall j :: 0 <= j <= |a| ==> Sum(r, j) == Sum(t, j) + (if k < j then d else 0)
  {
    var b := a[k := a[k] + d];
    forall i | 1 <= i <= |a|
      ensures r.arr[i] == Total(b[i - Lowbit(i)..i])
    {
      TotalBump(a, k, d, i - Lowbit(i), i);
    }
    forall j | 0 <= j <= |a|
      ensures Sum(r, j) == Sum(t, j) + (if k < j then d else 0)
    {
      SumIsPrefix(t, a, j);
      SumIsPrefix(r, b, j);
      TotalBump(a, k, d, 0, j);
      assert a[..j] == a[0..j] && b[..j] == b[0..j];
    }
  }

  /**
   * The loop as written, guarded by `i <= n_`: a write at index `n_`
   * falls outside `arr_` and yields `None`.
   */
  function AddAsWritten(arr: seq<int>, i: int, delta: int): (r: Option<seq<int>>)
    requires i > 0
    ensures r.Some? ==> |r.value| == |arr|
    decreases |arr| + 1 - i
  {
    if i > |arr| then Some(arr)
    else if i == |arr| then None
    else AddAsWritten(arr[i := arr[i] + delta], i + Lowbit(i), delta)
  }

  /** The tree of one value starts as two zero entries. */
  lemma CreateOne()
    ensures Create(1).arr == [0, 0]
  {
    assert Create(1).arr == seq(2, _ => 0);
  }

  /**
   * On the tree of one value, `[0, 0]` as `CreateOne` shows, adding at
   * index 0 visits entry 1 and then entry 2, one past the end of the
   * two-entry `arr_`; the corrected loop stops after entry 1.
   */
  lemma AsWrittenOverruns(delta: int)
    ensures AddAsWritten([0, 0], 0 + 1, delta) == None
    ensures Bumped([0, 0], [0, delta], 0, delta)
  {
    assert Lowbit(1) == 1;
    assert Covers(1, 0);
    assert [0, 0][1 := 0 + delta] == [0, delta];
    assert AddAsWritten([0, delta], 2, delta) == None;
  }
}
