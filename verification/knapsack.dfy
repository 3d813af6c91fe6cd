/**
 * 0/1 knapsack by dynamic programming over (items considered, capacity left),
 * followed by a walk back through the table that recovers the chosen items
 * (Lab1/task1.2/knapsack.cc).
 */
module Knapsack {

  function Max(a: int, b: int): int
  {
    if a >= b then a else b
  }

  /** Item weights are never negative: the table is indexed by `c - weight`. */
  predicate WellFormed(value: seq<int>, weight: seq<int>)
  {
    |value| == |weight| && forall k :: 0 <= k < |weight| ==> weight[k] >= 0
  }

  /**
   * The source's table entry `dp[i][c]`: the best value from the first `i`
   * items within capacity `c`, by the recurrence the source fills the table
   * with.  Column 0 is never filled and stays 0.
   */
  ghost function Table(value: seq<int>, weight: seq<int>, i: int, c: int): int
    requires WellFormed(value, weight) && 0 <= i <= |value| && c >= 0
    decreases i
  {
    if i == 0 || c == 0 then 0
    else if weight[i - 1] > c then Table(value, weight, i - 1, c)
    else Max(value[i - 1] + Table(value, weight, i - 1, c - weight[i - 1]), Table(value, weight, i - 1, c))
  }

  /** A choice of items: distinct indices below `i`, listed in decreasing order. */
  predicate Selection(s: seq<int>, i: int)
  {
    (forall k :: 0 <= k < |s| ==> 0 <= s[k] < i) &&
    (forall a, b :: 0 <= a < b < |s| ==> s[a] > s[b])
  }

  /** The sum of `x` over the chosen indices. */
  function Total(x: seq<int>, s: seq<int>): int
    requires forall k :: 0 <= k < |s| ==> 0 <= s[k] < |x|
  {
    if |s| == 0 then 0 else x[s[0]] + Total(x, s[1..])
  }

  lemma {:induction false} TotalAppend(x: seq<int>, s: seq<int>, j: int)
    requires forall k :: 0 <= k < |s| ==> 0 <= s[k] < |x|
    requires 0 <= j < |x|
    ensures Total(x, s + [j]) == Total(x, s) + x[j]
  {
    if |s| > 0 {
      assert (s + [j])[1..] == s[1..] + [j];
      TotalAppend(x, s[1..], j);
    }
  }

  lemma {:induction false} TotalNonNegative(x: seq<int>, s: seq<int>)
    requires forall k :: 0 <= k < |s| ==> 0 <= s[k] < |x|
    requires forall k :: 0 <= k < |x| ==> x[k] >= 0
    ensures Total(x, s) >= 0
  {
    if |s| > 0 {
      TotalNonNegative(x, s[1..]);
    }
  }

  /** Leaving every item out is always possible, so no entry is negative. */
  lemma {:induction false} TableNonNegative(value: seq<int>, weight: seq<int>, i: int, c: int)
    requires WellFormed(value, weight) && 0 <= i <= |value| && c >= 0
    ensures Table(value, weight, i, c) >= 0
    decreases i
  {
    if i > 0 && c > 0 {
      TableNonNegative(value, weight, i - 1, c);
    }
  }

  /**
   * With every weight at least 1 the table is optimal: no choice of the
   * first `i` items that fits in `c` is worth more than `Table(i, c)`.
   */
  lemma {:induction false} TableOptimal(value: seq<int>, weight: seq<int>, i: int, c: int, s: seq<int>)
    requires WellFormed(value, weight) && 0 <= i <= |value| && c >= 0
    requires forall k :: 0 <= k < |weight| ==> weight[k] >= 1
    requires Selection(s, i) && Total(weight, s) <= c
    ensures Total(value, s) <= Table(value, weight, i, c)
    decreases i
  {
    if |s| == 0 {
      TableNonNegative(value, weight, i, c);
      return;
    }
    var rest := s[1..];
    assert Selection(rest, i) by {
      assert forall k :: 0 <= k < |rest| ==> rest[k] == s[k + 1];
    }
    TotalNonNegative(weight, rest);
    if s[0] == i - 1 {
      assert Selection(rest, i - 1) by {
        forall k | 0 <= k < |rest|
          ensures rest[k] < i - 1
        {
          assert s[0] > s[k + 1];
        }
      }
      TableOptimal(value, weight, i - 1, c - weight[i - 1], rest);
    } else {
      assert Selection(s, i - 1) by {
        forall k | 0 <= k < |s|
          ensures s[k] < i - 1
        {
          if k > 0 { assert s[0] > s[k]; }
        }
      }
      TableOptimal(value, weight, i - 1, c, s);
    }
  }

  /** Row `i` of the table, computed from row `i - 1` as the source's inner loop does. */
  method FillRow(value: seq<int>, weight: seq<int>, prev: seq<int>, i: int, capacity: int) returns (row: seq<int>)
    requires capacity >= 0 && WellFormed(value, weight) && 1 <= i <= |value|
    requires |prev| == capacity + 1 && forall c :: 0 <= c <= capacity ==> prev[c] == Table(value, weight, i - 1, c)
    ensures |row| == capacity + 1 && forall c :: 0 <= c <= capacity ==> row[c] == Table(value, weight, i, c)
  {
    row := [0];
    var c := 1;
    while c < capacity + 1
      invariant 1 <= c <= capacity + 1 && |row| == c
      invariant forall c' :: 0 <= c' < c ==> row[c'] == Table(value, weight, i, c')
    {
      var best;
      if weight[i - 1] > c {
        best := prev[c];
      } else {
        best := Max(value[i - 1] + prev[c - weight[i - 1]], prev[c]);
      }
      row := row + [best];
      c := c + 1;
    }
  }

  /** The whole table `dp[0..n][0..capacity]`. */
  method FillTable(value: seq<int>, weight: seq<int>, capacity: int) returns (dp: seq<seq<int>>)
    requires capacity >= 0 && WellFormed(value, weight)
    ensures |dp| == |value| + 1
    ensures forall a :: 0 <= a < |dp| ==> |dp[a]| == capacity + 1
    ensures forall a, c :: 0 <= a < |dp| && 0 <= c <= capacity ==> dp[a][c] == Table(value, weight, a, c)
  {
    dp := [seq(capacity + 1, _ => 0)];
    var i := 1;
    while i < |value| + 1
      invariant 1 <= i <= |value| + 1 && |dp| == i
      invariant forall a :: 0 <= a < i ==> |dp[a]| == capacity + 1
      invariant forall a, c :: 0 <= a < i && 0 <= c <= capacity ==> dp[a][c] == Table(value, weight, a, c)
    {
      var row := FillRow(value, weight, dp[i - 1], i, capacity);
      dp := dp + [row];
      i := i + 1;
    }
  }

  /**
   * The indices of the items to pack, in decreasing order.  They fit, their
   * value is the table's best value, and when every weight is at least 1 no
   * other choice that fits is worth more.
   */
  method Knapsack(capacity: int, value: seq<int>, weight: seq<int>) returns (result: seq<int>)
    requires capacity >= 0 && WellFormed(value, weight)
    ensures Selection(result, |value|)
    ensures Total(weight, result) <= capacity
    ensures Total(value, result) == Table(value, weight, |value|, capacity)
    ensures (forall k :: 0 <= k < |weight| ==> weight[k] >= 1) ==>
              forall s :: Selection(s, |value|) && Total(weight, s) <= capacity ==>
                Total(value, s) <= Total(value, result)
  {
    var dp := FillTable(value, weight, capacity);
    result := WalkBack(value, weight, capacity, dp);
    if forall k :: 0 <= k < |weight| ==> weight[k] >= 1 {
      forall s | Selection(s, |value|) && Total(weight, s) <= capacity
        ensures Total(value, s) <= Total(value, result)
      {
        TableOptimal(value, weight, |value|, capacity, s);
      }
    }
  }

  /**
   * The walk back through a filled table: item `i - 1` is taken exactly
   * when it changed the entry, and the walk stops at a zero entry.
   */
  method WalkBack(value: seq<int>, weight: seq<int>, capacity: int, dp: seq<seq<int>>) returns (result: seq<int>)
    requires capacity >= 0 && WellFormed(value, weight)
    requires |dp| == |value| + 1 && forall a :: 0 <= a < |dp| ==> |dp[a]| == capacity + 1
    requires forall a, c :: 0 <= a < |dp| && 0 <= c <= capacity ==> dp[a][c] == Table(value, weight, a, c)
    ensures Selection(result, |value|)
    ensures Total(weight, result) <= capacity
    ensures Total(value, result) == Table(value, weight, |value|, capacity)
  {
    var n := |value|;
    result := [];
    var c := capacity;
    var i := n;
    while dp[i][c] != 0
      invariant 0 <= i <= n && 0 <= c <= capacity
      invariant Selection(result, n) && forall k :: 0 <= k < |result| ==> result[k] >= i
      invariant Total(value, result) + Table(value, weight, i, c) == Table(value, weight, n, capacity)
      invariant Total(weight, result) + c == capacity
      decreases i
    {
      if dp[i][c] != dp[i - 1][c] {
        TableTaken(value, weight, i, c);
        TotalAppend(value, result, i - 1);
        TotalAppend(weight, result, i - 1);
        SelectionAppend(result, result + [i - 1], i, n);
        result := result + [i - 1];
        c := c - weight[i - 1];
      }
      i := i - 1;
    }
  }

  /** An entry that differs from the one above it took item `i - 1`. */
  lemma TableTaken(value: seq<int>, weight: seq<int>, i: int, c: int)
    requires WellFormed(value, weight) && 0 < i <= |value| && c >= 0
    requires Table(value, weight, i, c) != Table(value, weight, i - 1, c)
    ensures weight[i - 1] <= c
    ensures Table(value, weight, i, c) == value[i - 1] + Table(value, weight, i - 1, c - weight[i - 1])
  {
  }

  /** Appending an item below every chosen one keeps a selection. */
  lemma SelectionAppend(s: seq<int>, s': seq<int>, i: int, n: int)
    requires 0 < i <= n && Selection(s, n) && forall k :: 0 <= k < |s| ==> s[k] >= i
    requires s' == s + [i - 1]
    ensures Selection(s', n) && forall k :: 0 <= k < |s'| ==> s'[k] >= i - 1
  {
  }

}
