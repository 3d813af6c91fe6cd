/**
 * Longest strictly increasing subsequence by patience sorting
 * (Lab1/task1.3/longincsubseq.cc).  Each element goes on the leftmost pile
 * whose top is not smaller than it, found by binary search, and remembers the
 * top of the pile to its left; the chain of remembered elements from the last
 * pile's top is the answer.
 *
 * Only the top of each pile is ever read, so a pile is represented by its top.
 */
module Lis {

  /** `idx` picks positions of `s` in increasing order whose values strictly increase. */
  ghost predicate IncreasingSubsequence(s: seq<int>, idx: seq<int>)
  {
    (forall k :: 0 <= k < |idx| ==> 0 <= idx[k] < |s|) &&
    (forall a, b :: 0 <= a < b < |idx| ==> idx[a] < idx[b] && s[idx[a]] < s[idx[b]])
  }

  /**
   * Along an increasing subsequence the piles strictly increase, so its `k`-th
   * element lies on pile `k` or further right.
   */
  lemma {:induction false} ChainBound(s: seq<int>, pileOf: seq<int>, idx: seq<int>, k: int)
    requires |pileOf| == |s| && IncreasingSubsequence(s, idx) && 0 <= k < |idx|
    requires forall j :: 0 <= j < |s| ==> pileOf[j] >= 0
    requires forall a, b :: 0 <= a < b < |s| && s[a] < s[b] ==> pileOf[a] < pileOf[b]
    ensures pileOf[idx[k]] >= k
  {
    if k > 0 {
      ChainBound(s, pileOf, idx, k - 1);
      assert idx[k - 1] < idx[k] && s[idx[k - 1]] < s[idx[k]];
    }
  }

  /** The piles after placing `s[..i]`: tops, their pile numbers and values. */
  ghost predicate TopsValid(s: seq<int>, i: int, tops: seq<int>, pileOf: seq<int>)
  {
    0 <= i <= |s| && |pileOf| == i && |tops| <= i &&
    (forall p :: 0 <= p < |tops| ==> 0 <= tops[p] < i && pileOf[tops[p]] == p) &&
    (forall p, q :: 0 <= p < q < |tops| ==> s[tops[p]] < s[tops[q]]) &&
    (forall j :: 0 <= j < i ==> 0 <= pileOf[j] < |tops| && s[tops[pileOf[j]]] <= s[j])
  }

  /** Each placed element remembers an earlier, smaller element on the pile to its left. */
  ghost predicate PredecessorsValid(s: seq<int>, i: int, predecessor: seq<int>, pileOf: seq<int>)
    requires 0 <= i <= |s| && |pileOf| == i
  {
    |predecessor| == i &&
    (forall j :: 0 <= j < i && pileOf[j] == 0 ==> predecessor[j] == -1) &&
    (forall j :: 0 <= j < i && pileOf[j] > 0 ==>
       0 <= predecessor[j] < j && pileOf[predecessor[j]] == pileOf[j] - 1 && s[predecessor[j]] < s[j])
  }

  /** A smaller earlier element always lies on a pile further left. */
  ghost predicate PilesMonotone(s: seq<int>, i: int, pileOf: seq<int>)
    requires 0 <= i <= |s| && |pileOf| == i
  {
    forall a, b :: 0 <= a < b < i && s[a] < s[b] ==> pileOf[a] < pileOf[b]
  }

  /** Where the binary search leaves `left`: tops before it are smaller than `x`, the rest are not. */
  ghost predicate Splits(s: seq<int>, tops: seq<int>, left: int, x: int)
  {
    0 <= left <= |tops| &&
    (forall p :: 0 <= p < |tops| ==> 0 <= tops[p] < |s|) &&
    (forall p :: 0 <= p < left ==> s[tops[p]] < x) &&
    (forall p :: left <= p < |tops| ==> s[tops[p]] >= x)
  }

  function PushTop(tops: seq<int>, left: int, i: int): (r: seq<int>)
    requires 0 <= left <= |tops|
    ensures |r| == if left == |tops| then |tops| + 1 else |tops|
    ensures r[left] == i && forall p :: 0 <= p < |r| && p != left ==> r[p] == tops[p]
  {
    if left == |tops| then tops + [i] else tops[left := i]
  }

  lemma PlaceKeepsTops(s: seq<int>, i: int, tops: seq<int>, pileOf: seq<int>, left: int)
    requires TopsValid(s, i, tops, pileOf) && i < |s| && Splits(s, tops, left, s[i])
    ensures TopsValid(s, i + 1, PushTop(tops, left, i), pileOf + [left])
  {
    var t := PushTop(tops, left, i);
    var po := pileOf + [left];
    forall j | 0 <= j < i + 1
      ensures 0 <= po[j] < |t| && s[t[po[j]]] <= s[j]
    {
      if j < i && po[j] == left {
        assert s[tops[left]] <= s[j];
      }
    }
  }

  lemma PlaceKeepsPredecessors(s: seq<int>, i: int, tops: seq<int>, predecessor: seq<int>,
                               pileOf: seq<int>, left: int)
    requires TopsValid(s, i, tops, pileOf) && i < |s| && Splits(s, tops, left, s[i])
    requires PredecessorsValid(s, i, predecessor, pileOf)
    ensures PredecessorsValid(s, i + 1, predecessor + [if left > 0 then tops[left - 1] else -1],
                              pileOf + [left])
  {
    var pr := predecessor + [if left > 0 then tops[left - 1] else -1];
    var po := pileOf + [left];
    forall j | 0 <= j < i + 1 && po[j] > 0
      ensures 0 <= pr[j] < j && po[pr[j]] == po[j] - 1 && s[pr[j]] < s[j]
    {
      if j == i {
        assert pr[j] == tops[left - 1] && pileOf[tops[left - 1]] == left - 1;
      } else {
        assert pr[j] == predecessor[j] && po[predecessor[j]] == pileOf[predecessor[j]];
      }
    }
  }

  lemma PlaceKeepsMonotone(s: seq<int>, i: int, tops: seq<int>, pileOf: seq<int>, left: int)
    requires TopsValid(s, i, tops, pileOf) && i < |s| && Splits(s, tops, left, s[i])
    requires PilesMonotone(s, i, pileOf)
    ensures PilesMonotone(s, i + 1, pileOf + [left])
  {
    var po := pileOf + [left];
    forall a, b | 0 <= a < b < i + 1 && s[a] < s[b]
      ensures po[a] < po[b]
    {
      if b == i {
        assert s[tops[pileOf[a]]] <= s[a];
      }
    }
  }

  /**
   * Binary search for the leftmost pile whose top is not smaller than `x`
   * (`|tops|` when there is none); the tops must increase.
   */
  method FindPile(s: seq<int>, tops: seq<int>, x: int) returns (left: int)
    requires forall p :: 0 <= p < |tops| ==> 0 <= tops[p] < |s|
    requires forall p, q :: 0 <= p < q < |tops| ==> s[tops[p]] < s[tops[q]]
    ensures Splits(s, tops, left, x)
  {
    left := 0;
    var right := |tops| - 1;
    while left <= right
      invariant 0 <= left <= right + 1 <= |tops|
      invariant forall p :: 0 <= p < left ==> s[tops[p]] < x
      invariant forall p :: right < p < |tops| ==> s[tops[p]] >= x
    {
      var mid := (left + right) / 2;
      if s[tops[mid]] < x {
        left := mid + 1;
      } else {
        right := mid - 1;
      }
    }
  }

  lemma PrependIncreasing(s: seq<int>, x: int, r: seq<int>)
    requires IncreasingSubsequence(s, r) && 0 <= x < |s|
    requires |r| > 0 ==> x < r[0] && s[x] < s[r[0]]
    ensures IncreasingSubsequence(s, [x] + r)
  {
    var r' := [x] + r;
    forall a, b | 0 <= a < b < |r'|
      ensures r'[a] < r'[b] && s[r'[a]] < s[r'[b]]
    {
      if a == 0 && b > 1 {
        assert r[0] < r[b - 1] && s[r[0]] < s[r[b - 1]];
      }
    }
  }

  /**
   * Follows the predecessors back from the last pile's top, one element per
   * pile, and lists them from left to right.
   */
  method Reconstruct(s: seq<int>, tops: seq<int>, predecessor: seq<int>, ghost pileOf: seq<int>)
    returns (result: seq<int>)
    requires TopsValid(s, |s|, tops, pileOf) && PredecessorsValid(s, |s|, predecessor, pileOf)
    requires |tops| > 0
    ensures IncreasingSubsequence(s, result) && |result| == |tops|
  {
    result := [];
    var curr := tops[|tops| - 1];
    var k := |tops| - 1;
    while k >= 0
      invariant -1 <= k < |tops| && |result| == |tops| - 1 - k
      invariant IncreasingSubsequence(s, result)
      invariant k >= 0 ==> 0 <= curr < |s| && pileOf[curr] == k
      invariant k >= 0 && |result| > 0 ==> curr < result[0] && s[curr] < s[result[0]]
    {
      PrependIncreasing(s, curr, result);
      result := [curr] + result;
      assert k > 0 ==> 0 <= predecessor[curr] < curr && pileOf[predecessor[curr]] == k - 1 &&
                       s[predecessor[curr]] < s[curr];
      curr := predecessor[curr];
      k := k - 1;
    }
  }

  /**
   * The indices of a longest strictly increasing subsequence.  The source
   * reads the last pile's top, so the sequence must be non-empty.
   */
  method Lis(s: seq<int>) returns (result: seq<int>)
    requires |s| > 0
    ensures IncreasingSubsequence(s, result)
    ensures forall idx :: IncreasingSubsequence(s, idx) ==> |idx| <= |result|
  {
    var n := |s|;
    var predecessor: seq<int> := [];
    var tops: seq<int> := [];
    ghost var pileOf: seq<int> := [];
    var i := 0;
    while i < n
      invariant TopsValid(s, i, tops, pileOf)
      invariant PredecessorsValid(s, i, predecessor, pileOf)
      invariant PilesMonotone(s, i, pileOf)
    {
      var left := FindPile(s, tops, s[i]);
      PlaceKeepsTops(s, i, tops, pileOf, left);
      PlaceKeepsPredecessors(s, i, tops, predecessor, pileOf, left);
      PlaceKeepsMonotone(s, i, tops, pileOf, left);
      if left - 1 >= 0 {
        predecessor := predecessor + [tops[left - 1]];
      } else {
        predecessor := predecessor + [-1];
      }
      tops := PushTop(tops, left, i);
      pileOf := pileOf + [left];
      i := i + 1;
    }
    assert pileOf[0] < |tops|;
    result := Reconstruct(s, tops, predecessor, pileOf);
    forall idx | IncreasingSubsequence(s, idx)
      ensures |idx| <= |result|
    {
      if |idx| > 0 {
        ChainBound(s, pileOf, idx, |idx| - 1);
      }
    }
  }
}
