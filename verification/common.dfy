/** Shared vocabulary: an optional value and small facts about finite integer ranges. */
module Common {

  /** A value that may be absent; the C++ sources signal absence with a `bool` result. */
  datatype Option<T> = None | Some(value: T)

  /** A set of indices drawn from `0 <= i < n` has at most `n` members. */
  lemma SubsetOfRangeCard(s: set<int>, n: nat)
    requires forall i :: i in s ==> 0 <= i < n
    ensures |s| <= n
  {
    if n > 0 {
      var rest := s - {n - 1};
      SubsetOfRangeCard(rest, n - 1);
      assert s <= rest + {n - 1};
      SubsetCard(s, rest + {n - 1});
    } else {
      assert forall x :: x !in s;
      assert s == {};
    }
  }

  lemma SubsetCard<T>(a: set<T>, b: set<T>)
    requires a <= b
    ensures |a| <= |b|
  {
    assert b == a + (b - a);
  }

  /**
   * Pigeonhole: more than `n` positions holding values in `0 <= v < n` must
   * hold some value twice.
   */
  lemma Pigeonhole(s: seq<int>, n: nat)
    requires |s| > n
    requires forall k :: 0 <= k < |s| ==> 0 <= s[k] < n
    ensures exists a, b :: 0 <= a < b < |s| && s[a] == s[b]
  {
    if forall a, b :: 0 <= a < b < |s| ==> s[a] != s[b] {
      DistinctCard(s);
      SubsetOfRangeCard(set k | 0 <= k < |s| :: s[k], n);
    }
  }

  lemma DistinctCard(s: seq<int>)
    requires forall a, b :: 0 <= a < b < |s| ==> s[a] != s[b]
    ensures |set k | 0 <= k < |s| :: s[k]| == |s|
  {
    if |s| > 0 {
      var t := s[..|s| - 1];
      assert forall a, b :: 0 <= a < b < |t| ==> t[a] != t[b] by {
        forall a, b | 0 <= a < b < |t| ensures t[a] != t[b] {
          assert t[a] == s[a] && t[b] == s[b];
        }
      }
      DistinctCard(t);
      var st := set k | 0 <= k < |t| :: t[k];
      var ss := set k | 0 <= k < |s| :: s[k];
      assert ss == st + {s[|s| - 1]} by {
        forall v | v in ss ensures v in st + {s[|s| - 1]} {
          var k :| 0 <= k < |s| && s[k] == v;
          if k < |t| { assert t[k] == v; }
        }
        forall v | v in st ensures v in ss {
          var k :| 0 <= k < |t| && t[k] == v;
          assert s[k] == v;
        }
      }
      assert s[|s| - 1] !in st;
    }
  }
}
