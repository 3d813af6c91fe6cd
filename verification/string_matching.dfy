/**
 * Knuth-Morris-Pratt string matching (Lab3/task3.1/stringmatching.cc): the
 * prefix function of the pattern, then one left-to-right pass over the text
 * that reports every position where the pattern occurs.
 */
module StringMatching {

  /** The first `k` characters of `s` equal the last `k` of `s[..n]`. */
  ghost predicate PrefixSuffix(s: seq<char>, n: int, k: int)
  {
    0 <= k <= n <= |s| && forall u :: 0 <= u < k ==> s[u] == s[n - k + u]
  }

  /** `k` is the length of a proper border of `s[..n]`. */
  ghost predicate Border(s: seq<char>, n: int, k: int)
  {
    PrefixSuffix(s, n, k) && k < n
  }

  /** `k` is the length of the longest proper border of `s[..n]`. */
  ghost predicate LongestBorder(s: seq<char>, n: int, k: int)
  {
    Border(s, n, k) && forall k' :: Border(s, n, k') ==> k' <= k
  }

  /** The first `k` characters of the pattern equal the `k` text characters before `i`. */
  ghost predicate Match(p: seq<char>, t: seq<char>, i: int, k: int)
  {
    0 <= k <= |p| && k <= i <= |t| && forall u :: 0 <= u < k ==> p[u] == t[i - k + u]
  }

  /** The pattern occurs in the text starting at position `q`. */
  predicate IsOccurrence(p: seq<char>, t: seq<char>, q: int)
  {
    0 <= q && q + |p| <= |t| && t[q..q + |p|] == p
  }

  /** The borders of a border of `s[..n]` are exactly the shorter borders of `s[..n]`. */
  lemma BorderOfBorder(s: seq<char>, n: int, j: int, k: int)
    requires PrefixSuffix(s, n, j) && 0 <= k < j
    ensures PrefixSuffix(s, n, k) <==> PrefixSuffix(s, j, k)
  {
    if PrefixSuffix(s, n, k) {
      forall u | 0 <= u < k
        ensures s[u] == s[j - k + u]
      {
        assert s[j - k + u] == s[n - j + (j - k + u)];
      }
    }
    if PrefixSuffix(s, j, k) {
      forall u | 0 <= u < k
        ensures s[u] == s[n - k + u]
      {
        assert s[j - k + u] == s[n - j + (j - k + u)];
      }
    }
  }

  lemma LongestBorderBound(s: seq<char>, n: int, k: int, k2: int)
    requires LongestBorder(s, n, k) && PrefixSuffix(s, n, k2) && k2 < n
    ensures k2 <= k
  {
    assert Border(s, n, k2);
  }

  /** The same fact when the longer border is matched against the text. */
  lemma MatchOfBorder(p: seq<char>, t: seq<char>, i: int, j: int, k: int)
    requires Match(p, t, i, j) && 0 <= k < j
    ensures Match(p, t, i, k) <==> PrefixSuffix(p, j, k)
  {
    if Match(p, t, i, k) {
      forall u | 0 <= u < k
        ensures p[u] == p[j - k + u]
      {
        assert p[j - k + u] == t[i - j + (j - k + u)];
      }
    }
    if PrefixSuffix(p, j, k) {
      forall u | 0 <= u < k
        ensures p[u] == t[i - k + u]
      {
        assert p[j - k + u] == t[i - j + (j - k + u)];
      }
    }
  }

  /**
   * The prefix function: `pi[i]` is the length of the longest proper prefix of
   * `p[..i + 1]` that is also a suffix of it.
   */
  method PrefixFunction(p: seq<char>) returns (pi: seq<int>)
    ensures |pi| == |p|
    ensures forall i :: 0 <= i < |p| ==> LongestBorder(p, i + 1, pi[i])
  {
    if |p| == 0 {
      return [];
    }
    pi := [0];
    assert LongestBorder(p, 1, 0);
    var i := 1;
    while i < |p|
      invariant 1 <= i <= |p| && |pi| == i
      invariant forall i' :: 0 <= i' < i ==> LongestBorder(p, i' + 1, pi[i'])
    {
      var n := i + 1;
      var j := pi[i - 1];
      assert LongestBorder(p, i, j);
      forall k | Border(p, n, k) && k >= 1
        ensures k - 1 <= j
      {
        assert Border(p, i, k - 1);
      }
      while p[i] != p[j] && j > 0
        invariant 0 <= j < i && PrefixSuffix(p, i, j)
        invariant forall k :: Border(p, n, k) && k >= 1 ==> k - 1 <= j
        decreases j
      {
        var j' := pi[j - 1];
        assert LongestBorder(p, j, j');
        BorderOfBorder(p, i, j, j');
        forall k | Border(p, n, k) && k >= 1
          ensures k - 1 <= j'
        {
          assert PrefixSuffix(p, i, k - 1) && p[k - 1] == p[i];
          BorderOfBorder(p, i, j, k - 1);
          assert Border(p, j, k - 1);
        }
        j := j';
      }
      if p[i] == p[j] {
        assert Border(p, n, j + 1);
        pi := pi + [j + 1];
      } else {
        forall k | Border(p, n, k)
          ensures k <= 0
        {
        }
        assert Border(p, n, 0);
        pi := pi + [0];
      }
      i := i + 1;
    }
  }

  /** Reference: the occurrences ending at or before `e`, in increasing order. */
  function OccurrencesBefore(p: seq<char>, t: seq<char>, e: int): seq<int>
    requires 0 < |p| && e <= |t|
    decreases e
  {
    if e < |p| then []
    else
      OccurrencesBefore(p, t, e - 1) + (if IsOccurrence(p, t, e - |p|) then [e - |p|] else [])
  }

  /** The reference lists exactly the occurrences that end by `e`, in increasing order. */
  lemma {:induction false} OccurrencesBeforeSpec(p: seq<char>, t: seq<char>, e: int)
    requires 0 < |p| && e <= |t|
    ensures forall q :: q in OccurrencesBefore(p, t, e) <==> IsOccurrence(p, t, q) && q + |p| <= e
    ensures forall a, b :: 0 <= a < b < |OccurrencesBefore(p, t, e)| ==>
              OccurrencesBefore(p, t, e)[a] < OccurrencesBefore(p, t, e)[b]
    ensures forall a :: 0 <= a < |OccurrencesBefore(p, t, e)| ==> OccurrencesBefore(p, t, e)[a] + |p| <= e
    decreases e
  {
    if e >= |p| {
      OccurrencesBeforeSpec(p, t, e - 1);
    }
  }

  /** An occurrence ending at `i` is a full-length match before `i`. */
  lemma OccurrenceIsMatch(p: seq<char>, t: seq<char>, i: int)
    requires |p| <= i <= |t|
    ensures IsOccurrence(p, t, i - |p|) <==> Match(p, t, i, |p|)
  {
    if Match(p, t, i, |p|) {
      assert t[i - |p|..i] == p by {
        forall u | 0 <= u < |p| ensures t[i - |p|..i][u] == p[u] {
        }
      }
    }
    if IsOccurrence(p, t, i - |p|) {
      forall u | 0 <= u < |p| ensures p[u] == t[i - |p| + u] {
        assert t[i - |p|..i][u] == p[u];
      }
    }
  }

  /**
   * The matcher's state before reading `t[i]`: the pattern's first `k`
   * characters match the text before `i`, and no longer proper prefix that
   * matches there can be extended by `t[i]`.
   */
  ghost predicate Scanning(p: seq<char>, t: seq<char>, i: int, k: int)
  {
    0 <= i <= |t| && 0 <= k < |p| && Match(p, t, i, k) &&
    (i < |t| ==> forall k' :: k < k' < |p| && Match(p, t, i, k') ==> p[k'] != t[i])
  }

  /**
   * One turn of the search loop: a character that completes the pattern
   * records an occurrence and falls back to its longest border, a matching
   * character extends the match, and a mismatch falls back without
   * advancing (or, with nothing matched, advances).
   */
  method ScanStep(pattern: seq<char>, text: seq<char>, pi: seq<int>, i: int, k: int, result: seq<int>)
    returns (i': int, k': int, result': seq<int>)
    requires i < |text| && Scanning(pattern, text, i, k) && result == OccurrencesBefore(pattern, text, i)
    requires |pi| == |pattern| && forall q :: 0 <= q < |pattern| ==> LongestBorder(pattern, q + 1, pi[q])
    ensures Scanning(pattern, text, i', k') && result' == OccurrencesBefore(pattern, text, i')
    ensures i' == i + 1 || (i' == i && k' < k)
  {
    if pattern[k] == text[i] && k + 1 == |pattern| {
      CompleteMatch(pattern, text, i, pi);
      result' := result + [i + 1 - |pattern|];
      k' := pi[|pattern| - 1];
      i' := i + 1;
    } else if pattern[k] == text[i] || k == 0 {
      ExtendMatch(pattern, text, i, k);
      result' := result;
      k' := if pattern[k] == text[i] then k + 1 else 0;
      i' := i + 1;
    } else {
      assert LongestBorder(pattern, k, pi[k - 1]);
      FallBack(pattern, text, i, k, pi);
      result' := result;
      k' := pi[k - 1];
      i' := i;
    }
  }

  /**
   * All positions where a non-empty pattern occurs in the text, in
   * increasing order.  An empty pattern reads as the terminating NUL of the
   * empty string, which no text character matches when the text has no NUL
   * before its last character, so nothing is reported; a NUL earlier in the
   * text would make the source read past the pattern's end.
   */
  method Find(pattern: seq<char>, text: seq<char>) returns (result: seq<int>)
    requires |pattern| > 0 || forall q :: 0 <= q < |text| - 1 ==> text[q] != '\0'
    ensures |pattern| > 0 ==> forall q :: q in result <==> IsOccurrence(pattern, text, q)
    ensures |pattern| == 0 ==> result == []
    ensures forall a, b :: 0 <= a < b < |result| ==> result[a] < result[b]
  {
    result := [];
    if |pattern| > |text| || |pattern| == 0 {
      return;
    }
    var pi := PrefixFunction(pattern);
    var k := 0;
    var i := 0;
    ScanningStart(pattern, text);
    while i < |text|
      invariant Scanning(pattern, text, i, k)
      invariant result == OccurrencesBefore(pattern, text, i)
      decreases |text| - i, k
    {
      i, k, result := ScanStep(pattern, text, pi, i, k, result);
    }
    OccurrencesBeforeSpec(pattern, text, |text|);
  }

  /** Before the first text character nothing is matched. */
  lemma ScanningStart(p: seq<char>, t: seq<char>)
    requires 0 < |p| <= |t|
    ensures Scanning(p, t, 0, 0)
    ensures OccurrencesBefore(p, t, 0) == []
  {
  }

  /** A text character that cannot start or extend a full match moves the scan on by one. */
  lemma ExtendMatch(p: seq<char>, t: seq<char>, i: int, k: int)
    requires i < |t| && Scanning(p, t, i, k)
    requires if p[k] == t[i] then k + 1 < |p| else k == 0
    ensures Scanning(p, t, i + 1, if p[k] == t[i] then k + 1 else 0)
    ensures OccurrencesBefore(p, t, i + 1) == OccurrencesBefore(p, t, i)
  {
    var k1 := if p[k] == t[i] then k + 1 else 0;
    var i1 := i + 1;
    forall k2 | k1 < k2 <= |p| && Match(p, t, i1, k2)
      ensures false
    {
      assert p[k2 - 1] == t[i + 1 - k2 + (k2 - 1)];
      assert Match(p, t, i, k2 - 1);
    }
    if i + 1 >= |p| {
      OccurrenceIsMatch(p, t, i + 1);
    }
  }

  /** Completing a full match records it and falls back to the longest border. */
  lemma CompleteMatch(p: seq<char>, t: seq<char>, i: int, pi: seq<int>)
    requires i < |t| && Scanning(p, t, i, |p| - 1) && p[|p| - 1] == t[i]
    requires |pi| == |p| && LongestBorder(p, |p|, pi[|p| - 1])
    ensures Scanning(p, t, i + 1, pi[|p| - 1])
    ensures OccurrencesBefore(p, t, i + 1) == OccurrencesBefore(p, t, i) + [i + 1 - |p|]
  {
    var i1 := i + 1;
    assert Match(p, t, i1, |p|) by {
      assert forall u :: 0 <= u < |p| - 1 ==> p[u] == t[i - (|p| - 1) + u];
    }
    assert OccurrencesBefore(p, t, i1) == OccurrencesBefore(p, t, i) + [i1 - |p|] by {
      OccurrenceIsMatch(p, t, i1);
    }
    NoLongerBorderMatches(p, t, i1, pi[|p| - 1]);
  }

  /** After a full match only borders of the pattern can match, and the longest is kept. */
  lemma NoLongerBorderMatches(p: seq<char>, t: seq<char>, i: int, k: int)
    requires 0 < |p| && Match(p, t, i, |p|) && LongestBorder(p, |p|, k) && i <= |t|
    ensures Scanning(p, t, i, k)
  {
    MatchOfBorder(p, t, i, |p|, k);
    forall k2 | k < k2 < |p| && Match(p, t, i, k2)
      ensures false
    {
      MatchOfBorder(p, t, i, |p|, k2);
      LongestBorderBound(p, |p|, k, k2);
    }
  }

  /** A mismatch after a non-empty match retries with the longest border of the match. */
  lemma FallBack(p: seq<char>, t: seq<char>, i: int, k: int, pi: seq<int>)
    requires i < |t| && Scanning(p, t, i, k) && k > 0 && p[k] != t[i]
    requires |pi| == |p| && LongestBorder(p, k, pi[k - 1])
    ensures Scanning(p, t, i, pi[k - 1])
  {
    var k' := pi[k - 1];
    MatchOfBorder(p, t, i, k, k');
    forall k2 | k' < k2 < k && Match(p, t, i, k2)
      ensures false
    {
      MatchOfBorder(p, t, i, k, k2);
      LongestBorderBound(p, k, k', k2);
    }
  }
}
