/**
 * Eulerian paths in a directed multigraph by Hierholzer's algorithm
 * (Lab2/task2.9/eulerianpath.cc).  `g[u]` lists the heads of the arcs that
 * leave `u`, once per arc, in the ascending order in which the program's
 * `std::multiset` yields them; taking an arc removes the first entry.
 */
module EulerPath {

  /** A directed arc `tail -> head`. */
  datatype Arc = Arc(tail: int, head: int)

  /** Every listed head is a vertex of the graph. */
  predicate Valid(g: seq<seq<int>>)
  {
    forall u, k :: 0 <= u < |g| && 0 <= k < |g[u]| ==> 0 <= g[u][k] < |g|
  }

  predicate InRange(s: seq<int>, n: int)
  {
    forall k :: 0 <= k < |s| ==> 0 <= s[k] < n
  }

  // ---------------------------------------------------------------------
  // Arcs and their counts
  // ---------------------------------------------------------------------

  function Row(u: int, l: seq<int>): (r: seq<Arc>)
    ensures |r| == |l| && forall k :: 0 <= k < |l| ==> r[k] == Arc(u, l[k])
  {
    seq(|l|, k requires 0 <= k < |l| => Arc(u, l[k]))
  }

  /** The arcs of the graph, vertex by vertex. */
  function Arcs(g: seq<seq<int>>): seq<Arc>
  {
    if |g| == 0 then [] else Arcs(g[..|g| - 1]) + Row(|g| - 1, g[|g| - 1])
  }

  /** The program's `edges_num`: the sum of the out-degrees. */
  function NumEdges(g: seq<seq<int>>): (r: nat)
    ensures r == |Arcs(g)|
  {
    if |g| == 0 then 0 else NumEdges(g[..|g| - 1]) + |g[|g| - 1]|
  }

  /** How many of the arcs leave `v`. */
  function Out(xs: seq<Arc>, v: int): nat
  {
    if |xs| == 0 then 0 else Out(xs[..|xs| - 1], v) + (if xs[|xs| - 1].tail == v then 1 else 0)
  }

  /** How many of the arcs enter `v`. */
  function In(xs: seq<Arc>, v: int): nat
  {
    if |xs| == 0 then 0 else In(xs[..|xs| - 1], v) + (if xs[|xs| - 1].head == v then 1 else 0)
  }

  /** The program's `in_degree[v]`: one for every listed head equal to `v`. */
  function InDegree(g: seq<seq<int>>, v: int): nat
  {
    In(Arcs(g), v)
  }

  lemma {:induction false} CountConcat(a: seq<Arc>, b: seq<Arc>, v: int)
    ensures Out(a + b, v) == Out(a, v) + Out(b, v) && In(a + b, v) == In(a, v) + In(b, v)
    decreases |b|
  {
    if |b| > 0 {
      var b' := b[..|b| - 1];
      assert (a + b)[..|a + b| - 1] == a + b';
      CountConcat(a, b', v);
    } else {
      assert a + b == a;
    }
  }

  /** Counts depend only on the multiset of arcs. */
  lemma {:induction false} CountPerm(a: seq<Arc>, b: seq<Arc>, v: int)
    requires multiset(a) == multiset(b)
    ensures Out(a, v) == Out(b, v) && In(a, v) == In(b, v)
    decreases |a|
  {
    if |a| > 0 {
      var x := a[|a| - 1];
      var a' := a[..|a| - 1];
      assert a == a' + [x];
      assert x in multiset(b);
      var k :| 0 <= k < |b| && b[k] == x;
      var b' := b[..k] + b[k + 1..];
      assert b == b[..k] + [x] + b[k + 1..];
      assert multiset(a) == multiset(a') + multiset{x};
      assert multiset(b) == multiset(b') + multiset{x} by {
        assert multiset(b) == multiset(b[..k]) + multiset{x} + multiset(b[k + 1..]);
        assert multiset(b') == multiset(b[..k]) + multiset(b[k + 1..]);
      }
      CancelUnion(multiset(a'), multiset(b'), multiset{x});
      CountPerm(a', b', v);
      CountConcat(b[..k], [x], v);
      CountConcat(b[..k] + [x], b[k + 1..], v);
      CountConcat(b[..k], b[k + 1..], v);
    } else {
      assert |b| == |multiset(b)| == 0;
    }
  }

  lemma {:induction false} ArcsTails(g: seq<seq<int>>, x: Arc)
    requires x in Arcs(g)
    ensures 0 <= x.tail < |g| && exists k :: 0 <= k < |g[x.tail]| && g[x.tail][k] == x.head
    decreases |g|
  {
    var n := |g| - 1;
    if x in Arcs(g[..n]) {
      ArcsTails(g[..n], x);
      var k :| 0 <= k < |g[..n][x.tail]| && g[..n][x.tail][k] == x.head;
    } else {
      assert x in Row(n, g[n]);
    }
  }

  lemma {:induction false} OutAbsent(xs: seq<Arc>, v: int)
    requires forall k :: 0 <= k < |xs| ==> xs[k].tail != v
    ensures Out(xs, v) == 0
  {
    if |xs| > 0 {
      OutAbsent(xs[..|xs| - 1], v);
    }
  }

  lemma {:induction false} OutPresent(xs: seq<Arc>, x: Arc)
    requires x in xs
    ensures Out(xs, x.tail) > 0 && In(xs, x.head) > 0
  {
    if xs[|xs| - 1] != x {
      OutPresent(xs[..|xs| - 1], x);
    }
  }

  lemma {:induction false} RowCounts(u: int, l: seq<int>, v: int)
    ensures Out(Row(u, l), v) == (if u == v then |l| else 0)
  {
    if |l| > 0 {
      assert Row(u, l)[..|l| - 1] == Row(u, l[..|l| - 1]);
      RowCounts(u, l[..|l| - 1], v);
    }
  }

  /** The program's `out_degree[v]`, the length of `v`'s list, counts the arcs leaving `v`. */
  lemma {:induction false} ArcsOut(g: seq<seq<int>>, v: int)
    requires 0 <= v < |g|
    ensures Out(Arcs(g), v) == |g[v]|
    decreases |g|
  {
    var n := |g| - 1;
    CountConcat(Arcs(g[..n]), Row(n, g[n]), v);
    RowCounts(n, g[n], v);
    if v < n {
      ArcsOut(g[..n], v);
    } else {
      forall k | 0 <= k < |Arcs(g[..n])|
        ensures Arcs(g[..n])[k].tail != v
      {
        ArcsTails(g[..n], Arcs(g[..n])[k]);
      }
      OutAbsent(Arcs(g[..n]), v);
    }
  }

  /** Replacing one list changes the arcs by that list's arcs only. */
  lemma {:induction false} ArcsUpdate(g: seq<seq<int>>, c: int, l: seq<int>)
    requires 0 <= c < |g|
    ensures multiset(Arcs(g[c := l])) + multiset(Row(c, g[c])) == multiset(Arcs(g)) + multiset(Row(c, l))
    decreases |g|
  {
    var n := |g| - 1;
    var h := g[c := l];
    var rn := Row(n, g[n]);
    var a0 := Arcs(g[..n]);
    assert Arcs(g) == a0 + rn;
    if c == n {
      assert h[..n] == g[..n];
      assert Arcs(h) == a0 + Row(n, l);
      Commute(multiset(a0), multiset(Row(c, l)), multiset(Row(c, g[c])));
    } else {
      var h0 := Arcs(g[..n][c := l]);
      assert h[..n] == g[..n][c := l] && h[n] == g[n];
      assert Arcs(h) == h0 + rn;
      ArcsUpdate(g[..n], c, l);
      assert g[..n][c] == g[c];
      Rearrange(multiset(h0), multiset(a0), multiset(rn), multiset(Row(c, g[c])), multiset(Row(c, l)));
    }
  }

  lemma CancelUnion<T>(p: multiset<T>, q: multiset<T>, r: multiset<T>)
    requires p + r == q + r
    ensures p == q
  {
    assert forall y :: p[y] == (p + r)[y] - r[y];
    assert forall y :: q[y] == (q + r)[y] - r[y];
  }

  lemma Commute<T>(p: multiset<T>, a: multiset<T>, b: multiset<T>)
    ensures (p + a) + b == (p + b) + a
  {
  }

  /** Adding `x` on both sides of a balanced union. */
  lemma Rearrange<T>(p: multiset<T>, q: multiset<T>, x: multiset<T>, a: multiset<T>, b: multiset<T>)
    requires p + a == q + b
    ensures (p + x) + a == (q + x) + b
  {
    assert (p + x) + a == (p + a) + x;
    assert (q + x) + b == (q + b) + x;
  }

  /** Taking the first arc of `c`'s list removes exactly that arc. */
  lemma TakeArc(g: seq<seq<int>>, c: int)
    requires 0 <= c < |g| && |g[c]| > 0
    ensures multiset(Arcs(g)) == multiset(Arcs(g[c := g[c][1..]])) + multiset{Arc(c, g[c][0])}
    ensures NumEdges(g[c := g[c][1..]]) == NumEdges(g) - 1
  {
    var rest := Row(c, g[c][1..]);
    ArcsUpdate(g, c, g[c][1..]);
    assert Row(c, g[c]) == [Arc(c, g[c][0])] + rest;
    var m' := multiset(Arcs(g[c := g[c][1..]]));
    assert m' + (multiset{Arc(c, g[c][0])} + multiset(rest)) == multiset(Arcs(g)) + multiset(rest);
    CancelUnion(m' + multiset{Arc(c, g[c][0])}, multiset(Arcs(g)), multiset(rest));
    assert |multiset(Arcs(g))| == |m'| + 1;
  }

  // ---------------------------------------------------------------------
  // Walks given by their vertices
  // ---------------------------------------------------------------------

  /** The arcs between consecutive vertices of `q`. */
  function Steps(q: seq<int>): (r: seq<Arc>)
    ensures |r| == if |q| == 0 then 0 else |q| - 1
  {
    if |q| <= 1 then [] else Steps(q[..|q| - 1]) + [Arc(q[|q| - 2], q[|q| - 1])]
  }

  function Reverse(p: seq<int>): (r: seq<int>)
    ensures |r| == |p| && forall k :: 0 <= k < |p| ==> r[k] == p[|p| - 1 - k]
  {
    if |p| == 0 then [] else [p[|p| - 1]] + Reverse(p[..|p| - 1])
  }

  lemma {:induction false} StepsCons(x: int, q: seq<int>)
    requires |q| > 0
    ensures Steps([x] + q) == [Arc(x, q[0])] + Steps(q)
    decreases |q|
  {
    if |q| > 1 {
      var q' := q[..|q| - 1];
      assert ([x] + q)[..|q|] == [x] + q';
      StepsCons(x, q');
    }
  }

  lemma StepsSnoc(q: seq<int>, x: int)
    requires |q| > 0
    ensures Steps(q + [x]) == Steps(q) + [Arc(q[|q| - 1], x)]
  {
    assert (q + [x])[..|q|] == q;
  }

  /** Every step of `q` joins two of its vertices, the later one at its head. */
  lemma {:induction false} StepsMember(q: seq<int>, a: Arc)
    requires a in Steps(q)
    ensures exists t :: 0 <= t < |q| - 1 && q[t] == a.tail && q[t + 1] == a.head
  {
    var q' := q[..|q| - 1];
    if a in Steps(q') {
      StepsMember(q', a);
      var t :| 0 <= t < |q'| - 1 && q'[t] == a.tail && q'[t + 1] == a.head;
    } else {
      assert q[|q| - 2] == a.tail && q[|q| - 1] == a.head;
    }
  }

  lemma {:induction false} StepsAt(q: seq<int>, t: int)
    requires 0 <= t < |q| - 1
    ensures Arc(q[t], q[t + 1]) in Steps(q)
  {
    if t < |q| - 2 {
      var q' := q[..|q| - 1];
      StepsAt(q', t);
    }
  }

  /** A walk leaves its first vertex once more than it enters it, and enters its last once more. */
  lemma {:induction false} StepsBalance(q: seq<int>, v: int)
    requires |q| > 0
    ensures Out(Steps(q), v) - In(Steps(q), v) == (if v == q[0] then 1 else 0) - (if v == q[|q| - 1] then 1 else 0)
  {
    if |q| > 1 {
      var q' := q[..|q| - 1];
      var a := Arc(q[|q| - 2], q[|q| - 1]);
      assert Steps(q) == Steps(q') + [a];
      StepsBalance(q', v);
      CountConcat(Steps(q'), [a], v);
      CountSingle(a, v);
      assert q'[0] == q[0] && q'[|q'| - 1] == q[|q| - 2];
    } else {
      assert Steps(q) == [];
    }
  }

  lemma CountSingle(a: Arc, v: int)
    ensures Out([a], v) == Ind(a.tail == v) && In([a], v) == Ind(a.head == v)
  {
    assert [a][..0] == [];
  }

  // ---------------------------------------------------------------------
  // Hierholzer's traversal
  // ---------------------------------------------------------------------

  /** What the traversal leaves: the vertices in the order they were popped, and the untaken arcs. */
  datatype Walked = Walked(popped: seq<int>, rest: seq<seq<int>>)

  /**
   * The program's stack loop, from remaining lists `r`, stack `s` (bottom
   * first) and popped vertices `p`: while the top vertex has an untaken
   * arc, take the first and push its head; otherwise pop the top onto `p`.
   */
  function Traverse(r: seq<seq<int>>, s: seq<int>, p: seq<int>): (w: Walked)
    requires Valid(r) && InRange(s, |r|)
    ensures |w.rest| == |r| && Valid(w.rest)
    decreases NumEdges(r), |s|
  {
    if |s| == 0 then Walked(p, r)
    else
      var c := s[|s| - 1];
      if |r[c]| > 0 then
        TakeArc(r, c);
        Traverse(r[c := r[c][1..]], s + [r[c][0]], p)
      else
        Traverse(r, s[..|s| - 1], p + [c])
  }

  /** A push step: the top's first arc is taken and its head pushed. */
  lemma TraversePush(r: seq<seq<int>>, s: seq<int>, p: seq<int>) returns (r': seq<seq<int>>, s': seq<int>)
    requires Valid(r) && InRange(s, |r|) && |s| > 0 && |r[s[|s| - 1]]| > 0
    ensures r' == r[s[|s| - 1] := r[s[|s| - 1]][1..]] && s' == s + [r[s[|s| - 1]][0]]
    ensures Valid(r') && InRange(s', |r'|) && |r'| == |r| && NumEdges(r') == NumEdges(r) - 1
    ensures Traverse(r, s, p) == Traverse(r', s', p)
  {
    var c := s[|s| - 1];
    TakeArc(r, c);
    r', s' := r[c := r[c][1..]], s + [r[c][0]];
    PushShape(r, s, r', s');
  }

  /** A pop step: the top, whose list is empty, moves onto the popped vertices. */
  lemma TraversePop(r: seq<seq<int>>, s: seq<int>, p: seq<int>) returns (s': seq<int>)
    requires Valid(r) && InRange(s, |r|) && |s| > 0 && |r[s[|s| - 1]]| == 0
    ensures s' == s[..|s| - 1] && InRange(s', |r|) && 0 <= s[|s| - 1] < |r|
    ensures Traverse(r, s, p) == Traverse(r, s', p + [s[|s| - 1]])
  {
    s' := s[..|s| - 1];
  }

  /** Each push takes one arc, so one more vertex is popped than arcs are taken. */
  lemma {:induction false} TraverseCount(r: seq<seq<int>>, s: seq<int>, p: seq<int>)
    requires Valid(r) && InRange(s, |r|) && InRange(p, |r|)
    ensures var w := Traverse(r, s, p);
            InRange(w.popped, |r|) && |w.popped| == |p| + |s| + NumEdges(r) - NumEdges(w.rest)
    decreases NumEdges(r), |s|
  {
    if |s| > 0 {
      var c := s[|s| - 1];
      if |r[c]| > 0 {
        var r', s' := TraversePush(r, s, p);
        TraverseCount(r', s', p);
      } else {
        var s' := TraversePop(r, s, p);
        TraverseCount(r, s', p + [c]);
      }
    }
  }

  /** Lists only shrink, and a vertex is popped only once its list is empty. */
  lemma {:induction false} TraverseEmptied(r: seq<seq<int>>, s: seq<int>, p: seq<int>)
    requires Valid(r) && InRange(s, |r|) && InRange(p, |r|)
    requires forall t :: 0 <= t < |p| ==> |r[p[t]]| == 0
    ensures var w := Traverse(r, s, p);
            (forall t :: 0 <= t < |w.popped| ==> 0 <= w.popped[t] < |r| && |w.rest[w.popped[t]]| == 0) &&
            (forall u :: 0 <= u < |r| ==> |w.rest[u]| <= |r[u]|)
    decreases NumEdges(r), |s|
  {
    if |s| > 0 {
      var c := s[|s| - 1];
      if |r[c]| > 0 {
        var r', s' := TraversePush(r, s, p);
        assert forall t :: 0 <= t < |p| ==> p[t] != c && |r'[p[t]]| == 0;
        TraverseEmptied(r', s', p);
      } else {
        var s' := TraversePop(r, s, p);
        TraverseEmptied(r, s', p + [c]);
      }
    }
  }

  /** The bottom of the stack is popped last. */
  lemma {:induction false} TraverseLast(r: seq<seq<int>>, s: seq<int>, p: seq<int>)
    requires Valid(r) && InRange(s, |r|) && |s| > 0
    ensures var w := Traverse(r, s, p);
            |w.popped| > 0 && w.popped[|w.popped| - 1] == s[0]
    decreases NumEdges(r), |s|
  {
    var c := s[|s| - 1];
    if |r[c]| > 0 {
      var r', s' := TraversePush(r, s, p);
      assert s'[0] == s[0];
      TraverseLast(r', s', p);
    } else {
      var s' := TraversePop(r, s, p);
      if |s'| > 0 {
        assert s'[0] == s[0];
        TraverseLast(r, s', p + [c]);
      } else {
        assert |s| == 1 && c == s[0];
        assert Traverse(r, s', p + [c]) == Walked(p + [c], r);
        LastOfSnoc(p, c);
      }
    }
  }

  lemma LastOfSnoc(p: seq<int>, c: int)
    ensures |p + [c]| > 0 && (p + [c])[|p + [c]| - 1] == c
  {
  }

  /** `|r[v]|` less the arcs entering `v`. */
  function Balance(r: seq<seq<int>>, v: int): int
    requires 0 <= v < |r|
  {
    |r[v]| - InDegree(r, v)
  }

  function Ind(b: bool): int
  {
    if b then 1 else 0
  }

  /**
   * The arcs of `g` are those untaken, those between consecutive stack
   * entries, those between consecutive popped vertices, and one pending
   * arc from `hook` into the last popped vertex.
   */
  ghost predicate Accounts(g: seq<seq<int>>, r: seq<seq<int>>, s: seq<int>, p: seq<int>, hook: int)
  {
    multiset(Arcs(g)) ==
      multiset(Arcs(r)) + multiset(Steps(s)) + multiset(Steps(Reverse(p))) +
      (if |p| > 0 then multiset{Arc(hook, p[|p| - 1])} else multiset{})
  }

  /** Taking an arc lowers its tail's out-degree and its head's in-degree by one. */
  lemma TakeBalance(r: seq<seq<int>>, c: int, v: int)
    requires Valid(r) && 0 <= c < |r| && |r[c]| > 0 && 0 <= v < |r|
    ensures Balance(r[c := r[c][1..]], v) == Balance(r, v) - Ind(v == c) + Ind(v == r[c][0])
  {
    var r' := r[c := r[c][1..]];
    var a := Arc(c, r[c][0]);
    TakeArc(r, c);
    assert multiset(Arcs(r)) == multiset(Arcs(r') + [a]);
    CountPerm(Arcs(r), Arcs(r') + [a], v);
    assert (Arcs(r') + [a])[..|Arcs(r')|] == Arcs(r');
  }

  /** Pushing the head `x` of `c`'s first arc moves the surplus from `c` to `x`. */
  lemma PushBalance(r: seq<seq<int>>, c: int, hook: int, r': seq<seq<int>>)
    requires Valid(r) && 0 <= c < |r| && |r[c]| > 0 && r' == r[c := r[c][1..]]
    requires forall v :: 0 <= v < |r| ==> Balance(r, v) == Ind(v == c) - Ind(v == hook)
    ensures forall v :: 0 <= v < |r'| ==> Balance(r', v) == Ind(v == r[c][0]) - Ind(v == hook)
  {
    forall v | 0 <= v < |r|
      ensures Balance(r', v) == Ind(v == r[c][0]) - Ind(v == hook)
    {
      TakeBalance(r, c, v);
    }
  }

  /** Pushing moves the taken arc from the untaken ones to the stack's steps. */
  lemma PushAccounts(g: seq<seq<int>>, r: seq<seq<int>>, s: seq<int>, p: seq<int>, hook: int,
                     r': seq<seq<int>>, s': seq<int>)
    requires Valid(r) && InRange(s, |r|) && |s| > 0 && Accounts(g, r, s, p, hook)
    requires |r[s[|s| - 1]]| > 0
    requires r' == r[s[|s| - 1] := r[s[|s| - 1]][1..]] && s' == s + [r[s[|s| - 1]][0]]
    ensures Accounts(g, r', s', p, hook)
  {
    var c := s[|s| - 1];
    var x := r[c][0];
    TakeArc(r, c);
    StepsSnoc(s, x);
    var a := multiset{Arc(c, x)};
    assert multiset(Steps(s')) == multiset(Steps(s)) + a;
    Shift(multiset(Arcs(g)), multiset(Arcs(r)), multiset(Arcs(r')), multiset(Steps(s)), multiset(Steps(s')),
          multiset(Steps(Reverse(p))), if |p| > 0 then multiset{Arc(hook, p[|p| - 1])} else multiset{}, a);
  }

  lemma Shift<T>(g: multiset<T>, r: multiset<T>, r': multiset<T>, s: multiset<T>, s': multiset<T>,
                 p: multiset<T>, x: multiset<T>, a: multiset<T>)
    requires g == r + s + p + x && r == r' + a && s' == s + a
    ensures g == r' + s' + p + x
  {
  }

  /** Pushing keeps the lists and the stack in range, with the head on top. */
  lemma PushShape(r: seq<seq<int>>, s: seq<int>, r': seq<seq<int>>, s': seq<int>)
    requires Valid(r) && InRange(s, |r|) && |s| > 0 && |r[s[|s| - 1]]| > 0
    requires r' == r[s[|s| - 1] := r[s[|s| - 1]][1..]] && s' == s + [r[s[|s| - 1]][0]]
    ensures Valid(r') && InRange(s', |r'|) && s'[|s'| - 1] == r[s[|s| - 1]][0]
  {
    var c := s[|s| - 1];
    forall u, k | 0 <= u < |r'| && 0 <= k < |r'[u]|
      ensures 0 <= r'[u][k] < |r'|
    {
      if u == c {
        assert r'[u][k] == r[u][k + 1];
      }
    }
  }

  /** Pushing keeps the accounting and moves the surplus to the pushed head. */
  lemma PushKeeps(g: seq<seq<int>>, r: seq<seq<int>>, s: seq<int>, p: seq<int>, hook: int,
                  r': seq<seq<int>>, s': seq<int>)
    requires Valid(r) && InRange(s, |r|) && |s| > 0 && Accounts(g, r, s, p, hook)
    requires forall v :: 0 <= v < |r| ==> Balance(r, v) == Ind(v == s[|s| - 1]) - Ind(v == hook)
    requires |r[s[|s| - 1]]| > 0
    requires r' == r[s[|s| - 1] := r[s[|s| - 1]][1..]] && s' == s + [r[s[|s| - 1]][0]]
    ensures Valid(r') && InRange(s', |r'|) && Accounts(g, r', s', p, hook)
    ensures forall v :: 0 <= v < |r'| ==> Balance(r', v) == Ind(v == s'[|s'| - 1]) - Ind(v == hook)
  {
    PushShape(r, s, r', s');
    PushBalance(r, s[|s| - 1], hook, r');
    PushAccounts(g, r, s, p, hook, r', s');
  }

  /** A vertex with no untaken arc can only be the hook: it has no surplus left. */
  lemma PoppedIsHook(r: seq<seq<int>>, c: int, hook: int)
    requires Valid(r) && 0 <= c < |r| && |r[c]| == 0
    requires forall v :: 0 <= v < |r| ==> Balance(r, v) == Ind(v == c) - Ind(v == hook)
    ensures c == hook && forall v :: 0 <= v < |r| ==> Balance(r, v) == 0
  {
    assert Balance(r, c) == Ind(c == c) - Ind(c == hook);
  }

  lemma ReverseSnoc(p: seq<int>, c: int)
    ensures Reverse(p + [c]) == [c] + Reverse(p)
  {
    assert (p + [c])[..|p|] == p;
  }

  /** Popping the hook turns the pending arc into a step of the popped vertices. */
  lemma PopPending(p: seq<int>, c: int)
    ensures multiset(Steps(Reverse(p + [c]))) ==
            multiset(Steps(Reverse(p))) + (if |p| > 0 then multiset{Arc(c, p[|p| - 1])} else multiset{})
  {
    ReverseSnoc(p, c);
    if |p| > 0 {
      var q := Reverse(p);
      StepsCons(c, q);
      assert q[0] == p[|p| - 1];
      assert Steps([c] + q) == [Arc(c, p[|p| - 1])] + Steps(q);
    } else {
      assert Reverse(p + [c]) == [c];
    }
  }

  lemma Regroup<T>(g: multiset<T>, r: multiset<T>, s: multiset<T>, s': multiset<T>,
                   p: multiset<T>, p': multiset<T>, x: multiset<T>, y: multiset<T>)
    requires g == r + s + p + x && s == s' + y && p' == p + x
    ensures g == r + s' + p' + y
  {
  }

  lemma DropLast(s: seq<int>)
    requires |s| > 0
    ensures s == s[..|s| - 1] + [s[|s| - 1]]
  {
  }

  /** Popping with more below: the stack arc into the popped vertex becomes the pending arc. */
  lemma PopKeeps(g: seq<seq<int>>, r: seq<seq<int>>, s: seq<int>, p: seq<int>)
    requires |s| > 1 && Accounts(g, r, s, p, s[|s| - 1])
    ensures var s' := s[..|s| - 1];
            Accounts(g, r, s', p + [s[|s| - 1]], s'[|s'| - 1])
  {
    var c := s[|s| - 1];
    var s' := s[..|s| - 1];
    PopPending(p, c);
    DropLast(s);
    StepsSnoc(s', c);
    Regroup(multiset(Arcs(g)), multiset(Arcs(r)), multiset(Steps(s)), multiset(Steps(s')),
            multiset(Steps(Reverse(p))), multiset(Steps(Reverse(p + [c]))),
            if |p| > 0 then multiset{Arc(c, p[|p| - 1])} else multiset{},
            multiset{Arc(s'[|s'| - 1], c)});
  }

  /** Popping the last stack entry leaves every arc untaken or a step of the popped vertices. */
  lemma PopLast(g: seq<seq<int>>, r: seq<seq<int>>, s: seq<int>, p: seq<int>)
    requires |s| == 1 && Accounts(g, r, s, p, s[0])
    ensures multiset(Arcs(g)) == multiset(Arcs(r)) + multiset(Steps(Reverse(p + [s[0]])))
  {
    PopPending(p, s[0]);
    assert Steps(s) == [];
  }

  /**
   * Under the degree invariant every arc stays accounted for until the
   * stack empties, when the taken arcs are exactly the steps of the
   * reversed popped sequence.
   */
  lemma {:induction false} TraverseSound(g: seq<seq<int>>, r: seq<seq<int>>, s: seq<int>, p: seq<int>, hook: int)
    requires Valid(r) && InRange(s, |r|) && |s| > 0 && Accounts(g, r, s, p, hook)
    requires forall v :: 0 <= v < |r| ==> Balance(r, v) == Ind(v == s[|s| - 1]) - Ind(v == hook)
    ensures var w := Traverse(r, s, p);
            multiset(Arcs(g)) == multiset(Arcs(w.rest)) + multiset(Steps(Reverse(w.popped)))
    decreases NumEdges(r), |s|
  {
    var c := s[|s| - 1];
    if |r[c]| > 0 {
      var r', s' := TraversePush(r, s, p);
      PushKeeps(g, r, s, p, hook, r', s');
      TraverseSound(g, r', s', p, hook);
    } else {
      PoppedIsHook(r, c, hook);
      var s' := TraversePop(r, s, p);
      if |s'| > 0 {
        PopKeeps(g, r, s, p);
        TraverseSound(g, r, s', p + [c], s'[|s'| - 1]);
      } else {
        PopLast(g, r, s, p);
        assert Traverse(r, s', p + [c]) == Walked(p + [c], r);
      }
    }
  }

  // ---------------------------------------------------------------------
  // Degree sums
  // ---------------------------------------------------------------------

  function Sum(d: seq<int>): int
  {
    if |d| == 0 then 0 else Sum(d[..|d| - 1]) + d[|d| - 1]
  }

  /** The program's `in_out_degree_not_equal_num` over a sequence of balances. */
  function NonZero(d: seq<int>): nat
  {
    if |d| == 0 then 0 else NonZero(d[..|d| - 1]) + (if d[|d| - 1] != 0 then 1 else 0)
  }

  /** The program's `out_degree` array. */
  function OutDegrees(g: seq<seq<int>>): (r: seq<int>)
    ensures |r| == |g| && forall v :: 0 <= v < |g| ==> r[v] == |g[v]|
  {
    seq(|g|, v requires 0 <= v < |g| => |g[v]|)
  }

  /** The program's `in_degree` array. */
  function InDegrees(g: seq<seq<int>>): (r: seq<int>)
    ensures |r| == |g| && forall v :: 0 <= v < |g| ==> r[v] == InDegree(g, v)
  {
    seq(|g|, v requires 0 <= v < |g| => InDegree(g, v))
  }

  function Balances(g: seq<seq<int>>): (r: seq<int>)
    ensures |r| == |g| && forall v :: 0 <= v < |g| ==> r[v] == Balance(g, v)
  {
    seq(|g|, v requires 0 <= v < |g| => Balance(g, v))
  }

  /** Pointwise sums and differences of sequences add up. */
  lemma {:induction false} SumLinear(a: seq<int>, b: seq<int>, c: seq<int>, x: int, y: int)
    requires |a| == |b| == |c|
    requires forall k :: 0 <= k < |c| ==> c[k] == x * a[k] + y * b[k]
    ensures Sum(c) == x * Sum(a) + y * Sum(b)
  {
    if |c| > 0 {
      var n := |c| - 1;
      SumLinear(a[..n], b[..n], c[..n], x, y);
    }
  }

  lemma {:induction false} SumSingle(d: seq<int>, h: int)
    requires 0 <= h < |d| && forall k :: 0 <= k < |d| ==> d[k] == Ind(k == h)
    ensures Sum(d) == 1
  {
    var n := |d| - 1;
    if h < n {
      SumSingle(d[..n], h);
    } else {
      SumZero(d[..n]);
    }
  }

  lemma {:induction false} SumZero(d: seq<int>)
    requires forall k :: 0 <= k < |d| ==> d[k] == 0
    ensures Sum(d) == 0 && NonZero(d) == 0
  {
    if |d| > 0 {
      SumZero(d[..|d| - 1]);
    }
  }

  /** Over vertices `0..n`, the in-counts of arcs whose heads lie below `n` add up to the number of arcs. */
  lemma {:induction false} InTotal(xs: seq<Arc>, n: nat)
    requires forall k :: 0 <= k < |xs| ==> 0 <= xs[k].head < n
    ensures Sum(seq(n, v => In(xs, v))) == |xs|
  {
    var c := seq(n, v => In(xs, v));
    if |xs| == 0 {
      SumZero(c);
    } else {
      var m := |xs| - 1;
      var h := xs[m].head;
      var a := seq(n, v => In(xs[..m], v));
      var b := seq(n, v => Ind(v == h));
      InTotal(xs[..m], n);
      SumSingle(b, h);
      SumLinear(a, b, c, 1, 1);
    }
  }

  lemma {:induction false} OutTotal(g: seq<seq<int>>)
    ensures Sum(OutDegrees(g)) == NumEdges(g)
  {
    if |g| > 0 {
      var n := |g| - 1;
      assert OutDegrees(g)[..n] == OutDegrees(g[..n]);
      OutTotal(g[..n]);
    }
  }

  /** Both the out-degrees and the in-degrees the program accumulates sum to `edges_num`. */
  lemma DegreeSums(g: seq<seq<int>>)
    requires Valid(g)
    ensures Sum(OutDegrees(g)) == NumEdges(g) && Sum(InDegrees(g)) == NumEdges(g)
    ensures Sum(Balances(g)) == 0
  {
    OutTotal(g);
    forall k | 0 <= k < |Arcs(g)|
      ensures 0 <= Arcs(g)[k].head < |g|
    {
      var x := Arcs(g)[k];
      ArcsTails(g, x);
      var j :| 0 <= j < |g[x.tail]| && g[x.tail][j] == x.head;
    }
    InTotal(Arcs(g), |g|);
    assert InDegrees(g) == seq(|g|, v => In(Arcs(g), v));
    SumLinear(OutDegrees(g), InDegrees(g), Balances(g), 1, -1);
  }

  lemma {:induction false} NonZeroClear(d: seq<int>, i: int)
    requires 0 <= i < |d| && d[i] != 0
    ensures NonZero(d[i := 0]) == NonZero(d) - 1 && Sum(d[i := 0]) == Sum(d) - d[i]
  {
    var n := |d| - 1;
    if i < n {
      assert d[i := 0][..n] == d[..n][i := 0];
      NonZeroClear(d[..n], i);
    } else {
      assert d[i := 0][..n] == d[..n];
    }
  }

  /** With one nonzero entry, that entry is the whole sum. */
  lemma {:induction false} OnlyNonZero(d: seq<int>) returns (j: int)
    requires NonZero(d) == 1
    ensures 0 <= j < |d| && d[j] == Sum(d) && forall v :: 0 <= v < |d| && v != j ==> d[v] == 0
  {
    var n := |d| - 1;
    if d[n] != 0 {
      ZeroBack(d[..n]);
      SumZero(d[..n]);
      j := n;
    } else {
      j := OnlyNonZero(d[..n]);
    }
  }

  lemma {:induction false} ZeroBack(d: seq<int>)
    requires NonZero(d) == 0
    ensures forall v :: 0 <= v < |d| ==> d[v] == 0
  {
    if |d| > 0 {
      ZeroBack(d[..|d| - 1]);
    }
  }

  /**
   * Balances summing to zero with exactly two nonzero, one of them `+1`:
   * the other is `-1`.
   */
  lemma OtherEnd(d: seq<int>, i: int) returns (j: int)
    requires 0 <= i < |d| && d[i] == 1 && Sum(d) == 0 && NonZero(d) == 2
    ensures 0 <= j < |d| && j != i && d[j] == -1
    ensures forall v :: 0 <= v < |d| && v != i && v != j ==> d[v] == 0
  {
    NonZeroClear(d, i);
    var e := d[i := 0];
    j := OnlyNonZero(e);
    forall v | 0 <= v < |d| && v != i && v != j
      ensures d[v] == 0
    {
      assert e[v] == d[v];
    }
  }

  /** Balances of a single walk: two nonzero entries if it is open, none if closed. */
  lemma WalkNonZero(d: seq<int>, a: int, b: int)
    requires 0 <= a < |d| && 0 <= b < |d|
    requires forall v :: 0 <= v < |d| ==> d[v] == Ind(v == a) - Ind(v == b)
    ensures NonZero(d) == if a == b then 0 else 2
  {
    if a == b {
      SumZero(d);
    } else {
      NonZeroClear(d, a);
      NonZeroClear(d[a := 0], b);
      SumZero(d[a := 0][b := 0]);
    }
  }

  // ---------------------------------------------------------------------
  // The program
  // ---------------------------------------------------------------------

  /** The first degree loop's choice: the last vertex with an arc, else `start`. */
  function FirstPass(g: seq<seq<int>>, i: nat, start: int): (r: int)
    requires i <= |g|
    ensures r == start || (i <= r < |g| && |g[r]| != 0)
    ensures forall v :: i <= v < |g| && |g[v]| != 0 ==> v <= r < |g| && |g[r]| != 0
    decreases |g| - i
  {
    if i == |g| then start else FirstPass(g, i + 1, if |g[i]| != 0 then i else start)
  }

  /** The second degree loop's choice: the last vertex whose out-degree exceeds its in-degree by one. */
  function SecondPass(g: seq<seq<int>>, i: nat, start: int): (r: int)
    requires i <= |g|
    ensures r == start || (i <= r < |g| && Balance(g, r) == 1)
    ensures forall v :: i <= v < |g| && Balance(g, v) == 1 ==> v <= r < |g| && Balance(g, r) == 1
    decreases |g| - i
  {
    if i == |g| then start else SecondPass(g, i + 1, if InDegree(g, i) + 1 == |g[i]| then i else start)
  }

  function Start(g: seq<seq<int>>): (r: int)
    requires |g| > 0
    ensures 0 <= r < |g|
  {
    SecondPass(g, 0, FirstPass(g, 0, 0))
  }

  datatype Result = Result(found: bool, path: seq<int>)

  /** The traversal from the chosen start. */
  function Hierholzer(g: seq<seq<int>>): (w: Walked)
    requires |g| > 0 && Valid(g)
    ensures InRange(w.popped, |g|) && |w.popped| == 1 + NumEdges(g) - NumEdges(w.rest)
    ensures |w.popped| > 0 && w.popped[|w.popped| - 1] == Start(g)
  {
    TraverseCount(g, [Start(g)], []);
    TraverseLast(g, [Start(g)], []);
    Traverse(g, [Start(g)], [])
  }

  /** The degree condition the program checks, with the start's surplus required when two vertices are unbalanced. */
  predicate DegreesAllow(g: seq<seq<int>>)
    requires |g| > 0
  {
    var unequal := NonZero(Balances(g));
    unequal == 0 || (unequal == 2 && Balance(g, Start(g)) == 1)
  }

  /**
   * `EulerianPath`: found when every arc was taken and the degrees allow a
   * path; the path is then the popped vertices reversed.
   */
  function EulerianPath(g: seq<seq<int>>): (res: Result)
    requires |g| > 0 && Valid(g)
    ensures res.found ==> |res.path| == NumEdges(g) + 1 && InRange(res.path, |g|) && res.path[0] == Start(g)
    ensures !res.found ==> res.path == Hierholzer(g).popped
  {
    var w := Hierholzer(g);
    if |w.popped| == NumEdges(g) + 1 && DegreesAllow(g) then Result(true, Reverse(w.popped))
    else Result(false, w.popped)
  }

  /**
   * The program as written: any two unbalanced vertices are accepted.  It
   * answers like `EulerianPath` wherever that finds a path, and its found
   * paths have the same length and start, though they need not walk the arcs.
   */
  function EulerianPathAsWritten(g: seq<seq<int>>): (res: Result)
    requires |g| > 0 && Valid(g)
    ensures res.found ==> |res.path| == NumEdges(g) + 1 && InRange(res.path, |g|) && res.path[0] == Start(g)
    ensures !res.found ==> res.path == Hierholzer(g).popped
    ensures EulerianPath(g).found ==> res == EulerianPath(g)
  {
    var w := Hierholzer(g);
    var unequal := NonZero(Balances(g));
    if |w.popped| == NumEdges(g) + 1 && (unequal == 0 || unequal == 2) then Result(true, Reverse(w.popped))
    else Result(false, w.popped)
  }

  /** `q` walks every arc of `g` exactly once. */
  ghost predicate EulerPathOf(g: seq<seq<int>>, q: seq<int>)
  {
    |q| > 0 && InRange(q, |g|) && multiset(Steps(q)) == multiset(Arcs(g))
  }

  // ---------------------------------------------------------------------
  // Correctness
  // ---------------------------------------------------------------------

  lemma {:induction false} ArcsHas(g: seq<seq<int>>, u: int, k: int)
    requires 0 <= u < |g| && 0 <= k < |g[u]|
    ensures Arc(u, g[u][k]) in Arcs(g)
    decreases |g|
  {
    var n := |g| - 1;
    if u < n {
      ArcsHas(g[..n], u, k);
    } else {
      assert Row(n, g[n])[k] == Arc(u, g[u][k]);
    }
  }

  /**
   * When the degrees allow a path, the traversal from the chosen start
   * accounts for every arc: each is untaken or a step of the popped
   * vertices reversed.
   */
  lemma Accounted(g: seq<seq<int>>)
    requires |g| > 0 && Valid(g) && DegreesAllow(g)
    ensures var w := Hierholzer(g);
            multiset(Arcs(g)) == multiset(Arcs(w.rest)) + multiset(Steps(Reverse(w.popped)))
  {
    var st := Start(g);
    var d := Balances(g);
    var hook;
    if NonZero(d) == 0 {
      ZeroBack(d);
      hook := st;
    } else {
      DegreeSums(g);
      hook := OtherEnd(d, st);
    }
    forall v | 0 <= v < |g|
      ensures Balance(g, v) == Ind(v == st) - Ind(v == hook)
    {
      assert d[v] == Balance(g, v);
    }
    assert Steps([st]) == [] && Reverse([]) == [];
    TraverseSound(g, g, [st], [], hook);
  }

  /** Whatever the program reports as found walks every arc exactly once, from the chosen start. */
  lemma EulerianPathSound(g: seq<seq<int>>)
    requires |g| > 0 && Valid(g)
    ensures var res := EulerianPath(g);
            res.found ==> EulerPathOf(g, res.path) && res.path[0] == Start(g)
  {
    var res := EulerianPath(g);
    if res.found {
      var w := Hierholzer(g);
      Accounted(g);
      assert |Arcs(w.rest)| == NumEdges(w.rest) == 0;
      assert multiset(Arcs(w.rest)) == multiset{};
    }
  }

  /** A vertex with an empty list is the tail of no arc. */
  lemma EmptyTail(g: seq<seq<int>>, u: int)
    requires 0 <= u < |g| && |g[u]| == 0
    ensures forall x :: x in Arcs(g) ==> x.tail != u
  {
    forall x | x in Arcs(g)
      ensures x.tail != u
    {
      ArcsTails(g, x);
    }
  }

  /** Along an Euler path, a visited vertex whose arcs are all taken passes the visit on to the next one. */
  lemma NextVisited(g: seq<seq<int>>, rest: seq<seq<int>>, walk: seq<int>, q: seq<int>, t0: int)
    requires |rest| == |g|
    requires multiset(Arcs(g)) == multiset(Arcs(rest)) + multiset(Steps(walk))
    requires forall t :: 0 <= t < |walk| ==> 0 <= walk[t] < |g| && |rest[walk[t]]| == 0
    requires multiset(Steps(q)) == multiset(Arcs(g))
    requires 0 <= t0 < |q| - 1 && q[t0] in walk
    ensures q[t0 + 1] in walk
  {
    var a := Arc(q[t0], q[t0 + 1]);
    StepsAt(q, t0);
    assert a in multiset(Arcs(g)) by { assert a in multiset(Steps(q)); }
    var i :| 0 <= i < |walk| && walk[i] == q[t0];
    EmptyTail(rest, walk[i]);
    assert a !in multiset(Arcs(rest));
    InOtherPart(multiset(Arcs(g)), multiset(Arcs(rest)), multiset(Steps(walk)), a);
    StepsMember(walk, a);
    var t :| 0 <= t < |walk| - 1 && walk[t] == a.tail && walk[t + 1] == a.head;
    assert walk[t + 1] == q[t0 + 1];
  }

  /** An element of a sum of two multisets missing from one part lies in the other. */
  lemma InOtherPart<T>(m: multiset<T>, m1: multiset<T>, m2: multiset<T>, x: T)
    requires m == m1 + m2 && x in m && x !in m1
    ensures x in m2
  {
    assert m[x] == m1[x] + m2[x];
  }

  /** Hence every vertex of the path after a visited one is visited too. */
  lemma {:induction false} Spread(g: seq<seq<int>>, rest: seq<seq<int>>, walk: seq<int>, q: seq<int>, t0: int, t1: int)
    requires |rest| == |g|
    requires multiset(Arcs(g)) == multiset(Arcs(rest)) + multiset(Steps(walk))
    requires forall t :: 0 <= t < |walk| ==> 0 <= walk[t] < |g| && |rest[walk[t]]| == 0
    requires multiset(Steps(q)) == multiset(Arcs(g))
    requires 0 <= t0 <= t1 < |q| && q[t0] in walk
    ensures q[t1] in walk
    decreases t1 - t0
  {
    if t0 < t1 {
      NextVisited(g, rest, walk, q, t0);
      Spread(g, rest, walk, q, t0 + 1, t1);
    }
  }

  /** The degrees of a graph with an Euler path `q`: only its ends can be unbalanced. */
  lemma PathBalances(g: seq<seq<int>>, q: seq<int>)
    requires Valid(g) && EulerPathOf(g, q)
    ensures forall v :: 0 <= v < |g| ==> Balance(g, v) == Ind(v == q[0]) - Ind(v == q[|q| - 1])
  {
    forall v | 0 <= v < |g|
      ensures Balance(g, v) == Ind(v == q[0]) - Ind(v == q[|q| - 1])
    {
      ArcsOut(g, v);
      CountPerm(Steps(q), Arcs(g), v);
      StepsBalance(q, v);
    }
  }

  /** Some vertex of an Euler path is popped first in the reversed order: its start when open, or any vertex on it. */
  lemma StartOnPath(g: seq<seq<int>>, q: seq<int>) returns (t: int)
    requires |g| > 0 && Valid(g) && EulerPathOf(g, q) && NumEdges(g) > 0
    ensures 0 <= t < |q| && q[t] == Start(g)
    ensures q[0] != q[|q| - 1] ==> t == 0
  {
    PathBalances(g, q);
    var st := Start(g);
    var f := FirstPass(g, 0, 0);
    if q[0] != q[|q| - 1] {
      assert Balance(g, q[0]) == 1;
      assert Balance(g, st) == 1;
      t := 0;
    } else {
      var x := Arcs(g)[0];
      ArcsTails(g, x);
      assert |g[x.tail]| != 0;
      assert |g[f]| != 0 && st == f;
      ArcsHas(g, f, 0);
      assert Arc(f, g[f][0]) in multiset(Steps(q));
      StepsMember(q, Arc(f, g[f][0]));
      t :| 0 <= t < |q| - 1 && q[t] == f;
    }
  }

  /** A graph with an Euler path passes the program's degree test, in both versions. */
  lemma PathDegrees(g: seq<seq<int>>, q: seq<int>)
    requires |g| > 0 && Valid(g) && EulerPathOf(g, q)
    ensures DegreesAllow(g) && NonZero(Balances(g)) in {0, 2}
  {
    PathBalances(g, q);
    var d := Balances(g);
    WalkNonZero(d, q[0], q[|q| - 1]);
    if q[0] != q[|q| - 1] {
      assert Balance(g, q[0]) == 1;
    }
  }

  /** What the traversal leaves when the degrees allow a path, read along the reversed popped order. */
  lemma Traversed(g: seq<seq<int>>)
    requires |g| > 0 && Valid(g) && DegreesAllow(g)
    ensures var w := Hierholzer(g);
            var walk := Reverse(w.popped);
            multiset(Arcs(g)) == multiset(Arcs(w.rest)) + multiset(Steps(walk)) &&
            (forall t :: 0 <= t < |walk| ==> 0 <= walk[t] < |g| && |w.rest[walk[t]]| == 0) &&
            |walk| > 0 && walk[0] == Start(g)
  {
    Accounted(g);
    TraverseEmptied(g, [Start(g)], []);
  }

  /** Every vertex of an Euler path is popped. */
  lemma PathVisited(g: seq<seq<int>>, q: seq<int>)
    requires |g| > 0 && Valid(g) && EulerPathOf(g, q) && DegreesAllow(g) && NumEdges(g) > 0
    ensures var w := Hierholzer(g);
            forall t :: 0 <= t < |q| ==> q[t] in Reverse(w.popped)
  {
    var w := Hierholzer(g);
    Traversed(g);
    var t0 := StartOnPath(g, q);
    Covered(g, w.rest, Reverse(w.popped), q, t0);
  }

  lemma Covered(g: seq<seq<int>>, rest: seq<seq<int>>, walk: seq<int>, q: seq<int>, t0: int)
    requires |rest| == |g|
    requires multiset(Arcs(g)) == multiset(Arcs(rest)) + multiset(Steps(walk))
    requires forall t :: 0 <= t < |walk| ==> 0 <= walk[t] < |g| && |rest[walk[t]]| == 0
    requires multiset(Steps(q)) == multiset(Arcs(g))
    requires 0 <= t0 < |q| && q[t0] in walk && (q[0] != q[|q| - 1] ==> t0 == 0)
    ensures forall t :: 0 <= t < |q| ==> q[t] in walk
  {
    Spread(g, rest, walk, q, t0, |q| - 1);
    forall t | 0 <= t < |q|
      ensures q[t] in walk
    {
      Spread(g, rest, walk, q, 0, t);
    }
  }

  /** When every vertex of an Euler path is visited, and visited vertices have no arcs left, no arc is left. */
  lemma NothingLeft(g: seq<seq<int>>, rest: seq<seq<int>>, walk: seq<int>, q: seq<int>)
    requires |rest| == |g|
    requires multiset(Arcs(g)) == multiset(Arcs(rest)) + multiset(Steps(walk))
    requires forall t :: 0 <= t < |walk| ==> 0 <= walk[t] < |g| && |rest[walk[t]]| == 0
    requires multiset(Steps(q)) == multiset(Arcs(g))
    requires forall t :: 0 <= t < |q| ==> q[t] in walk
    ensures |Arcs(rest)| == 0
  {
    if |Arcs(rest)| > 0 {
      var a := Arcs(rest)[0];
      assert a in multiset(Arcs(rest));
      assert a in multiset(Steps(q));
      StepsMember(q, a);
      var t :| 0 <= t < |q| - 1 && q[t] == a.tail;
      var i :| 0 <= i < |walk| && walk[i] == q[t];
      EmptyTail(rest, walk[i]);
      assert false;
    }
  }

  /** A graph with an Euler path has every arc taken, so the program finds a path. */
  lemma EulerianPathComplete(g: seq<seq<int>>, q: seq<int>)
    requires |g| > 0 && Valid(g) && EulerPathOf(g, q)
    ensures EulerianPath(g).found && EulerianPathAsWritten(g).found
  {
    PathDegrees(g, q);
    Traversed(g);
    var w := Hierholzer(g);
    if NumEdges(g) > 0 {
      PathVisited(g, q);
      NothingLeft(g, w.rest, Reverse(w.popped), q);
      assert NumEdges(w.rest) == |Arcs(w.rest)|;
    }
  }

  /** The program finds a path exactly when the graph has an Euler path, and what it finds is one. */
  lemma EulerianPathCorrect(g: seq<seq<int>>)
    requires |g| > 0 && Valid(g)
    ensures EulerianPath(g).found <==> exists q :: EulerPathOf(g, q)
    ensures EulerianPath(g).found ==> EulerPathOf(g, EulerianPath(g).path)
  {
    EulerianPathSound(g);
    if exists q :: EulerPathOf(g, q) {
      var q :| EulerPathOf(g, q);
      EulerianPathComplete(g, q);
    }
  }

  // ---------------------------------------------------------------------
  // The degree test as written
  // ---------------------------------------------------------------------

  lemma ExampleArcs()
    ensures var g: seq<seq<int>> := [[1, 1], []];
            Valid(g) && Arcs(g) == [Arc(0, 1), Arc(0, 1)] && NumEdges(g) == 2
  {
    var g: seq<seq<int>> := [[1, 1], []];
    assert g[..1] == [[1, 1]] && |g[..1][..0]| == 0;
    assert Row(0, [1, 1]) == [Arc(0, 1), Arc(0, 1)];
    assert Arcs(g[..1]) == [Arc(0, 1), Arc(0, 1)];
  }

  lemma ExampleDegrees()
    ensures var g: seq<seq<int>> := [[1, 1], []];
            Valid(g) && Arcs(g) == [Arc(0, 1), Arc(0, 1)] && NumEdges(g) == 2 &&
            Balance(g, 0) == 2 && Balance(g, 1) == -2 && NonZero(Balances(g)) == 2 && Start(g) == 0
  {
    var g: seq<seq<int>> := [[1, 1], []];
    ExampleArcs();
    var xs := Arcs(g);
    assert In(xs, 0) == 0 && In(xs, 1) == 2 by {
      assert xs[..1] == [Arc(0, 1)] && |xs[..1][..0]| == 0;
      assert In(xs[..1][..0], 0) == 0 && In(xs[..1][..0], 1) == 0;
      assert In(xs[..1], 0) == 0 && In(xs[..1], 1) == 1;
    }
    var d := Balances(g);
    assert d == [2, -2];
    assert NonZero(d) == 2 by {
      assert d[..1] == [2] && |d[..1][..0]| == 0;
      assert NonZero(d[..1]) == 1;
    }
    assert FirstPass(g, 1, 0) == 0;
    assert SecondPass(g, 1, 0) == 0;
  }

  /** From vertex 0 the first arc 0->1 is taken ... */
  lemma TraversalFirstArc(g: seq<seq<int>>, r1: seq<seq<int>>)
    requires g == [[1, 1], []] && r1 == [[1], []]
    ensures Valid(g) && Valid(r1)
    ensures Traverse(g, [0], []) == Traverse(r1, [0, 1], [])
  {
    assert Valid(g);
    assert g[0][1..] == [1] && g[0][0] == 1;
    var r, s1 := TraversePush(g, [0], []);
    assert r == g[0 := [1]] == r1 && s1 == [0, 1];
  }

  /** ... and 1, with no arcs, is popped. */
  lemma TraversalFirstPop(r1: seq<seq<int>>)
    requires r1 == [[1], []]
    ensures Valid(r1)
    ensures Traverse(r1, [0, 1], []) == Traverse(r1, [0], [1])
  {
    assert Valid(r1);
    var s2 := TraversePop(r1, [0, 1], []);
    assert s2 == [0] && [] + [1] == [1];
  }

  /** Then the second arc 0->1 is taken ... */
  lemma TraversalSecondArc(r1: seq<seq<int>>, r3: seq<seq<int>>)
    requires r1 == [[1], []] && r3 == [[], []]
    ensures Valid(r1) && Valid(r3)
    ensures Traverse(r1, [0], [1]) == Traverse(r3, [0, 1], [1])
  {
    assert Valid(r1) && Valid(r3);
    var r, s3 := TraversePush(r1, [0], [1]);
    SecondArcTaken(r1, r, r3);
    PairDisplay(0, r1[0][0], s3);
  }

  lemma SecondArcTaken(r1: seq<seq<int>>, r: seq<seq<int>>, r3: seq<seq<int>>)
    requires r1 == [[1], []] && r3 == [[], []] && r == r1[0 := r1[0][1..]]
    ensures r == r3 && r1[0][0] == 1
  {
    assert r1[0][1..] == [];
  }

  lemma PairDisplay(a: int, b: int, s: seq<int>)
    requires s == [a] + [b]
    ensures s == [a, b]
  {
  }

  /** ... and 1 and 0, with no arcs left, are popped. */
  lemma TraversalEnd(r3: seq<seq<int>>)
    requires r3 == [[], []]
    ensures Valid(r3)
    ensures Traverse(r3, [0, 1], [1]).popped == [1, 1, 0]
  {
    var s4 := TraversePop(r3, [0, 1], [1]);
    assert s4 == [0] && [1] + [1] == [1, 1];
    var s5 := TraversePop(r3, s4, [1, 1]);
    assert s5 == [] && [1, 1] + [0] == [1, 1, 0];
  }

  lemma ExampleTraversal()
    ensures var g: seq<seq<int>> := [[1, 1], []];
            Valid(g) && Hierholzer(g).popped == [1, 1, 0]
  {
    ExampleDegrees();
    TraversalFirstArc([[1, 1], []], [[1], []]);
    TraversalFirstPop([[1], []]);
    TraversalSecondArc([[1], []], [[], []]);
    TraversalEnd([[], []]);
  }

  /** The vertices 0, 1, 1 are no Euler path of the two arcs 0->1: their second step is no arc. */
  lemma ExampleNotAPath()
    ensures !EulerPathOf([[1, 1], []], [0, 1, 1])
  {
    var g: seq<seq<int>> := [[1, 1], []];
    ExampleArcs();
    assert Steps([0, 1, 1]) == [Arc(0, 1), Arc(1, 1)] by {
      assert [0, 1, 1][..2] == [0, 1] && [0, 1][..1] == [0];
    }
    var walked := multiset([Arc(0, 1), Arc(1, 1)]);
    var present := multiset([Arc(0, 1), Arc(0, 1)]);
    assert Arc(1, 1) in walked && Arc(1, 1) !in present;
  }

  /**
   * With two vertices whose degrees differ by two, the degree test as
   * written passes, and the program reports as a path the vertices
   * 0, 1, 1, whose second step is no arc of the graph; the corrected
   * test rejects the graph, which has no Euler path.
   */
  lemma AsWrittenAcceptsNonPath()
    ensures var g: seq<seq<int>> := [[1, 1], []];
            Valid(g) &&
            EulerianPathAsWritten(g) == Result(true, [0, 1, 1]) && !EulerPathOf(g, [0, 1, 1]) &&
            !EulerianPath(g).found && !exists q :: EulerPathOf(g, q)
  {
    ExampleAsWritten();
    ExampleNotAPath();
    ExampleRejected();
  }

  /** The program as written reports the vertices 0, 1, 1 for the two arcs 0->1. */
  lemma ExampleAsWritten()
    ensures var g: seq<seq<int>> := [[1, 1], []];
            Valid(g) && EulerianPathAsWritten(g) == Result(true, [0, 1, 1])
  {
    ExampleDegrees();
    ExampleTraversal();
    assert Reverse([1, 1, 0]) == [0, 1, 1];
  }

  /** The corrected test rejects the two arcs 0->1, which have no Euler path. */
  lemma ExampleRejected()
    ensures var g: seq<seq<int>> := [[1, 1], []];
            Valid(g) && !EulerianPath(g).found && !exists q :: EulerPathOf(g, q)
  {
    var g: seq<seq<int>> := [[1, 1], []];
    ExampleDegrees();
    assert !DegreesAllow(g);
    EulerianPathCorrect(g);
  }
}
