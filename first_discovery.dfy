/** The tie-break of getShortestPath.  A vertex keeps as its parent the first
    dequeued vertex whose scan finds it; a level is dequeued in the order its
    vertices were first found, and every row is scanned in ascending index
    order.  Read from the start, the path this leaves is the least of all
    shortest walks in dictionary order.  The proof follows the search: each
    level is dequeued in the dictionary order of its vertices' tree paths,
    and each parent is the neighbour on the level above whose tree path
    comes first. */
module FirstDiscovery {
  import opened MatrixSpec
  import opened Reachability
  import opened BreadthFirst
  import opened ShortestPath

  // ---------------------------------------------------------------------
  // Dictionary order

  /** a comes no later than b in dictionary order (a and b of one length). */
  ghost predicate LexLe(a: seq<int>, b: seq<int>)
    requires |a| == |b|
    decreases |a|
  {
    |a| == 0 || a[0] < b[0] || (a[0] == b[0] && LexLe(a[1..], b[1..]))
  }

  lemma {:induction false} LexRefl(a: seq<int>)
    ensures LexLe(a, a)
    decreases |a|
  {
    if |a| > 0 {
      LexRefl(a[1..]);
    }
  }

  lemma {:induction false} LexAntisym(a: seq<int>, b: seq<int>)
    requires |a| == |b| && LexLe(a, b) && LexLe(b, a)
    ensures a == b
    decreases |a|
  {
    if |a| > 0 {
      LexAntisym(a[1..], b[1..]);
      assert a == [a[0]] + a[1..] && b == [b[0]] + b[1..];
    }
  }

  lemma {:induction false} LexTrans(a: seq<int>, b: seq<int>, c: seq<int>)
    requires |a| == |b| == |c| && LexLe(a, b) && LexLe(b, c)
    ensures LexLe(a, c)
    decreases |a|
  {
    if |a| > 0 && a[0] == b[0] == c[0] {
      LexTrans(a[1..], b[1..], c[1..]);
    }
  }

  /** Extending two sequences of one length by one entry each: the order is
      that of the prefixes, and the new entries decide only a tie. */
  lemma {:induction false} LexAppend(x: seq<int>, y: seq<int>, p: int, q: int)
    requires |x| == |y|
    ensures LexLe(x + [p], y + [q]) <==> LexLe(x, y) && (x != y || p <= q)
    decreases |x|
  {
    if |x| == 0 {
      assert x == y && x + [p] == [p] && y + [q] == [q];
      assert [p][1..] == [q][1..];
    } else {
      assert (x + [p])[0] == x[0] && (x + [p])[1..] == x[1..] + [p];
      assert (y + [q])[0] == y[0] && (y + [q])[1..] == y[1..] + [q];
      LexAppend(x[1..], y[1..], p, q);
      assert x == [x[0]] + x[1..] && y == [y[0]] + y[1..];
    }
  }

  // ---------------------------------------------------------------------
  // Tree paths and what getShortestPath promises

  /** The parent P records for v, or -1 for a vertex outside P. */
  function ParentOf(P: seq<int>, v: int): int
  {
    if 0 <= v < |P| then P[v] else -1
  }

  /** The walk of k edges into v that the parents in P describe, from its
      first vertex to v. */
  ghost function TreePath(P: seq<int>, v: int, k: nat): (r: seq<int>)
    ensures |r| == k + 1 && r[k] == v
    decreases k
  {
    if k == 0 then [v] else TreePath(P, ParentOf(P, v), k - 1) + [v]
  }

  /** p, written from its last vertex back to its first, read forwards. */
  function Reversed(p: seq<int>): seq<int>
  {
    seq(|p|, i requires 0 <= i < |p| => p[|p| - 1 - i])
  }

  /** w is a walk from s to e, and it comes first in dictionary order among
      all walks from s to e with as many vertices. */
  ghost predicate LeastWalk(m: Matrix, w: seq<int>, s: int, e: int)
  {
    IsWalk(m, w, s, e) && forall w' | IsWalk(m, w', s, e) && |w'| == |w| :: LexLe(w, w')
  }

  /** A path written backwards is a walk read forwards. */
  lemma ReversedWalk(m: Matrix, p: seq<int>, s: int, e: int)
    requires PathBack(m, p, s, e)
    ensures IsWalk(m, Reversed(p), s, e)
  {
    var w, n := Reversed(p), |p|;
    forall k | 0 <= k < n - 1
      ensures Edge(m, w[k], w[k + 1])
    {
      assert w[k] == p[(n - 2 - k) + 1] && w[k + 1] == p[n - 2 - k];
    }
  }

  /** A single vertex is the only walk of no edges from it to itself. */
  lemma LeastAtStart(m: Matrix, s: int)
    ensures LeastWalk(m, Reversed([s]), s, s)
  {
    assert Reversed([s]) == [s];
    forall w' | IsWalk(m, w', s, s) && |w'| == 1
      ensures LexLe([s], w')
    {
      assert w' == [s];
      LexRefl(w');
    }
  }

  /** The tie-break leaves no choice: two paths that both meet the contract
      of getShortestPath are the same path. */
  lemma ShortestPathUnique(m: Matrix, p: seq<int>, q: seq<int>, s: int, e: int)
    requires PathBack(m, p, s, e) && IsLevel(m, s, e, |p| - 1) && LeastWalk(m, Reversed(p), s, e)
    requires PathBack(m, q, s, e) && IsLevel(m, s, e, |q| - 1) && LeastWalk(m, Reversed(q), s, e)
    ensures p == q
  {
    LevelUnique(m, s, e, |p| - 1, |q| - 1);
    LexAntisym(Reversed(p), Reversed(q));
    forall i | 0 <= i < |p|
      ensures p[i] == q[i]
    {
      assert p[i] == Reversed(p)[|p| - 1 - i] && q[i] == Reversed(q)[|q| - 1 - i];
    }
  }

  /** p, from its first vertex back, steps from each vertex to its parent. */
  ghost predicate FollowsParents(P: seq<int>, p: seq<int>)
  {
    forall k | 0 <= k < |p| - 1 :: ParentOf(P, p[k]) == p[k + 1]
  }

  /** Writing the parent of p[i - 1] at position i extends the prefix that
      follows parents. */
  lemma FollowsExtend(P: seq<int>, p: seq<int>, p': seq<int>, i: int, x: int)
    requires 1 <= i < |p| && FollowsParents(P, p[..i]) && x == ParentOf(P, p[i - 1]) && p' == p[i := x]
    ensures FollowsParents(P, p'[..i + 1])
  {
    assert p'[..i] == p[..i];
  }

  /** Following parents from v and reversing gives v's tree path. */
  lemma {:induction false} TraceIsTreePath(P: seq<int>, p: seq<int>)
    requires |p| >= 1 && FollowsParents(P, p)
    ensures Reversed(p) == TreePath(P, p[0], |p| - 1)
    decreases |p|
  {
    if |p| > 1 {
      var q := p[1..];
      assert FollowsParents(P, q) by {
        forall k | 0 <= k < |q| - 1
          ensures ParentOf(P, q[k]) == q[k + 1]
        {
          assert q[k] == p[k + 1] && q[k + 1] == p[k + 2];
        }
      }
      TraceIsTreePath(P, q);
      assert ParentOf(P, p[0]) == q[0];
      assert Reversed(p) == Reversed(q) + [p[0]];
    } else {
      assert Reversed(p) == [p[0]];
    }
  }

  // ---------------------------------------------------------------------
  // The invariant of the search

  /** P' keeps every parent P has recorded. */
  ghost predicate Keeps(P: seq<int>, P': seq<int>)
  {
    |P'| == |P| && forall x | 0 <= x < |P| && P[x] != -1 :: P'[x] == P[x]
  }

  /** Among the neighbours of v on level j, its parent has the tree path
      that comes first. */
  ghost predicate FirstParentAt(m: Matrix, s: int, P: seq<int>, v: int, j: nat)
    requires 0 <= v < |P|
  {
    forall u | IsLevel(m, s, u, j) && Edge(m, u, v) :: LexLe(TreePath(P, P[v], j), TreePath(P, u, j))
  }

  /** Every vertex on levels 1 to d has that parent. */
  ghost predicate Settled(m: Matrix, s: int, P: seq<int>, d: nat)
  {
    forall v, j: nat | 0 <= v < |P| && j < d && IsLevel(m, s, v, j + 1) :: FirstParentAt(m, s, P, v, j)
  }

  /** A vertex of level d + 1 that has a parent has the one whose tree path
      comes first among its dequeued neighbours on level d. */
  ghost predicate Partial(m: Matrix, s: int, P: seq<int>, d: nat, V: set<int>)
  {
    forall v, u | 0 <= v < |P| && P[v] != -1 && IsLevel(m, s, v, d + 1) && u in V && IsLevel(m, s, u, d) && Edge(m, u, v) ::
      LexLe(TreePath(P, P[v], d), TreePath(P, u, d))
  }

  /** Level d is dequeued in the order of its tree paths: each dequeued
      vertex of the level comes before each one still waiting, and the
      waiting entries of N, at their first occurrence, are in that order. */
  ghost predicate InOrder(m: Matrix, s: int, P: seq<int>, d: nat, V: set<int>, N: seq<int>)
  {
    && (forall a, b | a in V && b !in V && IsLevel(m, s, a, d) && IsLevel(m, s, b, d) ::
         LexLe(TreePath(P, a, d), TreePath(P, b, d)))
    && (forall i, j | 0 <= i < j < |N| && N[i] !in V && N[j] !in V ::
         LexLe(TreePath(P, N[i], d), TreePath(P, N[j], d)) || N[j] in N[..i])
  }

  /** The vertices of level d + 1 queued in X, at their first occurrence,
      are in the order of their tree paths. */
  ghost predicate NextInOrder(m: Matrix, s: int, P: seq<int>, d: nat, X: seq<int>)
  {
    forall i, j | 0 <= i < j < |X| && IsLevel(m, s, X[i], d + 1) && IsLevel(m, s, X[j], d + 1) ::
      LexLe(TreePath(P, X[i], d + 1), TreePath(P, X[j], d + 1)) || X[j] in X[..i]
  }

  /** Every recorded parent has been dequeued. */
  ghost predicate ParentsDequeued(P: seq<int>, V: set<int>)
  {
    forall v | 0 <= v < |P| && P[v] != -1 :: P[v] in V
  }

  ghost predicate FirstInv(m: Matrix, s: int, d: nat, V: set<int>, N: seq<int>, X: seq<int>, P: seq<int>)
  {
    Settled(m, s, P, d) && Partial(m, s, P, d, V) && InOrder(m, s, P, d, V, N) &&
    NextInOrder(m, s, P, d, X) && ParentsDequeued(P, V)
  }

  ghost predicate FirstStateInv(m: Matrix, s: int, t: TreeState)
  {
    FirstInv(m, s, t.d, t.V, t.N, t.X, t.P)
  }

  lemma FirstInit(m: Matrix, s: int)
    requires IsSquare(m) && 0 <= s < |m|
    ensures FirstStateInv(m, s, TreeState(0, {}, [s], [], seq(|m|, _ => -1)))
  {
  }

  // ---------------------------------------------------------------------
  // Parents that stay

  /** Tree paths of vertices up to level d do not change while the parents
      recorded so far stay. */
  lemma {:induction false} TreePathKept(m: Matrix, s: int, P: seq<int>, P': seq<int>, d: nat, v: int, j: nat)
    requires IsSquare(m) && ParentsUpTo(m, s, P, d) && Keeps(P, P')
    requires IsLevel(m, s, v, j) && j <= d
    ensures TreePath(P', v, j) == TreePath(P, v, j)
    decreases j
  {
    if j > 0 {
      WithinInRange(m, s, v, j);
      ParentLevel(m, s, P, d, v, j - 1);
      TreePathKept(m, s, P, P', d, P[v], j - 1);
    }
  }

  /** A vertex of level d + 1 with a parent: the parent lies on level d and
      the tree path is the parent's, then the vertex. */
  lemma ParentedKey(m: Matrix, s: int, P: seq<int>, P': seq<int>, d: nat, y: int)
    requires IsSquare(m) && ParentsUpTo(m, s, P, d) && Keeps(P, P')
    requires 0 <= y < |P| && P[y] != -1 && IsLevel(m, s, y, d + 1)
    ensures IsLevel(m, s, P[y], d) && Edge(m, P[y], y)
    ensures TreePath(P', y, d + 1) == TreePath(P, y, d + 1) == TreePath(P, P[y], d) + [y]
  {
    assert ParentOk(m, s, P, y);
    assert Within(m, s, P[y], d);
    assert IsLevel(m, s, P[y], d);
    TreePathKept(m, s, P, P', d, P[y], d);
  }

  lemma SettledKept(m: Matrix, s: int, P: seq<int>, P': seq<int>, d: nat)
    requires IsSquare(m) && ParentsUpTo(m, s, P, d) && Settled(m, s, P, d) && Keeps(P, P')
    ensures Settled(m, s, P', d)
  {
    forall v, j: nat | 0 <= v < |P'| && j < d && IsLevel(m, s, v, j + 1)
      ensures FirstParentAt(m, s, P', v, j)
    {
      ParentLevel(m, s, P, d, v, j);
      TreePathKept(m, s, P, P', d, P[v], j);
      assert FirstParentAt(m, s, P, v, j);
      forall u | IsLevel(m, s, u, j) && Edge(m, u, v)
        ensures LexLe(TreePath(P', P'[v], j), TreePath(P', u, j))
      {
        TreePathKept(m, s, P, P', d, u, j);
      }
    }
  }

  lemma InOrderKept(m: Matrix, s: int, d: nat, V: set<int>, N: seq<int>, X: seq<int>, P: seq<int>, P': seq<int>)
    requires TreeInv(m, s, d, V, N, X, P) && InOrder(m, s, P, d, V, N) && Keeps(P, P')
    ensures InOrder(m, s, P', d, V, N)
  {
    forall a, b | a in V && b !in V && IsLevel(m, s, a, d) && IsLevel(m, s, b, d)
      ensures LexLe(TreePath(P', a, d), TreePath(P', b, d))
    {
      TreePathKept(m, s, P, P', d, a, d);
      TreePathKept(m, s, P, P', d, b, d);
    }
    forall i, j | 0 <= i < j < |N| && N[i] !in V && N[j] !in V
      ensures LexLe(TreePath(P', N[i], d), TreePath(P', N[j], d)) || N[j] in N[..i]
    {
      assert IsLevel(m, s, N[i], d) && IsLevel(m, s, N[j], d);
      TreePathKept(m, s, P, P', d, N[i], d);
      TreePathKept(m, s, P, P', d, N[j], d);
    }
  }

  lemma NextKept(m: Matrix, s: int, d: nat, V: set<int>, N: seq<int>, X: seq<int>, P: seq<int>, P': seq<int>)
    requires TreeInv(m, s, d, V, N, X, P) && NextInOrder(m, s, P, d, X) && Keeps(P, P')
    ensures NextInOrder(m, s, P', d, X)
  {
    forall i, j | 0 <= i < j < |X| && IsLevel(m, s, X[i], d + 1) && IsLevel(m, s, X[j], d + 1)
      ensures LexLe(TreePath(P', X[i], d + 1), TreePath(P', X[j], d + 1)) || X[j] in X[..i]
    {
      ParentedKey(m, s, P, P', d, X[i]);
      ParentedKey(m, s, P, P', d, X[j]);
    }
  }

  // ---------------------------------------------------------------------
  // One dequeue

  /** Dequeuing N[0]: the level stays in order. */
  lemma InOrderShift(m: Matrix, s: int, d: nat, V: set<int>, N: seq<int>, X: seq<int>, P: seq<int>)
    requires LevelInv(m, s, d, V, N, X) && InOrder(m, s, P, d, V, N) && |N| > 0
    ensures InOrder(m, s, P, d, V + {N[0]}, N[1..])
  {
    var u, V', N' := N[0], V + {N[0]}, N[1..];
    forall a, b | a in V' && b !in V' && IsLevel(m, s, a, d) && IsLevel(m, s, b, d)
      ensures LexLe(TreePath(P, a, d), TreePath(P, b, d))
    {
      if a !in V {
        var k := InSeq(N, b);
        assert N[0] !in V && N[k] !in V && N[..0] == [];
      }
    }
    forall i, j | 0 <= i < j < |N'| && N'[i] !in V' && N'[j] !in V'
      ensures LexLe(TreePath(P, N'[i], d), TreePath(P, N'[j], d)) || N'[j] in N'[..i]
    {
      assert N[i + 1] == N'[i] && N[j + 1] == N'[j];
      assert N[..i + 1] == [N[0]] + N'[..i];
    }
  }

  /** An entry of X + U found in X already keeps the order of X. */
  lemma NextOldEntry(m: Matrix, s: int, P: seq<int>, d: nat, X: seq<int>, U: seq<int>, i: int, j: int, k: int)
    requires NextInOrder(m, s, P, d, X)
    requires 0 <= i < j < |X + U| && |X| <= j && 0 <= k < |X| && X[k] == (X + U)[j]
    requires IsLevel(m, s, (X + U)[i], d + 1) && IsLevel(m, s, (X + U)[j], d + 1)
    ensures LexLe(TreePath(P, (X + U)[i], d + 1), TreePath(P, (X + U)[j], d + 1)) || (X + U)[j] in (X + U)[..i]
  {
    var X' := X + U;
    if k < i {
      assert X'[k] == X[k];
    } else if k == i {
      LexRefl(TreePath(P, X'[i], d + 1));
    } else {
      assert X'[i] == X[i] && X'[..i] == X[..i] && X[k] in X[..i] ==> X[k] in X'[..i];
    }
  }

  /** A neighbour of a dequeued vertex that lies on level d + 1 is in X. */
  lemma NeighbourQueued(m: Matrix, s: int, d: nat, V: set<int>, N: seq<int>, X: seq<int>, u: int, v: int)
    requires LevelInv(m, s, d, V, N, X) && u in V && Edge(m, u, v) && IsLevel(m, s, v, d + 1)
    ensures v in X
  {
    if v in N {
      var i := InSeq(N, v);
    }
  }

  /** A vertex of level d + 1 with a parent is in X. */
  lemma ParentedQueued(m: Matrix, s: int, d: nat, V: set<int>, N: seq<int>, X: seq<int>, P: seq<int>, v: int)
    requires TreeInv(m, s, d, V, N, X, P) && ParentsDequeued(P, V)
    requires 0 <= v < |P| && P[v] != -1 && IsLevel(m, s, v, d + 1)
    ensures v in X
  {
    assert ParentOk(m, s, P, v);
    NeighbourQueued(m, s, d, V, N, X, P[v], v);
  }

  /** A vertex of X has a parent. */
  lemma QueuedParented(m: Matrix, s: int, d: nat, V: set<int>, N: seq<int>, X: seq<int>, P: seq<int>, v: int)
    requires TreeInv(m, s, d, V, N, X, P) && v in X
    ensures 0 <= v < |P| && P[v] != -1
  {
    var i := InSeq(X, v);
  }

  /** Dequeuing a vertex already dequeued: its scan records no parent. */
  lemma StaleAdopt(m: Matrix, s: int, d: nat, V: set<int>, N: seq<int>, X: seq<int>, P: seq<int>)
    requires TreeInv(m, s, d, V, N, X, P) && |N| > 0 && N[0] in V
    ensures Adopt(m, P, N[0], V + {N[0]}, |m|) == P
  {
    var u := N[0];
    assert V + {u} == V;
    assert s in V;
    forall x | 0 <= x < |P| && m[u][x] == 1 && x !in V
      ensures P[x] != -1
    {
      assert Edge(m, u, x);
      if x in X {
        QueuedParented(m, s, d, V, N, X, P, x);
      } else {
        var i := InSeq(N, x);
      }
    }
  }

  /** The scan of a vertex already dequeued queues no new vertex of level
      d + 1. */
  lemma StaleNext(m: Matrix, s: int, d: nat, V: set<int>, N: seq<int>, X: seq<int>, P: seq<int>)
    requires TreeInv(m, s, d, V, N, X, P) && NextInOrder(m, s, P, d, X) && |N| > 0 && N[0] in V
    ensures NextInOrder(m, s, P, d, X + Unvisited(m, N[0], V + {N[0]}, |m|))
  {
    var u := N[0];
    var U := Unvisited(m, u, V + {u}, |m|);
    var X' := X + U;
    forall i, j | 0 <= i < j < |X'| && IsLevel(m, s, X'[i], d + 1) && IsLevel(m, s, X'[j], d + 1)
      ensures LexLe(TreePath(P, X'[i], d + 1), TreePath(P, X'[j], d + 1)) || X'[j] in X'[..i]
    {
      if j >= |X| {
        assert X'[j] == U[j - |X|];
        NeighbourQueued(m, s, d, V, N, X, u, X'[j]);
        var k := InSeq(X, X'[j]);
        NextOldEntry(m, s, P, d, X, U, i, j, k);
      } else {
        assert X'[i] == X[i] && X'[j] == X[j] && X'[..i] == X[..i];
      }
    }
  }

  /** The dequeue of a vertex N[0] not yet visited, and the parents P' its
      scan leaves. */
  ghost predicate FreshScan(m: Matrix, s: int, d: nat, V: set<int>, N: seq<int>, X: seq<int>, P: seq<int>, P': seq<int>)
  {
    TreeInv(m, s, d, V, N, X, P) && FirstInv(m, s, d, V, N, X, P) && |N| > 0 && N[0] !in V &&
    P' == Adopt(m, P, N[0], V + {N[0]}, |m|)
  }

  /** The scan of a fresh vertex keeps the parents recorded, the vertex lies
      on level d, and the level stays in order. */
  lemma FreshBasics(m: Matrix, s: int, d: nat, V: set<int>, N: seq<int>, X: seq<int>, P: seq<int>, P': seq<int>)
    requires FreshScan(m, s, d, V, N, X, P, P')
    ensures Keeps(P, P') && IsLevel(m, s, N[0], d) && InOrder(m, s, P', d, V, N)
  {
    LevelFound(m, s, d, V, N, X);
    InOrderKept(m, s, d, V, N, X, P, P');
  }

  /** A vertex of level d + 1 queued before the scan of a fresh vertex u
      keeps its parent, which was dequeued before u and whose tree path
      comes no later than u's. */
  lemma OldParentKey(m: Matrix, s: int, d: nat, V: set<int>, N: seq<int>, X: seq<int>, P: seq<int>, P': seq<int>, y: int)
    requires FreshScan(m, s, d, V, N, X, P, P') && y in X && IsLevel(m, s, y, d + 1)
    ensures 0 <= y < |P| && P'[y] == P[y] && P[y] in V && P[y] != N[0] && IsLevel(m, s, P[y], d)
    ensures TreePath(P', y, d + 1) == TreePath(P', P[y], d) + [y]
    ensures LexLe(TreePath(P', P[y], d), TreePath(P', N[0], d))
  {
    FreshBasics(m, s, d, V, N, X, P, P');
    QueuedParented(m, s, d, V, N, X, P, y);
    ParentedKey(m, s, P, P', d, y);
    TreePathKept(m, s, P, P', d, P[y], d);
  }

  /** A vertex of level d + 1 that the scan of a fresh vertex u queues for
      the first time gets u as its parent. */
  lemma NewParentKey(m: Matrix, s: int, d: nat, V: set<int>, N: seq<int>, X: seq<int>, P: seq<int>, P': seq<int>, y: int)
    requires FreshScan(m, s, d, V, N, X, P, P')
    requires y in Unvisited(m, N[0], V + {N[0]}, |m|) && y !in X && IsLevel(m, s, y, d + 1)
    ensures 0 <= y < |P| && P[y] == -1 && P'[y] == N[0]
    ensures TreePath(P', y, d + 1) == TreePath(P', N[0], d) + [y]
  {
    if 0 <= y < |P| && P[y] != -1 {
      ParentedQueued(m, s, d, V, N, X, P, y);
    }
  }

  /** One pair of entries of level d + 1 after the scan of a fresh vertex:
      a new entry follows the old ones, and new entries follow one another
      in ascending index order. */
  lemma FreshPair(m: Matrix, s: int, d: nat, V: set<int>, N: seq<int>, X: seq<int>, P: seq<int>, P': seq<int>, i: int, j: int)
    requires FreshScan(m, s, d, V, N, X, P, P') && NextInOrder(m, s, P', d, X)
    requires 0 <= i < j < |X + Unvisited(m, N[0], V + {N[0]}, |m|)|
    requires IsLevel(m, s, (X + Unvisited(m, N[0], V + {N[0]}, |m|))[i], d + 1)
    requires IsLevel(m, s, (X + Unvisited(m, N[0], V + {N[0]}, |m|))[j], d + 1)
    ensures var X' := X + Unvisited(m, N[0], V + {N[0]}, |m|);
      LexLe(TreePath(P', X'[i], d + 1), TreePath(P', X'[j], d + 1)) || X'[j] in X'[..i]
  {
    var U := Unvisited(m, N[0], V + {N[0]}, |m|);
    var X' := X + U;
    var y, z := X'[j], X'[i];
    if j < |X| {
      assert z == X[i] && y == X[j] && X'[..i] == X[..i];
    } else if y in X {
      var k := InSeq(X, y);
      NextOldEntry(m, s, P', d, X, U, i, j, k);
    } else {
      NewAfter(m, s, d, V, N, X, P, P', i, j);
    }
  }

  /** A vertex queued for the first time by the scan of a fresh vertex u
      follows every earlier entry of level d + 1: the old ones have parents
      that come before u, and the earlier new ones smaller indices. */
  lemma NewAfter(m: Matrix, s: int, d: nat, V: set<int>, N: seq<int>, X: seq<int>, P: seq<int>, P': seq<int>, i: int, j: int)
    requires FreshScan(m, s, d, V, N, X, P, P')
    requires 0 <= i < j < |X + Unvisited(m, N[0], V + {N[0]}, |m|)| && |X| <= j
    requires (X + Unvisited(m, N[0], V + {N[0]}, |m|))[j] !in X
    requires IsLevel(m, s, (X + Unvisited(m, N[0], V + {N[0]}, |m|))[i], d + 1)
    requires IsLevel(m, s, (X + Unvisited(m, N[0], V + {N[0]}, |m|))[j], d + 1)
    ensures var X' := X + Unvisited(m, N[0], V + {N[0]}, |m|);
      LexLe(TreePath(P', X'[i], d + 1), TreePath(P', X'[j], d + 1))
  {
    var u := N[0];
    var U := Unvisited(m, u, V + {u}, |m|);
    var X' := X + U;
    var y, z := X'[j], X'[i];
    assert y == U[j - |X|];
    NewParentKey(m, s, d, V, N, X, P, P', y);
    var K := TreePath(P', u, d);
    if z in X {
      OldParentKey(m, s, d, V, N, X, P, P', z);
      LexAppend(TreePath(P', P[z], d), K, z, y);
    } else {
      assert z == U[i - |X|];
      NewParentKey(m, s, d, V, N, X, P, P', z);
      LexRefl(K);
      LexAppend(K, K, z, y);
    }
  }

  /** The scan of a fresh vertex keeps the vertices of level d + 1 queued in
      order. */
  lemma FreshNext(m: Matrix, s: int, d: nat, V: set<int>, N: seq<int>, X: seq<int>, P: seq<int>, P': seq<int>)
    requires FreshScan(m, s, d, V, N, X, P, P')
    ensures NextInOrder(m, s, P', d, X + Unvisited(m, N[0], V + {N[0]}, |m|))
  {
    var X' := X + Unvisited(m, N[0], V + {N[0]}, |m|);
    FreshBasics(m, s, d, V, N, X, P, P');
    NextKept(m, s, d, V, N, X, P, P');
    forall i, j | 0 <= i < j < |X'| && IsLevel(m, s, X'[i], d + 1) && IsLevel(m, s, X'[j], d + 1)
      ensures LexLe(TreePath(P', X'[i], d + 1), TreePath(P', X'[j], d + 1)) || X'[j] in X'[..i]
    {
      FreshPair(m, s, d, V, N, X, P, P', i, j);
    }
  }

  /** The scan of a fresh vertex u keeps the parents of level d + 1 the
      first among the dequeued neighbours. */
  lemma FreshPartial(m: Matrix, s: int, d: nat, V: set<int>, N: seq<int>, X: seq<int>, P: seq<int>, P': seq<int>)
    requires FreshScan(m, s, d, V, N, X, P, P')
    ensures Partial(m, s, P', d, V + {N[0]})
  {
    var u := N[0];
    FreshBasics(m, s, d, V, N, X, P, P');
    forall v, w | 0 <= v < |P'| && P'[v] != -1 && IsLevel(m, s, v, d + 1) && w in V + {u} && IsLevel(m, s, w, d) && Edge(m, w, v)
      ensures LexLe(TreePath(P', P'[v], d), TreePath(P', w, d))
    {
      if w in V {
        NeighbourQueued(m, s, d, V, N, X, w, v);
      }
      if P[v] == -1 {
        LexRefl(TreePath(P', u, d));
      } else {
        ParentedQueued(m, s, d, V, N, X, P, v);
        OldParentKey(m, s, d, V, N, X, P, P', v);
        if w in V {
          TreePathKept(m, s, P, P', d, w, d);
          TreePathKept(m, s, P, P', d, P[v], d);
        }
      }
    }
  }

  /** One dequeue keeps the invariant. */
  lemma FirstStep(m: Matrix, s: int, d: nat, V: set<int>, N: seq<int>, X: seq<int>, P: seq<int>, P': seq<int>)
    requires TreeInv(m, s, d, V, N, X, P) && FirstInv(m, s, d, V, N, X, P) && |N| > 0
    requires P' == Adopt(m, P, N[0], V + {N[0]}, |m|)
    ensures FirstInv(m, s, d, V + {N[0]}, N[1..], X + Unvisited(m, N[0], V + {N[0]}, |m|), P')
  {
    var u := N[0];
    if u in V {
      StaleAdopt(m, s, d, V, N, X, P);
      assert V + {u} == V;
      InOrderShift(m, s, d, V, N, X, P);
      StaleNext(m, s, d, V, N, X, P);
    } else {
      FreshBasics(m, s, d, V, N, X, P, P');
      SettledKept(m, s, P, P', d);
      InOrderShift(m, s, d, V, N, X, P');
      FreshNext(m, s, d, V, N, X, P, P');
      FreshPartial(m, s, d, V, N, X, P, P');
    }
  }

  /** Level d used up: its vertices all dequeued, the parents of level
      d + 1 are settled and the next level is in order. */
  lemma FirstSwap(m: Matrix, s: int, d: nat, V: set<int>, X: seq<int>, P: seq<int>)
    requires LevelInv(m, s, d, V, [], X) && ParentsUpTo(m, s, P, d + 1) && FirstInv(m, s, d, V, [], X, P)
    ensures FirstInv(m, s, d + 1, V, X, [], P)
  {
    forall v, j: nat | 0 <= v < |P| && j < d + 1 && IsLevel(m, s, v, j + 1)
      ensures FirstParentAt(m, s, P, v, j)
    {
      if j == d {
        assert P[v] != -1;
      }
    }
    forall i, j | 0 <= i < j < |X| && X[i] !in V && X[j] !in V
      ensures LexLe(TreePath(P, X[i], d + 1), TreePath(P, X[j], d + 1)) || X[j] in X[..i]
    {
      assert IsLevel(m, s, X[i], d + 1) && IsLevel(m, s, X[j], d + 1);
    }
  }

  /** One iteration of getShortestPath keeps the invariant. */
  lemma FirstStateAdvance(m: Matrix, s: int, t: TreeState, t': TreeState)
    requires TreeStateInv(m, s, t) && FirstStateInv(m, s, t) && |t.N| > 0 && TreeStateInv(m, s, t')
    requires t'.V == t.V + {t.N[0]} && t'.P == Adopt(m, t.P, t.N[0], t'.V, |m|)
    requires |t.N| == 1 ==> t'.d == t.d + 1 && t'.N == t.X + Unvisited(m, t.N[0], t'.V, |m|) && t'.X == []
    requires |t.N| > 1 ==> t'.d == t.d && t'.N == t.N[1..] && t'.X == t.X + Unvisited(m, t.N[0], t'.V, |m|)
    ensures FirstStateInv(m, s, t')
  {
    FirstStep(m, s, t.d, t.V, t.N, t.X, t.P, t'.P);
    if |t.N| == 1 {
      LevelStep(m, s, t.d, t.V, t.N, t.X);
      assert t.N[1..] == [];
      FirstSwap(m, s, t.d, t'.V, t'.N, t'.P);
    }
  }

  // ---------------------------------------------------------------------
  // The path returned

  /** With the parents of levels 1 to d settled, the tree path of a vertex
      on level j <= d comes first among all walks of j edges into it. */
  lemma {:induction false} TreePathLeast(m: Matrix, s: int, P: seq<int>, d: nat, v: int, j: nat, w: seq<int>)
    requires IsSquare(m) && ParentsUpTo(m, s, P, d) && Settled(m, s, P, d)
    requires IsLevel(m, s, v, j) && j <= d
    requires IsWalk(m, w, s, v) && |w| == j + 1
    ensures LexLe(TreePath(P, v, j), w)
    decreases j
  {
    if j == 0 {
      assert w == [s];
      LexRefl(w);
    } else {
      var u, w' := w[j - 1], w[..j];
      assert IsWalk(m, w', s, u);
      WalkWithin(m, w', s, u);
      assert Edge(m, u, v);
      assert IsLevel(m, s, u, j - 1);
      TreePathLeast(m, s, P, d, u, j - 1, w');
      WithinInRange(m, s, v, j);
      assert FirstParentAt(m, s, P, v, j - 1);
      LexTrans(TreePath(P, P[v], j - 1), TreePath(P, u, j - 1), w');
      LexAppend(TreePath(P, P[v], j - 1), w', v, v);
      assert w == w' + [v];
    }
  }

  /** The destination dequeued at level d: the path traced back through the
      parents, read forwards, is the least shortest walk. */
  lemma FirstFound(m: Matrix, s: int, t: TreeState, p: seq<int>)
    requires TreeStateInv(m, s, t) && FirstStateInv(m, s, t) && |t.N| > 0 && t.N[0] !in t.V
    requires PathBack(m, p, s, t.N[0]) && |p| == t.d + 1 && FollowsParents(t.P, p)
    ensures LeastWalk(m, Reversed(p), s, t.N[0])
  {
    var e := p[0];
    TreeStateFound(m, s, t);
    TraceIsTreePath(t.P, p);
    ReversedWalk(m, p, s, e);
    forall w | IsWalk(m, w, s, e) && |w| == |p|
      ensures LexLe(Reversed(p), w)
    {
      TreePathLeast(m, s, t.P, t.d, e, t.d, w);
    }
  }
}
