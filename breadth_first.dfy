/** Invariants of the breadth-first searches in AdjacencyMatrix and the
    lemmas that carry them across one dequeue, one change of level and the
    end of the search.  The searches mark a vertex as visited when it is
    dequeued, so a vertex may sit in a queue more than once. */
module BreadthFirst {
  import opened MatrixSpec
  import opened Reachability

  /** The neighbours x < k of u outside V, in increasing order: what one scan
      of row u appends to the queue. */
  function Unvisited(m: Matrix, u: int, V: set<int>, k: nat): (r: seq<int>)
    requires 0 <= u < |m| && k <= |m[u]|
    ensures forall x :: x in r <==> 0 <= x < k && m[u][x] == 1 && x !in V
    ensures forall a | 0 <= a < |r| :: 0 <= r[a] < k && m[u][r[a]] == 1 && r[a] !in V
    ensures forall a, b | 0 <= a < b < |r| :: r[a] < r[b]
  {
    if k == 0 then []
    else
      var r := Unvisited(m, u, V, k - 1);
      assert forall a | 0 <= a < |r| :: r[a] in r;
      r + (if m[u][k - 1] == 1 && k - 1 !in V then [k - 1] else [])
  }

  /** The vertex numbers of an n-vertex graph. */
  function Vertices(n: int): (r: set<int>)
    ensures forall x :: x in r <==> 0 <= x < n
  {
    if n <= 0 then {} else Vertices(n - 1) + {n - 1}
  }

  lemma {:induction false} VerticesCard(n: nat)
    ensures |Vertices(n)| == n
  {
    if n > 0 {
      VerticesCard(n - 1);
    }
  }

  /** A set of vertices has as many members as the graph exactly when it is
      all of them. */
  lemma FullIffAll(V: set<int>, n: nat)
    requires V <= Vertices(n)
    ensures |V| == n <==> Vertices(n) <= V
  {
    VerticesCard(n);
    if |V| == n && !(Vertices(n) <= V) {
      var x :| x in Vertices(n) && x !in V;
      assert V <= Vertices(n) - {x};
      assert |Vertices(n) - {x}| == n - 1;
      SubsetCard(V, Vertices(n) - {x});
      assert false;
    }
    if Vertices(n) <= V {
      assert V == Vertices(n);
    }
  }

  lemma SubsetCard(A: set<int>, B: set<int>)
    requires A <= B
    ensures |A| <= |B|
  {
    assert B == A + (B - A);
  }

  /** One more column of the scan of row u. */
  lemma UnvisitedNext(m: Matrix, u: int, V: set<int>, k: nat)
    requires 0 <= u < |m| && k < |m[u]|
    ensures m[u][k] == 1 && k !in V ==> Unvisited(m, u, V, k + 1) == Unvisited(m, u, V, k) + [k]
    ensures !(m[u][k] == 1 && k !in V) ==> Unvisited(m, u, V, k + 1) == Unvisited(m, u, V, k)
  {
    assert Unvisited(m, u, V, k) + [] == Unvisited(m, u, V, k);
  }

  /** The position of a member of a queue. */
  lemma InSeq(q: seq<int>, x: int) returns (i: int)
    requires x in q
    ensures 0 <= i < |q| && q[i] == x
  {
    i :| 0 <= i < |q| && q[i] == x;
  }

  /** Number of queue entries already visited: the entries that will be
      dequeued and dropped without further work. */
  function Stale(q: seq<int>, V: set<int>): nat
  {
    if q == [] then 0 else (if q[0] in V then 1 else 0) + Stale(q[1..], V)
  }

  lemma {:induction false} StaleAppend(a: seq<int>, b: seq<int>, V: set<int>)
    ensures Stale(a + b, V) == Stale(a, V) + Stale(b, V)
  {
    if a == [] {
      assert a + b == b;
    } else {
      assert (a + b)[0] == a[0];
      assert (a + b)[1..] == a[1..] + b;
      StaleAppend(a[1..], b, V);
    }
  }

  lemma {:induction false} StaleNone(q: seq<int>, V: set<int>)
    requires forall i | 0 <= i < |q| :: q[i] !in V
    ensures Stale(q, V) == 0
  {
    if q != [] {
      StaleNone(q[1..], V);
    }
  }

  /** Visiting a new vertex leaves one vertex fewer to visit. */
  lemma RemainingShrinks(n: int, V: set<int>, u: int)
    requires 0 <= u < n && u !in V
    ensures |Vertices(n) - (V + {u})| < |Vertices(n) - V|
  {
    assert Vertices(n) - V == (Vertices(n) - (V + {u})) + {u};
  }

  /** One dequeue of q[0], followed by appending the fresh neighbours U,
      lowers the measure (unvisited vertices, stale queue entries). */
  lemma QueueMeasure(n: int, V: set<int>, q: seq<int>, U: seq<int>)
    requires |q| > 0 && 0 <= q[0] < n && V <= Vertices(n)
    requires forall i | 0 <= i < |U| :: U[i] !in V + {q[0]}
    ensures var V' := V + {q[0]};
      |Vertices(n) - V'| < |Vertices(n) - V| ||
      (|Vertices(n) - V'| == |Vertices(n) - V| && Stale(q[1..] + U, V') < Stale(q, V))
  {
    var u := q[0];
    if u !in V {
      RemainingShrinks(n, V, u);
    } else {
      assert V + {u} == V;
      StaleAppend(q[1..], U, V);
      StaleNone(U, V);
    }
  }

  /** The same measure for a search that keeps the current level N and the
      next level X in two queues. */
  lemma TwoQueueMeasure(n: int, V: set<int>, N: seq<int>, X: seq<int>, U: seq<int>)
    requires |N| > 0 && 0 <= N[0] < n && V <= Vertices(n)
    requires forall i | 0 <= i < |U| :: U[i] !in V + {N[0]}
    ensures var V' := V + {N[0]};
      |Vertices(n) - V'| < |Vertices(n) - V| ||
      (|Vertices(n) - V'| == |Vertices(n) - V| && Stale(N[1..] + (X + U), V') < Stale(N + X, V))
  {
    QueueMeasure(n, V, N + X, U);
    assert (N + X)[0] == N[0];
    assert (N + X)[1..] + U == N[1..] + (X + U);
  }

  // ---------------------------------------------------------------------
  // Two queues, one level at a time (getDistance, getShortestPath)

  /** State of the search at level d: V holds the dequeued vertices, N the
      rest of level d, X the vertices found for level d + 1. */
  ghost predicate LevelInv(m: Matrix, s: int, d: nat, V: set<int>, N: seq<int>, X: seq<int>)
  {
    && IsSquare(m) && 0 <= s < |m|
    && (forall x | x in V :: 0 <= x < |m| && Within(m, s, x, d))
    && (forall i | 0 <= i < |N| :: 0 <= N[i] < |m| && Within(m, s, N[i], d))
    && (forall i | 0 <= i < |X| :: 0 <= X[i] < |m| && Within(m, s, X[i], d + 1))
    && (forall v | Within(m, s, v, d) :: v in V || v in N)
    && (forall v | d > 0 && Within(m, s, v, d - 1) :: v in V)
    && (forall u, v | u in V && Edge(m, u, v) :: v in V || v in N || v in X)
  }

  lemma LevelInit(m: Matrix, s: int)
    requires IsSquare(m) && 0 <= s < |m|
    ensures LevelInv(m, s, 0, {}, [s], [])
  {
  }

  /** Dequeuing N[0] and appending its unvisited neighbours keeps the
      invariant. */
  lemma LevelStep(m: Matrix, s: int, d: nat, V: set<int>, N: seq<int>, X: seq<int>)
    requires LevelInv(m, s, d, V, N, X) && |N| > 0
    ensures var u := N[0]; var V' := V + {u};
      LevelInv(m, s, d, V', N[1..], X + Unvisited(m, u, V', |m|))
  {
    var u := N[0];
    var V' := V + {u};
    var U := Unvisited(m, u, V', |m|);
    forall x | x in U
      ensures Within(m, s, x, d + 1)
    {
      WithinStep(m, s, u, x, d);
    }
    forall v | Within(m, s, v, d)
      ensures v in V' || v in N[1..]
    {
      assert v in V || v in N;
      assert v in N ==> v == N[0] || v in N[1..];
    }
    forall w, v | w in V' && Edge(m, w, v)
      ensures v in V' || v in N[1..] || v in X + U
    {
      assert v in N ==> v == N[0] || v in N[1..];
    }
  }

  /** One iteration of the two-queue search, stated on the state the
      iteration leaves behind (d', V', N', X'): dequeue N[0], append its
      unvisited neighbours to the next level and, when level d is used up,
      move to level d + 1.  The invariant is kept and the measure drops. */
  lemma LevelAdvance(m: Matrix, s: int, d: nat, V: set<int>, N: seq<int>, X: seq<int>,
                     d': nat, V': set<int>, N': seq<int>, X': seq<int>)
    requires LevelInv(m, s, d, V, N, X) && |N| > 0
    requires V' == V + {N[0]}
    requires |N| == 1 ==> d' == d + 1 && N' == X + Unvisited(m, N[0], V', |m|) && X' == []
    requires |N| > 1 ==> d' == d && N' == N[1..] && X' == X + Unvisited(m, N[0], V', |m|)
    ensures LevelInv(m, s, d', V', N', X')
    ensures |N'| == 0 ==> |X'| == 0
    ensures |Vertices(|m|) - V'| < |Vertices(|m|) - V| ||
      (|Vertices(|m|) - V'| == |Vertices(|m|) - V| && Stale(N' + X', V') < Stale(N + X, V))
  {
    var U := Unvisited(m, N[0], V', |m|);
    LevelStep(m, s, d, V, N, X);
    TwoQueueMeasure(|m|, V, N, X, U);
    if |N| == 1 {
      assert N[1..] == [];
      LevelSwap(m, s, d, V', X + U);
      assert N[1..] + (X + U) == N' + X';
    }
  }

  /** When level d is used up, the vertices found for level d + 1 become the
      current level. */
  lemma LevelSwap(m: Matrix, s: int, d: nat, V: set<int>, X: seq<int>)
    requires LevelInv(m, s, d, V, [], X)
    ensures LevelInv(m, s, d + 1, V, X, [])
  {
    forall x | x in V
      ensures Within(m, s, x, d + 1)
    {
      WithinSucc(m, s, x, d);
    }
  }

  /** The vertex dequeued at level d, never dequeued before, lies at level d. */
  lemma LevelFound(m: Matrix, s: int, d: nat, V: set<int>, N: seq<int>, X: seq<int>)
    requires LevelInv(m, s, d, V, N, X) && |N| > 0 && N[0] !in V
    ensures IsLevel(m, s, N[0], d)
  {
  }

  /** When both queues are empty, the visited set holds every vertex that can
      be reached. */
  lemma LevelExhausted(m: Matrix, s: int, d: nat, V: set<int>, v: int)
    requires LevelInv(m, s, d, V, [], [])
    ensures Reachable(m, s, v) <==> v in V
  {
    assert Within(m, s, s, d);
    if Reachable(m, s, v) {
      var k: nat :| Within(m, s, v, k);
      ClosedHoldsWithin(m, s, V, v, k);
    }
    if v in V {
      assert Within(m, s, v, d);
    }
  }

  // ---------------------------------------------------------------------
  // One queue (isPath, isConnected)

  /** State of the single-queue search from s: V dequeued, Q waiting. */
  ghost predicate SearchInv(m: Matrix, s: int, V: set<int>, Q: seq<int>)
  {
    && IsSquare(m) && 0 <= s < |m|
    && (forall x | x in V :: 0 <= x < |m| && Reachable(m, s, x))
    && (forall i | 0 <= i < |Q| :: 0 <= Q[i] < |m| && Reachable(m, s, Q[i]))
    && (s in V || s in Q)
    && (forall u, v | u in V && Edge(m, u, v) :: v in V || v in Q)
  }

  lemma SearchInit(m: Matrix, s: int)
    requires IsSquare(m) && 0 <= s < |m|
    ensures SearchInv(m, s, {}, [s])
  {
    assert Within(m, s, s, 0);
  }

  lemma SearchStep(m: Matrix, s: int, V: set<int>, Q: seq<int>, U: seq<int>, V': set<int>, Q': seq<int>)
    requires SearchInv(m, s, V, Q) && |Q| > 0
    requires V' == V + {Q[0]} && U == Unvisited(m, Q[0], V', |m|) && Q' == Q[1..] + U
    ensures SearchInv(m, s, V', Q')
  {
    SearchStepReach(m, s, Q[0], U, V');
    SearchStepQueue(m, s, Q, U);
    SearchStepClosed(m, V, Q, U);
    if s !in V' {
      var t := InSeq(Q, s);
      assert Q'[t - 1] == s;
    }
  }

  lemma SearchStepQueue(m: Matrix, s: int, Q: seq<int>, U: seq<int>)
    requires |Q| > 0
    requires forall i | 0 <= i < |Q| :: 0 <= Q[i] < |m| && Reachable(m, s, Q[i])
    requires forall i | 0 <= i < |U| :: 0 <= U[i] < |m| && Reachable(m, s, U[i])
    ensures forall i | 0 <= i < |Q[1..] + U| :: 0 <= (Q[1..] + U)[i] < |m| && Reachable(m, s, (Q[1..] + U)[i])
  {
    var Q' := Q[1..] + U;
    forall i | 0 <= i < |Q'|
      ensures 0 <= Q'[i] < |m| && Reachable(m, s, Q'[i])
    {
      if i < |Q| - 1 {
        assert Q'[i] == Q[i + 1];
      } else {
        assert Q'[i] == U[i - (|Q| - 1)];
      }
    }
  }

  lemma SearchStepClosed(m: Matrix, V: set<int>, Q: seq<int>, U: seq<int>)
    requires IsSquare(m) && |Q| > 0 && 0 <= Q[0] < |m|
    requires forall u, v | u in V && Edge(m, u, v) :: v in V || v in Q
    requires U == Unvisited(m, Q[0], V + {Q[0]}, |m|)
    ensures forall w, v | w in V + {Q[0]} && Edge(m, w, v) :: v in V + {Q[0]} || v in Q[1..] + U
  {
    forall w, v | w in V + {Q[0]} && Edge(m, w, v)
      ensures v in V + {Q[0]} || v in Q[1..] + U
    {
      if v !in V + {Q[0]} {
        if w == Q[0] {
          assert v in U;
        } else {
          var t := InSeq(Q, v);
          assert (Q[1..] + U)[t - 1] == v;
        }
      }
    }
  }

  lemma SearchStepReach(m: Matrix, s: int, u: int, U: seq<int>, V: set<int>)
    requires IsSquare(m) && 0 <= u < |m| && Reachable(m, s, u) && U == Unvisited(m, u, V, |m|)
    ensures forall i | 0 <= i < |U| :: 0 <= U[i] < |m| && Reachable(m, s, U[i])
  {
    var k: nat :| Within(m, s, u, k);
    forall i | 0 <= i < |U|
      ensures Reachable(m, s, U[i])
    {
      WithinStep(m, s, u, U[i], k);
    }
  }

  /** One iteration of the single-queue search, stated on the state it leaves
      behind: the invariant is kept and the measure drops. */
  lemma SearchAdvance(m: Matrix, s: int, V: set<int>, Q: seq<int>, V': set<int>, Q': seq<int>)
    requires SearchInv(m, s, V, Q) && |Q| > 0
    requires V' == V + {Q[0]} && Q' == Q[1..] + Unvisited(m, Q[0], V', |m|)
    ensures SearchInv(m, s, V', Q')
    ensures |Vertices(|m|) - V'| < |Vertices(|m|) - V| ||
      (|Vertices(|m|) - V'| == |Vertices(|m|) - V| && Stale(Q', V') < Stale(Q, V))
  {
    SearchStep(m, s, V, Q, Unvisited(m, Q[0], V', |m|), V', Q');
    QueueMeasure(|m|, V, Q, Unvisited(m, Q[0], V', |m|));
  }

  lemma SearchExhausted(m: Matrix, s: int, V: set<int>, v: int)
    requires SearchInv(m, s, V, [])
    ensures Reachable(m, s, v) <==> v in V
  {
    if Reachable(m, s, v) {
      var k: nat :| Within(m, s, v, k);
      ClosedHoldsWithin(m, s, V, v, k);
    }
  }
}
