/** The parent array of getShortestPath: while the two-queue search runs,
    every vertex of the current level other than the start, and every vertex
    queued for the next level, has a parent one level closer to the start. */
module ShortestPath {
  import opened MatrixSpec
  import opened Reachability
  import opened BreadthFirst

  /** p lies one level closer to s than v does. */
  ghost predicate ParentCloser(m: Matrix, s: int, p: int, v: int)
  {
    forall k: nat | IsLevel(m, s, v, k + 1) :: Within(m, s, p, k)
  }

  /** The parent recorded for v, if any, is a vertex with an edge to v, one
      level closer to s. */
  ghost predicate ParentOk(m: Matrix, s: int, P: seq<int>, v: int)
    requires 0 <= v < |P|
  {
    P[v] != -1 ==> 0 <= P[v] < |m| && Edge(m, P[v], v) && ParentCloser(m, s, P[v], v)
  }

  /** The parents after the scan of row u has reached column k: every
      neighbour x < k of u outside V that had no parent gets u. */
  function Adopt(m: Matrix, P: seq<int>, u: int, V: set<int>, k: nat): (r: seq<int>)
    requires IsSquare(m) && 0 <= u < |m| && |P| == |m|
    ensures |r| == |P|
  {
    seq(|P|, v requires 0 <= v < |P| => if v < k && P[v] == -1 && m[u][v] == 1 && v !in V then u else P[v])
  }

  /** Before the scan no parent has changed. */
  lemma AdoptNone(m: Matrix, P: seq<int>, u: int, V: set<int>)
    requires IsSquare(m) && 0 <= u < |m| && |P| == |m|
    ensures Adopt(m, P, u, V, 0) == P
  {
  }

  /** The scan of row u in getShortestPath has passed column k: added holds
      the neighbours found so far and cur the parents recorded so far. */
  ghost predicate AdoptInv(m: Matrix, P: seq<int>, u: int, V: set<int>, k: nat, added: seq<int>, cur: seq<int>)
    requires IsSquare(m) && 0 <= u < |m| && |P| == |m| && k <= |m|
  {
    added == Unvisited(m, u, V, k) && cur == Adopt(m, P, u, V, k)
  }

  /** One more column of the scan: a neighbour outside V is appended, and
      becomes a child of u when it had no parent. */
  lemma AdoptNext(m: Matrix, P: seq<int>, u: int, V: set<int>, k: nat,
                  added: seq<int>, cur: seq<int>, added': seq<int>, next: seq<int>)
    requires IsSquare(m) && 0 <= u < |m| && |P| == |m| && k < |P|
    requires AdoptInv(m, P, u, V, k, added, cur)
    requires added' == if m[u][k] == 1 && k !in V then added + [k] else added
    requires next == if m[u][k] == 1 && k !in V && cur[k] == -1 then cur[k := u] else cur
    ensures AdoptInv(m, P, u, V, k + 1, added', next)
  {
    UnvisitedNext(m, u, V, k);
  }

  /** A path written backwards, as getShortestPath returns it: p[0] == e,
      the last entry is s, and each entry is entered from the next one. */
  ghost predicate PathBack(m: Matrix, p: seq<int>, s: int, e: int)
  {
    |p| >= 1 && p[0] == e && p[|p| - 1] == s &&
    forall k | 0 <= k < |p| - 1 :: Edge(m, p[k + 1], p[k])
  }

  /** The first i entries of p are linked backwards by edges. */
  ghost predicate LinkedBack(m: Matrix, p: seq<int>, i: int)
  {
    forall k | 0 <= k < i - 1 && k + 1 < |p| :: Edge(m, p[k + 1], p[k])
  }

  /** Writing the parent of p[i - 1] at position i extends the linked prefix. */
  lemma LinkedBackExtend(m: Matrix, p: seq<int>, p': seq<int>, i: int, x: int)
    requires 1 <= i < |p| && LinkedBack(m, p, i) && Edge(m, x, p[i - 1]) && p' == p[i := x]
    ensures LinkedBack(m, p', i + 1)
  {
  }

  /** Every recorded parent is sound, and every vertex other than s within d
      steps of s has one. */
  ghost predicate ParentsUpTo(m: Matrix, s: int, P: seq<int>, d: nat)
  {
    && |P| == |m|
    && (forall v | 0 <= v < |P| :: ParentOk(m, s, P, v))
    && (forall v | 0 <= v < |P| && v != s && Within(m, s, v, d) :: P[v] != -1)
  }

  /** LevelInv extended by the parent array P. */
  ghost predicate TreeInv(m: Matrix, s: int, d: nat, V: set<int>, N: seq<int>, X: seq<int>, P: seq<int>)
  {
    && LevelInv(m, s, d, V, N, X) && ParentsUpTo(m, s, P, d)
    && (forall i | 0 <= i < |X| :: P[X[i]] != -1)
    && (s in V || (V == {} && |N| > 0 && N[0] == s))
  }

  lemma TreeInit(m: Matrix, s: int)
    requires IsSquare(m) && 0 <= s < |m|
    ensures TreeInv(m, s, 0, {}, [s], [], seq(|m|, _ => -1))
  {
    LevelInit(m, s);
  }

  /** The parent u given to a vertex v without one lies a level closer. */
  lemma AdoptCloser(m: Matrix, s: int, d: nat, V: set<int>, N: seq<int>, X: seq<int>, P: seq<int>, v: int)
    requires TreeInv(m, s, d, V, N, X, P) && |N| > 0
    requires 0 <= v < |P| && P[v] == -1 && Edge(m, N[0], v) && v !in V + {N[0]}
    ensures ParentCloser(m, s, N[0], v)
  {
    var u := N[0];
    WithinStep(m, s, u, v, d);
    assert IsLevel(m, s, v, d + 1);
    forall k: nat | IsLevel(m, s, v, k + 1)
      ensures Within(m, s, u, k)
    {
      LevelUnique(m, s, v, k + 1, d + 1);
    }
  }

  /** One iteration of getShortestPath, stated on the state it leaves behind:
      the search invariant and the parent invariant are kept, and the
      measure drops. */
  lemma TreeAdvance(m: Matrix, s: int, d: nat, V: set<int>, N: seq<int>, X: seq<int>, P: seq<int>,
                    d': nat, V': set<int>, N': seq<int>, X': seq<int>, P': seq<int>)
    requires TreeInv(m, s, d, V, N, X, P) && |N| > 0
    requires V' == V + {N[0]} && P' == Adopt(m, P, N[0], V', |m|)
    requires |N| == 1 ==> d' == d + 1 && N' == X + Unvisited(m, N[0], V', |m|) && X' == []
    requires |N| > 1 ==> d' == d && N' == N[1..] && X' == X + Unvisited(m, N[0], V', |m|)
    ensures TreeInv(m, s, d', V', N', X', P')
    ensures |N'| == 0 ==> |X'| == 0
    ensures |Vertices(|m|) - V'| < |Vertices(|m|) - V| ||
      (|Vertices(|m|) - V'| == |Vertices(|m|) - V| && Stale(N' + X', V') < Stale(N + X, V))
  {
    LevelAdvance(m, s, d, V, N, X, d', V', N', X');
    var u := N[0];
    var U := Unvisited(m, u, V', |m|);
    forall v | 0 <= v < |P'|
      ensures ParentOk(m, s, P', v)
    {
      if P[v] == -1 && P'[v] != -1 {
        AdoptCloser(m, s, d, V, N, X, P, v);
      } else {
        assert ParentOk(m, s, P, v);
      }
    }
    forall i | 0 <= i < |X + U|
      ensures P'[(X + U)[i]] != -1
    {
      if i >= |X| {
        assert (X + U)[i] == U[i - |X|];
      }
    }
    forall v | 0 <= v < |P'| && v != s && Within(m, s, v, d')
      ensures P'[v] != -1
    {
      if d' == d + 1 && !Within(m, s, v, d) {
        assert v in N';
        var i := InSeq(N', v);
      }
    }
  }

  /** The variables of getShortestPath's loop: depth, visited, the two
      queues and the parent array. */
  datatype TreeState = TreeState(d: nat, V: set<int>, N: seq<int>, X: seq<int>, P: seq<int>)

  ghost predicate TreeStateInv(m: Matrix, s: int, t: TreeState)
  {
    TreeInv(m, s, t.d, t.V, t.N, t.X, t.P)
  }

  /** TreeAdvance on states. */
  lemma TreeStateAdvance(m: Matrix, s: int, t: TreeState, t': TreeState)
    requires TreeStateInv(m, s, t) && |t.N| > 0
    requires t'.V == t.V + {t.N[0]} && t'.P == Adopt(m, t.P, t.N[0], t'.V, |m|)
    requires |t.N| == 1 ==> t'.d == t.d + 1 && t'.N == t.X + Unvisited(m, t.N[0], t'.V, |m|) && t'.X == []
    requires |t.N| > 1 ==> t'.d == t.d && t'.N == t.N[1..] && t'.X == t.X + Unvisited(m, t.N[0], t'.V, |m|)
    ensures TreeStateInv(m, s, t')
    ensures |t'.N| == 0 ==> |t'.X| == 0
    ensures |Vertices(|m|) - t'.V| < |Vertices(|m|) - t.V| ||
      (|Vertices(|m|) - t'.V| == |Vertices(|m|) - t.V| && Stale(t'.N + t'.X, t'.V) < Stale(t.N + t.X, t.V))
  {
    TreeAdvance(m, s, t.d, t.V, t.N, t.X, t.P, t'.d, t'.V, t'.N, t'.X, t'.P);
  }

  /** The destination is dequeued: it lies on the current level, and every
      vertex up to that level has its parent. */
  lemma TreeStateFound(m: Matrix, s: int, t: TreeState)
    requires TreeStateInv(m, s, t) && |t.N| > 0 && t.N[0] !in t.V
    ensures IsLevel(m, s, t.N[0], t.d) && ParentsUpTo(m, s, t.P, t.d)
  {
    LevelFound(m, s, t.d, t.V, t.N, t.X);
  }

  /** Both queues are empty: exactly the visited vertices are reachable. */
  lemma TreeStateExhausted(m: Matrix, s: int, t: TreeState, v: int)
    requires TreeStateInv(m, s, t) && t.N == [] && t.X == []
    ensures Reachable(m, s, v) <==> v in t.V
  {
    LevelExhausted(m, s, t.d, t.V, v);
  }

  /** Following parents from a vertex of level k + 1 lands on level k. */
  lemma ParentLevel(m: Matrix, s: int, P: seq<int>, d: nat, v: int, k: nat)
    requires ParentsUpTo(m, s, P, d)
    requires 0 <= v < |P| && IsLevel(m, s, v, k + 1) && k + 1 <= d
    ensures 0 <= P[v] < |m| && Edge(m, P[v], v) && IsLevel(m, s, P[v], k)
  {
    WithinMono(m, s, v, k + 1, d);
    assert ParentOk(m, s, P, v);
  }

  /** A path written backwards whose length matches the level of e is a
      shortest one: no walk from s to e has fewer edges. */
  lemma PathBackShortest(m: Matrix, p: seq<int>, s: int, e: int, w: seq<int>)
    requires PathBack(m, p, s, e) && IsLevel(m, s, e, |p| - 1)
    requires IsWalk(m, w, s, e)
    ensures |w| >= |p|
  {
    LevelIsShortest(m, s, e, |p| - 1, w);
  }
}
