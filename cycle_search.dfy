/** What smallestCycle finds and why: the breadth-first search from s stops at
    the first level that has two vertices joined by an edge (an odd closed
    walk through the two tree paths) or a vertex of the next level with two
    parents on this level (an even one). */
module CycleSearch {
  import opened MatrixSpec
  import opened Reachability
  import opened BreadthFirst

  /** An edge u -> i between two distinct vertices of level k: together with
      their tree paths from s it closes a walk of 2k + 1 edges. */
  ghost predicate OddAt(m: Matrix, s: int, k: nat)
  {
    exists u, i :: u != i && IsLevel(m, s, u, k) && IsLevel(m, s, i, k) && Edge(m, u, i)
  }

  /** As OddAt, with the edge stored in both directions. */
  ghost predicate MutualOddAt(m: Matrix, s: int, k: nat)
  {
    exists u, i :: u != i && IsLevel(m, s, u, k) && IsLevel(m, s, i, k) && Edge(m, u, i) && Edge(m, i, u)
  }

  /** A vertex of level k + 1 entered from two distinct vertices of level k:
      the two tree paths close a walk of 2k + 2 edges. */
  ghost predicate EvenAt(m: Matrix, s: int, k: nat)
  {
    exists u, w, i :: u != w && IsLevel(m, s, u, k) && IsLevel(m, s, w, k) &&
      IsLevel(m, s, i, k + 1) && Edge(m, u, i) && Edge(m, w, i)
  }

  /** No level below k closes a walk. */
  ghost predicate NoWitnessBelow(m: Matrix, s: int, k: nat)
  {
    forall j: nat | j < k :: !MutualOddAt(m, s, j) && !EvenAt(m, s, j)
  }

  /** What smallestCycle(s) promises: -1 when no level closes a walk, and
      otherwise 2k + 1 or 2k + 2 for the first level k that does, with a
      witness of the matching parity on that level. */
  ghost predicate CycleSpec(m: Matrix, s: int, r: int)
  {
    && (r == -1 || r >= 3)
    && (r == -1 ==> forall j: nat :: !MutualOddAt(m, s, j) && !EvenAt(m, s, j))
    && (r >= 3 ==> NoWitnessBelow(m, s, (r - 1) / 2) &&
                   if r % 2 == 1 then OddAt(m, s, (r - 1) / 2) else EvenAt(m, s, (r - 1) / 2))
  }

  /** x is entered by an edge from a vertex of P. */
  ghost predicate HasParentIn(m: Matrix, P: set<int>, x: int)
  {
    exists w :: w in P && Edge(m, w, x)
  }

  predicate NoDup(q: seq<int>)
  {
    forall a, b | 0 <= a < b < |q| :: q[a] != q[b]
  }

  /** State of smallestCycle while it works on level k: V dequeued, P the
      dequeued vertices of level k, N the rest of level k, X the vertices found
      so far for level k + 1, each with a parent in P. */
  ghost predicate CycleInv(m: Matrix, s: int, k: nat, V: set<int>, P: set<int>, N: seq<int>, X: seq<int>)
  {
    && IsSquare(m) && 0 <= s < |m|
    && (forall x | x in V :: 0 <= x < |m| && Within(m, s, x, k))
    && P <= V
    && (forall x | x in P :: IsLevel(m, s, x, k))
    && (forall i | 0 <= i < |N| :: 0 <= N[i] < |m| && IsLevel(m, s, N[i], k) && N[i] !in V)
    && (forall i | 0 <= i < |X| :: 0 <= X[i] < |m| && IsLevel(m, s, X[i], k + 1))
    && (forall i | 0 <= i < |X| :: HasParentIn(m, P, X[i]))
    && (forall v | IsLevel(m, s, v, k) :: v in P || v in N)
    && (forall v | k > 0 && Within(m, s, v, k - 1) :: v in V)
    && (forall u, v | u in V && Edge(m, u, v) :: v in V || v in N || v in X)
    && NoDup(N) && NoDup(X)
    && (forall w, x | w in P && x in N :: !Edge(m, w, x))
    && (forall u, i | u in P && i in P && u != i && Edge(m, u, i) :: !Edge(m, i, u))
    && (forall u, w, i | u in P && w in P && u != w && Edge(m, u, i) && Edge(m, w, i) :: !IsLevel(m, s, i, k + 1))
    && NoWitnessBelow(m, s, k)
  }

  /** No neighbour j of u outside V' was already queued: the scan of row u
      found no cycle. */
  ghost predicate NoDetect(m: Matrix, u: int, V': set<int>, N': seq<int>, X: seq<int>)
  {
    forall j | Edge(m, u, j) && j !in V' :: j !in N' && j !in X
  }

  /** The scan of row u has passed column i without a detection: the
      neighbours found so far are appended to X, and none of them was queued. */
  ghost predicate ScanInv(m: Matrix, u: int, V: set<int>, N: seq<int>, X: seq<int>, i: nat,
                          added: seq<int>, X': seq<int>)
    requires 0 <= u < |m| && i <= |m[u]|
  {
    && added == Unvisited(m, u, V, i) && X' == X + added
    && forall x | 0 <= x < i && Edge(m, u, x) && x !in V :: x !in N && x !in X
  }

  lemma ScanInit(m: Matrix, u: int, V: set<int>, N: seq<int>, X: seq<int>)
    requires 0 <= u < |m|
    ensures ScanInv(m, u, V, N, X, 0, [], X)
  {
  }

  /** Column i holds no neighbour that is already queued: the scan moves on. */
  lemma ScanStep(m: Matrix, u: int, V: set<int>, N: seq<int>, X: seq<int>, i: nat,
                 added: seq<int>, X': seq<int>, added2: seq<int>, X2: seq<int>)
    requires 0 <= u < |m| && i < |m[u]| && ScanInv(m, u, V, N, X, i, added, X')
    requires Edge(m, u, i) && i !in V ==> i !in N && i !in X'
    requires added2 == (if Edge(m, u, i) && i !in V then added + [i] else added)
    requires X2 == (if Edge(m, u, i) && i !in V then X' + [i] else X')
    ensures ScanInv(m, u, V, N, X, i + 1, added2, X2)
  {
    UnvisitedNext(m, u, V, i);
    assert X2 == X + added2;
  }

  /** A neighbour found in the grown queue was there before the scan. */
  lemma ScanHitNext(m: Matrix, u: int, V: set<int>, N: seq<int>, X: seq<int>, i: nat,
                    added: seq<int>, X': seq<int>)
    requires 0 <= u < |m| && i < |m[u]| && ScanInv(m, u, V, N, X, i, added, X')
    requires i in X'
    ensures i in X
  {
    var t := InSeq(X', i);
    if t >= |X| {
      assert added[t - |X|] == i;
    }
  }

  /** No column before i is a hit: the scan that stops at i stops at the
      first hit. */
  lemma ScanNoEarlierHit(m: Matrix, u: int, V: set<int>, N: seq<int>, X: seq<int>, i: nat,
                         added: seq<int>, X': seq<int>)
    requires 0 <= u < |m| && i <= |m[u]| && ScanInv(m, u, V, N, X, i, added, X')
    ensures forall x | 0 <= x < i :: !Hit(m, u, V, N, X, x)
  {
  }

  /** The whole row has been scanned without a detection. */
  lemma ScanDone(m: Matrix, u: int, V: set<int>, N: seq<int>, X: seq<int>, added: seq<int>, X': seq<int>)
    requires 0 <= u < |m| && ScanInv(m, u, V, N, X, |m[u]|, added, X')
    ensures NoDetect(m, u, V, N, X) && X' == X + Unvisited(m, u, V, |m[u]|)
  {
  }

  lemma CycleInit(m: Matrix, s: int)
    requires IsSquare(m) && 0 <= s < |m|
    ensures CycleInv(m, s, 0, {}, {}, [s], [])
  {
  }

  /** Dequeuing u = N[0] without detecting a cycle keeps the invariant. */
  lemma CycleStep(m: Matrix, s: int, k: nat, V: set<int>, P: set<int>, N: seq<int>, X: seq<int>)
    requires CycleInv(m, s, k, V, P, N, X) && |N| > 0
    requires NoDetect(m, N[0], V + {N[0]}, N[1..], X)
    ensures var u := N[0]; var V' := V + {u};
      CycleInv(m, s, k, V', P + {u}, N[1..], X + Unvisited(m, u, V', |m|))
  {
    StepQueues(m, s, k, V, P, N, X);
    StepGuards(m, s, k, V, P, N, X);
    StepClosed(m, s, k, V, P, N, X);
    StepCovered(m, s, k, V, P, N, X);
  }

  /** After one dequeue every edge out of a visited vertex still lands in
      visited or in one of the two queues. */
  lemma StepClosed(m: Matrix, s: int, k: nat, V: set<int>, P: set<int>, N: seq<int>, X: seq<int>)
    requires CycleInv(m, s, k, V, P, N, X) && |N| > 0
    ensures var u := N[0]; var V' := V + {u};
      forall w, v | w in V' && Edge(m, w, v) :: v in V' || v in N[1..] || v in X + Unvisited(m, u, V', |m|)
  {
    var u := N[0];
    var V' := V + {u};
    var U := Unvisited(m, u, V', |m|);
    forall w, v | w in V' && Edge(m, w, v)
      ensures v in V' || v in N[1..] || v in X + U
    {
      assert v in N ==> v == u || v in N[1..] by {
        if v in N {
          var t := InSeq(N, v);
          if t > 0 {
            assert N[1..][t - 1] == v;
          }
        }
      }
      if w == u && v !in V' {
        assert v in U;
      }
    }
  }

  /** After one dequeue every vertex of level k is dequeued or still waits. */
  lemma StepCovered(m: Matrix, s: int, k: nat, V: set<int>, P: set<int>, N: seq<int>, X: seq<int>)
    requires CycleInv(m, s, k, V, P, N, X) && |N| > 0
    ensures forall v | IsLevel(m, s, v, k) :: v in P + {N[0]} || v in N[1..]
  {
    var u := N[0];
    forall v | IsLevel(m, s, v, k)
      ensures v in P + {u} || v in N[1..]
    {
      assert v in P || v in N;
      if v in N {
        var t := InSeq(N, v);
        if t > 0 {
          assert N[1..][t - 1] == v;
        }
      }
    }
  }

  /** One iteration of smallestCycle that found no cycle, stated on the state
      it leaves behind: the invariant is kept and one more vertex is
      visited. */
  lemma CycleAdvance(m: Matrix, s: int, k: nat, V: set<int>, P: set<int>, N: seq<int>, X: seq<int>,
                     k': nat, V': set<int>, P': set<int>, N': seq<int>, X': seq<int>)
    requires CycleInv(m, s, k, V, P, N, X) && |N| > 0
    requires V' == V + {N[0]} && NoDetect(m, N[0], V', N[1..], X)
    requires |N| == 1 ==> k' == k + 1 && P' == {} && N' == X + Unvisited(m, N[0], V', |m|) && X' == []
    requires |N| > 1 ==> k' == k && P' == P + {N[0]} && N' == N[1..] && X' == X + Unvisited(m, N[0], V', |m|)
    ensures CycleInv(m, s, k', V', P', N', X')
    ensures |N'| == 0 ==> |X'| == 0
    ensures V <= Vertices(|m|) && |Vertices(|m|) - V'| < |Vertices(|m|) - V|
  {
    var U := Unvisited(m, N[0], V', |m|);
    CycleStep(m, s, k, V, P, N, X);
    if |N| == 1 {
      assert N[1..] == [];
      CycleSwap(m, s, k, V', P + {N[0]}, X + U);
    }
    RemainingShrinks(|m|, V, N[0]);
  }

  /** The state of smallestCycle as one value, so that a loop can carry it in
      a single ghost variable. */
  datatype CycleState = CycleState(k: nat, V: set<int>, P: set<int>, N: seq<int>, X: seq<int>)

  ghost predicate StateInv(m: Matrix, s: int, st: CycleState)
  {
    CycleInv(m, s, st.k, st.V, st.P, st.N, st.X)
  }

  /** CycleAdvance on states. */
  lemma StateAdvance(m: Matrix, s: int, st: CycleState, st': CycleState)
    requires StateInv(m, s, st) && |st.N| > 0
    requires st'.V == st.V + {st.N[0]} && NoDetect(m, st.N[0], st'.V, st.N[1..], st.X)
    requires |st.N| == 1 ==>
      st'.k == st.k + 1 && st'.P == {} && st'.N == st.X + Unvisited(m, st.N[0], st'.V, |m|) && st'.X == []
    requires |st.N| > 1 ==>
      st'.k == st.k && st'.P == st.P + {st.N[0]} && st'.N == st.N[1..] && st'.X == st.X + Unvisited(m, st.N[0], st'.V, |m|)
    ensures StateInv(m, s, st')
    ensures |st'.N| == 0 ==> |st'.X| == 0
    ensures st.V <= Vertices(|m|) && |Vertices(|m|) - st'.V| < |Vertices(|m|) - st.V|
  {
    CycleAdvance(m, s, st.k, st.V, st.P, st.N, st.X, st'.k, st'.V, st'.P, st'.N, st'.X);
  }

  /** CycleOdd, CycleEven and CycleExhausted on states: what smallestCycle
      returns at each of its three exits meets CycleSpec. */
  lemma StateOdd(m: Matrix, s: int, st: CycleState, i: int, c: int)
    requires StateInv(m, s, st) && |st.N| > 0
    requires Edge(m, st.N[0], i) && i !in st.V + {st.N[0]} && i in st.N[1..]
    requires c == 2 * st.k + 1
    ensures CycleSpec(m, s, c)
  {
    CycleOdd(m, s, st.k, st.V, st.P, st.N, st.X, i);
    OddSpec(m, s, st.k, c);
  }

  lemma StateEven(m: Matrix, s: int, st: CycleState, i: int, c: int)
    requires StateInv(m, s, st) && |st.N| > 0
    requires Edge(m, st.N[0], i) && i in st.X
    requires c == 2 * st.k + 2
    ensures CycleSpec(m, s, c)
  {
    CycleEven(m, s, st.k, st.V, st.P, st.N, st.X, i);
    EvenSpec(m, s, st.k, c);
  }

  lemma StateExhausted(m: Matrix, s: int, st: CycleState)
    requires StateInv(m, s, st) && st.P == {} && st.N == [] && st.X == []
    ensures CycleSpec(m, s, -1)
  {
    CycleExhausted(m, s, st.k, st.V);
  }

  // ---------------------------------------------------------------------
  // The run of smallestCycle as a function of its state

  /** Column j of row u holds a neighbour outside V that already waits in N
      or X: the scan of u stops there. */
  predicate Hit(m: Matrix, u: int, V: set<int>, N: seq<int>, X: seq<int>, j: int)
  {
    Edge(m, u, j) && j !in V && (j in N || j in X)
  }

  /** The first column from i on at which the ascending scan of row u stops,
      or -1 when it runs through the row. */
  function FirstHit(m: Matrix, u: int, V: set<int>, N: seq<int>, X: seq<int>, i: nat): (r: int)
    requires 0 <= u < |m|
    ensures r == -1 || i <= r < |m[u]|
    decreases |m[u]| - i
  {
    if i >= |m[u]| then -1
    else if Hit(m, u, V, N, X, i) then i
    else FirstHit(m, u, V, N, X, i + 1)
  }

  /** FirstHit finds a hit with none before it, and -1 exactly when no
      column from i on is a hit. */
  lemma {:induction false} FirstHitMeaning(m: Matrix, u: int, V: set<int>, N: seq<int>, X: seq<int>, i: nat)
    requires 0 <= u < |m|
    ensures var r := FirstHit(m, u, V, N, X, i);
      && (r == -1 <==> forall j | i <= j :: !Hit(m, u, V, N, X, j))
      && (r != -1 ==> Hit(m, u, V, N, X, r) && forall j | i <= j < r :: !Hit(m, u, V, N, X, j))
    decreases |m[u]| - i
  {
    if i < |m[u]| && !Hit(m, u, V, N, X, i) {
      FirstHitMeaning(m, u, V, N, X, i + 1);
      var r := FirstHit(m, u, V, N, X, i);
      forall j | i <= j && (r == -1 || j < r)
        ensures !Hit(m, u, V, N, X, j)
      {
        if j == i {
        } else {
          assert i + 1 <= j;
        }
      }
    }
  }

  /** A hit with no hit before it is the first one; a row without a hit has
      none. */
  lemma FirstHitIs(m: Matrix, u: int, V: set<int>, N: seq<int>, X: seq<int>, h: int)
    requires 0 <= u < |m|
    requires h == -1 ==> NoDetect(m, u, V, N, X)
    requires h != -1 ==> Hit(m, u, V, N, X, h) && forall j | 0 <= j < h :: !Hit(m, u, V, N, X, j)
    ensures FirstHit(m, u, V, N, X, 0) == h
  {
    FirstHitMeaning(m, u, V, N, X, 0);
    var r := FirstHit(m, u, V, N, X, 0);
    if h == -1 {
      assert r != -1 ==> Hit(m, u, V, N, X, r);
    } else {
      assert h >= 0;
      assert r != -1;
      assert !(r < h) && !(h < r);
    }
  }

  /** A scan without a hit detects nothing. */
  lemma NoHitNoDetect(m: Matrix, u: int, V: set<int>, N: seq<int>, X: seq<int>)
    requires 0 <= u < |m| && FirstHit(m, u, V, N, X, 0) == -1
    ensures NoDetect(m, u, V, N, X)
  {
    FirstHitMeaning(m, u, V, N, X, 0);
    forall j | Edge(m, u, j) && j !in V
      ensures j !in N && j !in X
    {
      assert !Hit(m, u, V, N, X, j);
    }
  }

  /** The first hit of a scan is a neighbour outside V waiting in N or X. */
  lemma HitFound(m: Matrix, u: int, V: set<int>, N: seq<int>, X: seq<int>)
    requires 0 <= u < |m| && FirstHit(m, u, V, N, X, 0) != -1
    ensures var h := FirstHit(m, u, V, N, X, 0); Edge(m, u, h) && h !in V && (h in N || h in X)
  {
    FirstHitMeaning(m, u, V, N, X, 0);
  }

  /** A state the loop of smallestCycle can be in at the head of an
      iteration: the invariant holds, and an empty current queue comes with
      an empty next queue. */
  ghost predicate Running(m: Matrix, s: int, st: CycleState)
  {
    StateInv(m, s, st) && (|st.N| == 0 ==> |st.X| == 0 && st.P == {})
  }

  /** The state after dequeuing st.N[0] and a scan that found no hit. */
  function NextState(m: Matrix, st: CycleState): CycleState
    requires |st.N| > 0 && 0 <= st.N[0] < |m| && |m| <= |m[st.N[0]]|
  {
    var u := st.N[0];
    var V' := st.V + {u};
    var X' := st.X + Unvisited(m, u, V', |m|);
    if |st.N| == 1 then CycleState(st.k + 1, V', {}, X', [])
    else CycleState(st.k, V', st.P + {u}, st.N[1..], X')
  }

  /** One step of the search that finds no hit keeps it running. */
  lemma NextRunning(m: Matrix, s: int, st: CycleState)
    requires Running(m, s, st) && |st.N| > 0
    requires FirstHit(m, st.N[0], st.V + {st.N[0]}, st.N[1..], st.X, 0) == -1
    ensures Running(m, s, NextState(m, st))
    ensures st.V <= Vertices(|m|) && |Vertices(|m|) - NextState(m, st).V| < |Vertices(|m|) - st.V|
  {
    var u := st.N[0];
    NoHitNoDetect(m, u, st.V + {u}, st.N[1..], st.X);
    StateAdvance(m, s, st, NextState(m, st));
  }

  /** What smallestCycle returns from state st on.  The next vertex is
      dequeued; the first hit of its scan returns 2k + 1 when the vertex hit
      waits on the current level and 2k + 2 when it waits on the next one;
      with no hit the search moves to the next state, and an empty queue
      returns -1. */
  ghost function CycleFrom(m: Matrix, s: int, st: CycleState): int
    requires Running(m, s, st)
    decreases |Vertices(|m|) - st.V|
  {
    if |st.N| == 0 then -1
    else
      var u := st.N[0];
      var h := FirstHit(m, u, st.V + {u}, st.N[1..], st.X, 0);
      if h != -1 then
        (if h in st.N[1..] then 2 * st.k + 1 else 2 * st.k + 2)
      else
        NextRunning(m, s, st);
        CycleFrom(m, s, NextState(m, st))
  }

  /** What smallestCycle(s) returns: the run from the queue holding s alone. */
  ghost function CycleRun(m: Matrix, s: int): int
    requires IsSquare(m) && 0 <= s < |m|
  {
    CycleInit(m, s);
    CycleFrom(m, s, CycleState(0, {}, {}, [s], []))
  }

  /** Every run meets CycleSpec: the value is fixed by the scan order, and
      it is the first closing level's. */
  lemma {:induction false} CycleFromSpec(m: Matrix, s: int, st: CycleState)
    requires Running(m, s, st)
    ensures CycleSpec(m, s, CycleFrom(m, s, st))
    decreases |Vertices(|m|) - st.V|
  {
    if |st.N| == 0 {
      StateExhausted(m, s, st);
    } else if FirstHit(m, st.N[0], st.V + {st.N[0]}, st.N[1..], st.X, 0) != -1 {
      CycleFromHit(m, s, st);
    } else {
      NextRunning(m, s, st);
      CycleFromSpec(m, s, NextState(m, st));
      CycleFromNext(m, s, st);
    }
  }

  /** A scan with a hit ends the run with a value that meets CycleSpec. */
  lemma CycleFromHit(m: Matrix, s: int, st: CycleState)
    requires Running(m, s, st) && |st.N| > 0
    requires FirstHit(m, st.N[0], st.V + {st.N[0]}, st.N[1..], st.X, 0) != -1
    ensures CycleSpec(m, s, CycleFrom(m, s, st))
  {
    var u := st.N[0];
    var h := FirstHit(m, u, st.V + {u}, st.N[1..], st.X, 0);
    HitFound(m, u, st.V + {u}, st.N[1..], st.X);
    if h in st.N[1..] {
      StateOdd(m, s, st, h, 2 * st.k + 1);
    } else {
      StateEven(m, s, st, h, 2 * st.k + 2);
    }
  }

  /** A scan without a hit hands the run on to the next state. */
  lemma CycleFromNext(m: Matrix, s: int, st: CycleState)
    requires Running(m, s, st) && |st.N| > 0
    requires FirstHit(m, st.N[0], st.V + {st.N[0]}, st.N[1..], st.X, 0) == -1
    ensures Running(m, s, NextState(m, st))
    ensures CycleFrom(m, s, st) == CycleFrom(m, s, NextState(m, st))
  {
    NextRunning(m, s, st);
  }

  lemma CycleRunSpec(m: Matrix, s: int)
    requires IsSquare(m) && 0 <= s < |m|
    ensures CycleSpec(m, s, CycleRun(m, s))
  {
    CycleInit(m, s);
    CycleFromSpec(m, s, CycleState(0, {}, {}, [s], []));
  }

  /** The vertices appended by the scan of u lie on level k + 1. */
  lemma StepNewLevel(m: Matrix, s: int, k: nat, V: set<int>, P: set<int>, N: seq<int>, X: seq<int>,
                      u: int, U: seq<int>)
    requires CycleInv(m, s, k, V, P, N, X) && |N| > 0 && u == N[0]
    requires NoDetect(m, u, V + {u}, N[1..], X)
    requires U == Unvisited(m, u, V + {u}, |m|)
    ensures forall i | 0 <= i < |U| :: 0 <= U[i] < |m| && IsLevel(m, s, U[i], k + 1) && Edge(m, u, U[i])
  {
    assert 0 <= u < |m| && IsLevel(m, s, u, k);
    forall i | 0 <= i < |U|
      ensures 0 <= U[i] < |m| && IsLevel(m, s, U[i], k + 1) && Edge(m, u, U[i])
    {
      var j := U[i];
      assert j in U;
      WithinStep(m, s, u, j, k);
      if Within(m, s, j, k) {
        if !(k > 0 && Within(m, s, j, k - 1)) {
          if j in N {
            var t := InSeq(N, j);
          }
        }
        assert false;
      }
    }
  }

  /** The queue facts of the invariant after one dequeue. */
  lemma StepQueues(m: Matrix, s: int, k: nat, V: set<int>, P: set<int>, N: seq<int>, X: seq<int>)
    requires CycleInv(m, s, k, V, P, N, X) && |N| > 0
    requires NoDetect(m, N[0], V + {N[0]}, N[1..], X)
    ensures var u := N[0]; var V' := V + {u}; var N' := N[1..];
      var X' := X + Unvisited(m, u, V', |m|);
      && (forall i | 0 <= i < |N'| :: 0 <= N'[i] < |m| && IsLevel(m, s, N'[i], k) && N'[i] !in V')
      && (forall i | 0 <= i < |X'| :: 0 <= X'[i] < |m| && IsLevel(m, s, X'[i], k + 1))
      && (forall i | 0 <= i < |X'| :: HasParentIn(m, P + {u}, X'[i]))
      && NoDup(N') && NoDup(X')
  {
    var u := N[0];
    var U := Unvisited(m, u, V + {u}, |m|);
    StepNewLevel(m, s, k, V, P, N, X, u, U);
    StepRest(m, s, k, V, N);
    StepFound(m, s, k, P, X, u, U);
    StepNoDup(X, U);
  }

  lemma StepRest(m: Matrix, s: int, k: nat, V: set<int>, N: seq<int>)
    requires |N| > 0 && NoDup(N)
    requires forall i | 0 <= i < |N| :: 0 <= N[i] < |m| && IsLevel(m, s, N[i], k) && N[i] !in V
    ensures forall i | 0 <= i < |N| - 1 :: 0 <= N[1..][i] < |m| && IsLevel(m, s, N[1..][i], k) && N[1..][i] !in V + {N[0]}
    ensures NoDup(N[1..])
  {
    forall i | 0 <= i < |N| - 1
      ensures N[1..][i] !in V + {N[0]}
    {
      assert N[1..][i] == N[i + 1];
    }
  }

  lemma StepFound(m: Matrix, s: int, k: nat, P: set<int>, X: seq<int>, u: int, U: seq<int>)
    requires forall i | 0 <= i < |X| :: 0 <= X[i] < |m| && IsLevel(m, s, X[i], k + 1)
    requires forall i | 0 <= i < |X| :: HasParentIn(m, P, X[i])
    requires forall i | 0 <= i < |U| :: 0 <= U[i] < |m| && IsLevel(m, s, U[i], k + 1) && Edge(m, u, U[i])
    ensures forall i | 0 <= i < |X + U| :: 0 <= (X + U)[i] < |m| && IsLevel(m, s, (X + U)[i], k + 1)
    ensures forall i | 0 <= i < |X + U| :: HasParentIn(m, P + {u}, (X + U)[i])
  {
    var X' := X + U;
    forall i | 0 <= i < |X'|
      ensures 0 <= X'[i] < |m| && IsLevel(m, s, X'[i], k + 1)
      ensures HasParentIn(m, P + {u}, X'[i])
    {
      if i < |X| {
        assert X'[i] == X[i];
        var w :| w in P && Edge(m, w, X[i]);
        assert w in P + {u};
      } else {
        assert X'[i] == U[i - |X|];
        assert u in P + {u};
      }
    }
  }

  lemma StepNoDup(X: seq<int>, U: seq<int>)
    requires NoDup(X)
    requires forall a, b | 0 <= a < b < |U| :: U[a] < U[b]
    requires forall i | 0 <= i < |U| :: U[i] !in X
    ensures NoDup(X + U)
  {
    var X' := X + U;
    forall a, b | 0 <= a < b < |X'|
      ensures X'[a] != X'[b]
    {
      if b >= |X| {
        assert X'[b] == U[b - |X|];
        if a < |X| {
          assert X'[a] == X[a];
          assert X[a] in X;
        } else {
          assert X'[a] == U[a - |X|];
        }
      }
    }
  }

  /** The three no-cycle-yet facts of the invariant after one dequeue. */
  lemma StepGuards(m: Matrix, s: int, k: nat, V: set<int>, P: set<int>, N: seq<int>, X: seq<int>)
    requires CycleInv(m, s, k, V, P, N, X) && |N| > 0
    requires NoDetect(m, N[0], V + {N[0]}, N[1..], X)
    ensures var u := N[0]; var P' := P + {u}; var N' := N[1..];
      && (forall w, x | w in P' && x in N' :: !Edge(m, w, x))
      && (forall a, b | a in P' && b in P' && a != b && Edge(m, a, b) :: !Edge(m, b, a))
      && (forall a, w, i | a in P' && w in P' && a != w && Edge(m, a, i) && Edge(m, w, i) :: !IsLevel(m, s, i, k + 1))
  {
    var u := N[0];
    var V' := V + {u};
    var P' := P + {u};
    var N' := N[1..];
    assert u in N && u !in V;
    forall w, x | w in P' && x in N'
      ensures !Edge(m, w, x)
    {
      var i := InSeq(N', x);
      assert N'[i] == N[i + 1];
      assert NoDup(N);
      assert N[0] != N[i + 1];
      if w != u {
        assert x in N;
      } else {
        assert x !in V';
      }
    }
    forall a, b | a in P' && b in P' && a != b && Edge(m, a, b)
      ensures !Edge(m, b, a)
    {
    }
    forall a, w, i | a in P' && w in P' && a != w && Edge(m, a, i) && Edge(m, w, i)
      ensures !IsLevel(m, s, i, k + 1)
    {
      if (a == u || w == u) && IsLevel(m, s, i, k + 1) {
        assert false;
      }
    }
  }

  /** A neighbour of u still waiting on level k closes an odd walk. */
  lemma CycleOdd(m: Matrix, s: int, k: nat, V: set<int>, P: set<int>, N: seq<int>, X: seq<int>, i: int)
    requires CycleInv(m, s, k, V, P, N, X) && |N| > 0
    requires Edge(m, N[0], i) && i !in V + {N[0]} && i in N[1..]
    ensures OddAt(m, s, k) && NoWitnessBelow(m, s, k)
  {
    var t := InSeq(N[1..], i);
    assert N[1..][t] == N[t + 1];
    assert IsLevel(m, s, N[0], k) && IsLevel(m, s, i, k);
  }

  /** A neighbour of u already found for level k + 1 closes an even walk. */
  lemma CycleEven(m: Matrix, s: int, k: nat, V: set<int>, P: set<int>, N: seq<int>, X: seq<int>, i: int)
    requires CycleInv(m, s, k, V, P, N, X) && |N| > 0
    requires Edge(m, N[0], i) && i in X
    ensures EvenAt(m, s, k) && NoWitnessBelow(m, s, k)
  {
    var t := InSeq(X, i);
    var w :| w in P && Edge(m, w, i);
    assert IsLevel(m, s, N[0], k) && N[0] !in V;
    assert IsLevel(m, s, w, k) && IsLevel(m, s, i, k + 1);
  }

  /** The first level with an odd witness yields 2k + 1, which is at least 3. */
  lemma OddSpec(m: Matrix, s: int, k: nat, c: int)
    requires OddAt(m, s, k) && NoWitnessBelow(m, s, k) && c == 2 * k + 1
    ensures CycleSpec(m, s, c)
  {
    NoWitnessAtRoot(m, s);
    assert (c - 1) / 2 == k && c % 2 == 1;
  }

  /** The first level with an even witness yields 2k + 2, which is at least 4. */
  lemma EvenSpec(m: Matrix, s: int, k: nat, c: int)
    requires EvenAt(m, s, k) && NoWitnessBelow(m, s, k) && c == 2 * k + 2
    ensures CycleSpec(m, s, c)
  {
    NoWitnessAtRoot(m, s);
    assert (c - 1) / 2 == k && c % 2 == 0;
  }

  /** A used-up level closes no walk, and the next level takes over. */
  lemma CycleSwap(m: Matrix, s: int, k: nat, V: set<int>, P: set<int>, X: seq<int>)
    requires CycleInv(m, s, k, V, P, [], X)
    ensures !MutualOddAt(m, s, k) && !EvenAt(m, s, k)
    ensures CycleInv(m, s, k + 1, V, {}, X, [])
  {
    forall x | x in V
      ensures Within(m, s, x, k + 1)
    {
      WithinSucc(m, s, x, k);
    }
    forall v | Within(m, s, v, k)
      ensures v in V
    {
      if !(k > 0 && Within(m, s, v, k - 1)) {
        assert IsLevel(m, s, v, k);
      }
    }
    forall i | 0 <= i < |X|
      ensures X[i] !in V
    {
    }
    forall v | IsLevel(m, s, v, k + 1)
      ensures v in X
    {
      var w :| Within(m, s, w, k) && Edge(m, w, v);
    }
  }

  /** When the search runs dry at level k no level closes a walk. */
  lemma CycleExhausted(m: Matrix, s: int, k: nat, V: set<int>)
    requires CycleInv(m, s, k, V, {}, [], [])
    ensures forall j: nat :: !MutualOddAt(m, s, j) && !EvenAt(m, s, j)
  {
    forall j: nat
      ensures !MutualOddAt(m, s, j) && !EvenAt(m, s, j)
    {
      if j >= k {
        if MutualOddAt(m, s, j) {
          var u, i :| u != i && IsLevel(m, s, u, j) && IsLevel(m, s, i, j) && Edge(m, u, i) && Edge(m, i, u);
          EmptyLevelAbove(m, s, k, j, u);
        }
        if EvenAt(m, s, j) {
          var u, w, i :| u != w && IsLevel(m, s, u, j) && IsLevel(m, s, w, j) &&
            IsLevel(m, s, i, j + 1) && Edge(m, u, i) && Edge(m, w, i);
          EmptyLevelAbove(m, s, k, j, u);
        }
      }
    }
  }

  /** Level 0 holds s alone, so it closes no walk: a cycle found has at least
      three edges. */
  lemma NoWitnessAtRoot(m: Matrix, s: int)
    ensures !OddAt(m, s, 0) && !EvenAt(m, s, 0) && !MutualOddAt(m, s, 0)
  {
  }

  /** The six-vertex graph with edges 0-1, 0-2, 0-5, 1-3, 2-3 and 2-5;
      vertex 4 is isolated. */
  function Kite(): Matrix
  {
    [[0, 1, 1, 0, 0, 1],
     [1, 0, 0, 1, 0, 0],
     [1, 0, 0, 1, 0, 1],
     [0, 1, 1, 0, 0, 0],
     [0, 0, 0, 0, 0, 0],
     [1, 0, 1, 0, 0, 0]]
  }

  /** smallestCycle(0) on Kite returns 4, which the level rule admits,
      although 0, 2, 5, 0 is a cycle of three edges. */
  lemma CycleNotShortest()
    ensures IsSquare(Kite()) && CycleRun(Kite(), 0) == 4
    ensures CycleSpec(Kite(), 0, 4)
    ensures IsWalk(Kite(), [0, 2, 5, 0], 0, 0)
  {
    KiteRunsToFour();
    var K := Kite();
    KiteLevels();
    NoWitnessAtRoot(K, 0);
    assert Edge(K, 1, 3) && Edge(K, 2, 3);
    assert EvenAt(K, 0, 1);
    KiteTriangle();
  }

  /** smallestCycle(0) on Kite returns 4.  The scan of 0 queues 1, 2 and 5
      for level 1; the scan of 1 queues 3 for level 2; the scan of 2 meets 3
      in that queue before it reaches 5 in the current one. */
  lemma KiteRunsToFour()
    ensures IsSquare(Kite()) && CycleRun(Kite(), 0) == 4
  {
    var K := Kite();
    var st0 := CycleState(0, {}, {}, [0], []);
    var st1 := CycleState(1, {0}, {}, [1, 2, 5], []);
    var st2 := CycleState(1, {0, 1}, {1}, [2, 5], [3]);
    CycleInit(K, 0);
    FirstHitIs(K, 0, {0}, [], [], -1);
    KiteQueuesFromZero(K);
    KiteFromZero(K);
    CycleFromNext(K, 0, st0);
    KiteNoHitFromOne(K);
    KiteQueuesFromOne(K);
    KiteFromOne(K);
    CycleFromNext(K, 0, st1);
    KiteHitFromTwo(K);
    KiteFromTwo(K);
    CycleFromHitValue(K, 0, st2);
  }

  /** The scan of 0 finds nothing waiting and queues 1, 2 and 5. */
  lemma KiteFromZero(m: Matrix)
    requires |m| == 6 && |m[0]| == 6
    requires FirstHit(m, 0, {0}, [], [], 0) == -1 && Unvisited(m, 0, {0}, 6) == [1, 2, 5]
    ensures var st := CycleState(0, {}, {}, [0], []);
      && FirstHit(m, st.N[0], st.V + {st.N[0]}, st.N[1..], st.X, 0) == -1
      && NextState(m, st) == CycleState(1, {0}, {}, [1, 2, 5], [])
  {
    var st := CycleState(0, {}, {}, [0], []);
    assert st.V + {st.N[0]} == {0} && st.N[1..] == [] && st.X + [1, 2, 5] == [1, 2, 5];
  }

  lemma KiteQueuesFromZero(m: Matrix)
    requires m == Kite()
    ensures Unvisited(m, 0, {0}, 6) == [1, 2, 5]
  {
    var row := [0, 1, 1, 0, 0, 1];
    assert m[0] == row;
    forall x
      ensures x in [1, 2, 5] <==> 0 <= x < 6 && row[x] == 1 && x !in {0}
    {
      if 0 <= x < 6 {
        assert x == 0 || x == 1 || x == 2 || x == 3 || x == 4 || x == 5;
      }
    }
    KiteScan(m, 0, {0}, row, [1, 2, 5]);
  }

  /** The scan of 1 finds nothing waiting and queues 3. */
  lemma KiteFromOne(m: Matrix)
    requires |m| == 6 && |m[1]| == 6
    requires FirstHit(m, 1, {0, 1}, [2, 5], [], 0) == -1 && Unvisited(m, 1, {0, 1}, 6) == [3]
    ensures var st := CycleState(1, {0}, {}, [1, 2, 5], []);
      && FirstHit(m, st.N[0], st.V + {st.N[0]}, st.N[1..], st.X, 0) == -1
      && NextState(m, st) == CycleState(1, {0, 1}, {1}, [2, 5], [3])
  {
    var st := CycleState(1, {0}, {}, [1, 2, 5], []);
    assert st.V + {st.N[0]} == {0, 1} && st.N[1..] == [2, 5];
    assert st.P + {st.N[0]} == {1} && st.X + [3] == [3];
  }

  /** The scan of 2 stops at 3, which waits on the next level. */
  lemma KiteFromTwo(m: Matrix)
    requires |m| == 6 && FirstHit(m, 2, {0, 1, 2}, [5], [3], 0) == 3
    ensures var st := CycleState(1, {0, 1}, {1}, [2, 5], [3]);
      && FirstHit(m, st.N[0], st.V + {st.N[0]}, st.N[1..], st.X, 0) == 3
      && 3 !in st.N[1..]
  {
    var st := CycleState(1, {0, 1}, {1}, [2, 5], [3]);
    assert st.V + {st.N[0]} == {0, 1, 2} && st.N[1..] == [5];
  }

  lemma KiteQueuesFromOne(m: Matrix)
    requires m == Kite()
    ensures Unvisited(m, 1, {0, 1}, 6) == [3]
  {
    var row := [1, 0, 0, 1, 0, 0];
    assert m[1] == row;
    forall x
      ensures x in [3] <==> 0 <= x < 6 && row[x] == 1 && x !in {0, 1}
    {
      if 0 <= x < 6 {
        assert x == 0 || x == 1 || x == 2 || x == 3 || x == 4 || x == 5;
      }
    }
    KiteScan(m, 1, {0, 1}, row, [3]);
  }

  /** The scan of 1 on level 1 finds nothing waiting. */
  lemma KiteNoHitFromOne(m: Matrix)
    requires m == Kite()
    ensures FirstHit(m, 1, {0, 1}, [2, 5], [], 0) == -1
  {
    assert m[1] == [1, 0, 0, 1, 0, 0];
    forall j | Edge(m, 1, j) && j !in {0, 1}
      ensures j !in [2, 5] && j !in []
    {
      assert j == 3;
    }
    FirstHitIs(m, 1, {0, 1}, [2, 5], [], -1);
  }

  /** The scan of 2 stops at 3, which waits for level 2. */
  lemma KiteHitFromTwo(m: Matrix)
    requires m == Kite()
    ensures FirstHit(m, 2, {0, 1, 2}, [5], [3], 0) == 3
  {
    assert m[2] == [1, 0, 0, 1, 0, 1];
    assert Hit(m, 2, {0, 1, 2}, [5], [3], 3);
    forall j | 0 <= j < 3
      ensures !Hit(m, 2, {0, 1, 2}, [5], [3], j)
    {
      assert j == 0 || j == 1 || j == 2;
    }
    FirstHitIs(m, 2, {0, 1, 2}, [5], [3], 3);
  }

  /** A scan of a row of Kite, given by the neighbours it queues. */
  lemma KiteScan(m: Matrix, u: int, V: set<int>, row: seq<int>, q: seq<int>)
    requires m == Kite() && 0 <= u < 6 && m[u] == row
    requires forall i, j | 0 <= i < j < |q| :: q[i] < q[j]
    requires forall x :: x in q <==> 0 <= x < 6 && row[x] == 1 && x !in V
    ensures Unvisited(m, u, V, 6) == q
  {
    IncreasingEqual(Unvisited(m, u, V, 6), q);
  }

  /** A run whose next scan hits returns the hit's cycle length. */
  lemma CycleFromHitValue(m: Matrix, s: int, st: CycleState)
    requires Running(m, s, st) && |st.N| > 0
    requires FirstHit(m, st.N[0], st.V + {st.N[0]}, st.N[1..], st.X, 0) != -1
    ensures var h := FirstHit(m, st.N[0], st.V + {st.N[0]}, st.N[1..], st.X, 0);
      CycleFrom(m, s, st) == if h in st.N[1..] then 2 * st.k + 1 else 2 * st.k + 2
  {
  }

  /** Two strictly increasing sequences with the same members are equal. */
  lemma {:induction false} IncreasingEqual(a: seq<int>, b: seq<int>)
    requires forall i, j | 0 <= i < j < |a| :: a[i] < a[j]
    requires forall i, j | 0 <= i < j < |b| :: b[i] < b[j]
    requires forall x :: x in a <==> x in b
    ensures a == b
    decreases |a|
  {
    if |b| > 0 {
      assert b[0] in b;
    }
    if |a| > 0 {
      assert a[0] in a;
      var i := InSeq(b, a[0]);
      assert b[0] in b;
      var j := InSeq(a, b[0]);
      assert a[0] == b[0] by {
        assert a[0] <= a[j] && b[0] <= b[i];
      }
      forall x
        ensures x in a[1..] <==> x in b[1..]
      {
        if x in a[1..] {
          var t := InSeq(a[1..], x);
          assert a[t + 1] == x && x in b;
          var t' := InSeq(b, x);
          assert b[1..][t' - 1] == x;
        }
        if x in b[1..] {
          var t := InSeq(b[1..], x);
          assert b[t + 1] == x && x in a;
          var t' := InSeq(a, x);
          assert a[1..][t' - 1] == x;
        }
      }
      IncreasingEqual(a[1..], b[1..]);
      assert a == [a[0]] + a[1..] && b == [b[0]] + b[1..];
    }
  }

  /** In Kite, 1 and 2 lie on level 1 from 0, and 3 on level 2. */
  lemma KiteLevels()
    ensures IsLevel(Kite(), 0, 1, 1) && IsLevel(Kite(), 0, 2, 1) && IsLevel(Kite(), 0, 3, 2)
  {
    var K := Kite();
    assert Within(K, 0, 0, 0) && Edge(K, 0, 1) && Edge(K, 0, 2) && Edge(K, 1, 3);
    WithinStep(K, 0, 0, 1, 0);
    WithinStep(K, 0, 0, 2, 0);
    WithinStep(K, 0, 1, 3, 1);
    forall u | Within(K, 0, u, 0)
      ensures !Edge(K, u, 3)
    {
      assert u == 0;
    }
  }

  /** 0, 2, 5, 0 is a closed walk of three edges in Kite. */
  lemma KiteTriangle()
    ensures IsWalk(Kite(), [0, 2, 5, 0], 0, 0)
  {
    var K, w := Kite(), [0, 2, 5, 0];
    assert Edge(K, w[0], w[1]) && Edge(K, w[1], w[2]) && Edge(K, w[2], w[3]);
  }
}
