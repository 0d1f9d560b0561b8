/** Reachability, breadth-first levels and walks in the graph of a matrix:
    the reference definitions that the search algorithms of AdjacencyMatrix
    are proved against. */
module Reachability {
  import opened MatrixSpec

  /** v can be reached from s along at most k edges. */
  ghost predicate Within(m: Matrix, s: int, v: int, k: nat)
    decreases k
  {
    v == s || (k > 0 && exists u :: Within(m, s, u, k - 1) && Edge(m, u, v))
  }

  /** v can be reached from s at all. */
  ghost predicate Reachable(m: Matrix, s: int, v: int)
  {
    exists k: nat :: Within(m, s, v, k)
  }

  /** v lies at breadth-first level k from s: k edges reach it, fewer do not. */
  ghost predicate IsLevel(m: Matrix, s: int, v: int, k: nat)
  {
    Within(m, s, v, k) && (k == 0 || !Within(m, s, v, k - 1))
  }

  /** What getDistance promises: the exact level of e, or -1 when e cannot be
      reached. */
  ghost predicate DistanceSpec(m: Matrix, s: int, e: int, r: int)
  {
    if r == -1 then !Reachable(m, s, e) else r >= 0 && IsLevel(m, s, e, r)
  }

  /** w is a walk s = w[0], ..., w[|w|-1] = v along edges of m. */
  ghost predicate IsWalk(m: Matrix, w: seq<int>, s: int, v: int)
  {
    |w| >= 1 && w[0] == s && w[|w| - 1] == v &&
    forall k | 0 <= k < |w| - 1 :: Edge(m, w[k], w[k + 1])
  }

  lemma WithinStep(m: Matrix, s: int, u: int, v: int, k: nat)
    requires Within(m, s, u, k) && Edge(m, u, v)
    ensures Within(m, s, v, k + 1)
  {
  }

  lemma {:induction false} WithinSucc(m: Matrix, s: int, v: int, k: nat)
    requires Within(m, s, v, k)
    ensures Within(m, s, v, k + 1)
    decreases k
  {
    if v != s {
      var u :| Within(m, s, u, k - 1) && Edge(m, u, v);
      WithinSucc(m, s, u, k - 1);
      WithinStep(m, s, u, v, k);
    }
  }

  /** Reachability within a bound is monotone in the bound. */
  lemma {:induction false} WithinMono(m: Matrix, s: int, v: int, a: nat, b: nat)
    requires a <= b && Within(m, s, v, a)
    ensures Within(m, s, v, b)
    decreases b - a
  {
    if a < b {
      WithinSucc(m, s, v, a);
      WithinMono(m, s, v, a + 1, b);
    }
  }

  /** Every vertex other than s that can be reached is a vertex of m. */
  lemma WithinInRange(m: Matrix, s: int, v: int, k: nat)
    requires IsSquare(m) && Within(m, s, v, k) && v != s
    ensures 0 <= v < |m|
  {
  }

  /** The levels of a vertex are unique, so a distance is well defined. */
  lemma LevelUnique(m: Matrix, s: int, v: int, a: nat, b: nat)
    requires IsLevel(m, s, v, a) && IsLevel(m, s, v, b)
    ensures a == b
  {
    if a < b {
      WithinMono(m, s, v, a, b - 1);
    } else if b < a {
      WithinMono(m, s, v, b, a - 1);
    }
  }

  /** At most one result satisfies DistanceSpec. */
  lemma DistanceUnique(m: Matrix, s: int, e: int, r1: int, r2: int)
    requires DistanceSpec(m, s, e, r1) && DistanceSpec(m, s, e, r2)
    ensures r1 == r2
  {
    if r1 != -1 && r2 != -1 {
      LevelUnique(m, s, e, r1, r2);
    }
  }

  /** A vertex reachable within k steps has some level at most k. */
  lemma {:induction false} HasLevel(m: Matrix, s: int, v: int, k: nat)
    requires Within(m, s, v, k)
    ensures exists j: nat :: j <= k && IsLevel(m, s, v, j)
  {
    if k == 0 || !Within(m, s, v, k - 1) {
      assert IsLevel(m, s, v, k);
    } else {
      HasLevel(m, s, v, k - 1);
    }
  }

  /** A vertex at level k + 1 has a neighbour on the way in at level k. */
  lemma LevelPred(m: Matrix, s: int, v: int, k: nat)
    requires IsLevel(m, s, v, k + 1)
    ensures exists w :: IsLevel(m, s, w, k) && Edge(m, w, v)
  {
    var w :| Within(m, s, w, k) && Edge(m, w, v);
    assert IsLevel(m, s, w, k);
  }

  /** When no vertex lies at level k, none lies at any deeper level. */
  lemma {:induction false} EmptyLevelAbove(m: Matrix, s: int, k: nat, j: nat, v: int)
    requires forall x :: !IsLevel(m, s, x, k)
    requires k <= j
    ensures !IsLevel(m, s, v, j)
  {
    if k < j && IsLevel(m, s, v, j) {
      LevelPred(m, s, v, j - 1);
      var w :| IsLevel(m, s, w, j - 1) && Edge(m, w, v);
      EmptyLevelAbove(m, s, k, j - 1, w);
    }
  }

  /** A set that holds s and is closed under edges holds everything
      reachable from s. */
  lemma {:induction false} ClosedHoldsWithin(m: Matrix, s: int, S: set<int>, v: int, k: nat)
    requires s in S
    requires forall u, x | u in S && Edge(m, u, x) :: x in S
    requires Within(m, s, v, k)
    ensures v in S
    decreases k
  {
    if v != s {
      var u :| Within(m, s, u, k - 1) && Edge(m, u, v);
      ClosedHoldsWithin(m, s, S, u, k - 1);
    }
  }

  /** A walk with n edges reaches its end within n steps. */
  lemma {:induction false} WalkWithin(m: Matrix, w: seq<int>, s: int, v: int)
    requires IsWalk(m, w, s, v)
    ensures Within(m, s, v, |w| - 1)
  {
    if |w| > 1 {
      var w' := w[..|w| - 1];
      assert IsWalk(m, w', s, w[|w| - 2]);
      WalkWithin(m, w', s, w[|w| - 2]);
      WithinStep(m, s, w[|w| - 2], v, |w| - 2);
    }
  }

  /** Conversely, reaching v within k steps is witnessed by a walk of at most
      k edges. */
  lemma {:induction false} WithinWalk(m: Matrix, s: int, v: int, k: nat) returns (w: seq<int>)
    requires Within(m, s, v, k)
    ensures IsWalk(m, w, s, v) && |w| <= k + 1
    decreases k
  {
    if v == s {
      w := [s];
    } else {
      var u :| Within(m, s, u, k - 1) && Edge(m, u, v);
      var w' := WithinWalk(m, s, u, k - 1);
      w := w' + [v];
      assert forall i | 0 <= i < |w'| :: w[i] == w'[i];
    }
  }

  /** A vertex at level d is reached by no walk shorter than d edges. */
  lemma LevelIsShortest(m: Matrix, s: int, v: int, d: nat, w: seq<int>)
    requires IsLevel(m, s, v, d) && IsWalk(m, w, s, v)
    ensures |w| - 1 >= d
  {
    WalkWithin(m, w, s, v);
    if |w| - 1 < d {
      WithinMono(m, s, v, |w| - 1, d - 1);
    }
  }
}
