/** Value-level view of an adjacency matrix: the rows of the C# `int[,]` as a
    sequence of sequences, and the functions that give the matrix operations
    of AdjacencyMatrix their meaning. */
module MatrixSpec {

  type Matrix = seq<seq<int>>

  /** Every row is as long as the matrix is tall. */
  predicate IsSquare(m: Matrix)
  {
    forall i | 0 <= i < |m| :: |m[i]| == |m|
  }

  /** An edge u -> v is an entry that holds exactly 1 (the only value the
      algorithms treat as an edge). */
  predicate Edge(m: Matrix, u: int, v: int)
  {
    0 <= u < |m| && 0 <= v < |m[u]| && m[u][v] == 1
  }

  /** The matrix of an undirected graph. */
  predicate Undirected(m: Matrix)
  {
    IsSquare(m) && forall i, j | 0 <= i < |m| && 0 <= j < |m| :: m[i][j] == m[j][i]
  }

  /** The n x n matrix of zeros. */
  function Zeros(n: nat): (z: Matrix)
    ensures |z| == n && IsSquare(z)
    ensures forall i, j | 0 <= i < n && 0 <= j < n :: z[i][j] == 0
  {
    seq(n, _ => seq(n, _ => 0))
  }

  /** m with entry (i, j) replaced by x. */
  function Assign(m: Matrix, i: int, j: int, x: int): Matrix
    requires 0 <= i < |m| && 0 <= j < |m[i]|
  {
    m[i := m[i][j := x]]
  }

  /** The matrix after addEdge(v1, v2) or removeEdge(v1, v2) stores x in
      (v1, v2) and then in (v2, v1). */
  function SetPair(m: Matrix, v1: int, v2: int, x: int): (r: Matrix)
    requires IsSquare(m) && 0 <= v1 < |m| && 0 <= v2 < |m|
    ensures |r| == |m| && IsSquare(r)
  {
    Assign(Assign(m, v1, v2, x), v2, v1, x)
  }

  // ---------------------------------------------------------------------
  // Counting entries equal to 1

  /** Number of entries equal to 1 in a row. */
  function CountOnes(row: seq<int>): (c: nat)
    ensures c <= |row|
  {
    if row == [] then 0
    else CountOnes(row[..|row| - 1]) + (if row[|row| - 1] == 1 then 1 else 0)
  }

  /** Number of neighbours of v: the entries equal to 1 in row v. */
  function Degree(m: Matrix, v: int): nat
    requires 0 <= v < |m|
  {
    CountOnes(m[v])
  }

  /** Number of entries equal to 1 in the first k rows. */
  function OnesInRows(m: Matrix, k: nat): nat
    requires k <= |m|
  {
    if k == 0 then 0 else OnesInRows(m, k - 1) + CountOnes(m[k - 1])
  }

  /** The edge count the library reports: entries equal to 1, halved. */
  function NumEdges(m: Matrix): nat
  {
    OnesInRows(m, |m|) / 2
  }

  // ---------------------------------------------------------------------
  // Removing one row and one column

  /** Index in the original matrix of position a once `removed` is left out. */
  function Skip(a: int, removed: int): int
  {
    if a < removed then a else a + 1
  }

  /** Whether trimArray(r, c) on an n x n matrix writes only inside its
      (n-1) x (n-1) result: for n >= 2 both indices must name a row and a
      column; for n == 1 the 0 x 0 result receives no write as long as the
      row or the column skipped is the only one there is. */
  predicate TrimFits(n: int, r: int, c: int)
  {
    n >= 1 && if n == 1 then r == 0 || c == 0 else 0 <= r < n && 0 <= c < n
  }

  /** The matrix with row r and column c removed. */
  function Trim(m: Matrix, r: int, c: int): (t: Matrix)
    requires IsSquare(m) && TrimFits(|m|, r, c)
    ensures IsSquare(t) && |t| == |m| - 1
    ensures forall a, b | 0 <= a < |t| && 0 <= b < |t| :: t[a][b] == m[Skip(a, r)][Skip(b, c)]
  {
    seq(|m| - 1, a requires 0 <= a < |m| - 1 =>
      seq(|m| - 1, b requires 0 <= b < |m| - 1 => m[Skip(a, r)][Skip(b, c)]))
  }

  // ---------------------------------------------------------------------
  // Sub-matrices selected by a list of vertex indices

  predicate InRange(idx: seq<int>, n: int)
  {
    forall k | 0 <= k < |idx| :: 0 <= idx[k] < n
  }

  /** The sub-matrix of the vertices listed in idx, in that order. */
  function Restrict(m: Matrix, idx: seq<int>): (r: Matrix)
    requires IsSquare(m) && InRange(idx, |m|)
    ensures |r| == |idx| && IsSquare(r)
    ensures forall a, b | 0 <= a < |idx| && 0 <= b < |idx| :: r[a][b] == m[idx[a]][idx[b]]
  {
    seq(|idx|, a requires 0 <= a < |idx| =>
      seq(|idx|, b requires 0 <= b < |idx| => m[idx[a]][idx[b]]))
  }

  /** The integers lo, lo+1, ..., hi-1. */
  function Range(lo: int, hi: int): (r: seq<int>)
    requires lo <= hi
    ensures |r| == hi - lo && forall k | 0 <= k < |r| :: r[k] == lo + k
  {
    seq(hi - lo, k => lo + k)
  }

  /** idx without its entry at position p. */
  function RemoveAt(idx: seq<int>, p: int): seq<int>
    requires 0 <= p < |idx|
  {
    idx[..p] + idx[p + 1..]
  }

  // ---------------------------------------------------------------------
  // Lemmas

  /** Removing row p and column p of a sub-matrix selects the same sub-matrix
      as removing entry p from the index list. */
  lemma TrimRestrict(m: Matrix, idx: seq<int>, p: int)
    requires IsSquare(m) && InRange(idx, |m|) && 0 <= p < |idx|
    ensures TrimFits(|idx|, p, p)
    ensures InRange(RemoveAt(idx, p), |m|)
    ensures Trim(Restrict(m, idx), p, p) == Restrict(m, RemoveAt(idx, p))
  {
    var t := Trim(Restrict(m, idx), p, p);
    var r := Restrict(m, RemoveAt(idx, p));
    assert forall a | 0 <= a < |idx| - 1 :: RemoveAt(idx, p)[a] == idx[Skip(a, p)];
    forall a | 0 <= a < |t|
      ensures t[a] == r[a]
    {
      assert forall b | 0 <= b < |t| :: t[a][b] == r[a][b];
    }
  }

  /** Restricting to every index in order gives the matrix back. */
  lemma RestrictAll(m: Matrix)
    requires IsSquare(m)
    ensures InRange(Range(0, |m|), |m|) && Restrict(m, Range(0, |m|)) == m
  {
    var r := Restrict(m, Range(0, |m|));
    forall a | 0 <= a < |m|
      ensures r[a] == m[a]
    {
      assert |r[a]| == |m[a]|;
    }
  }

  /** The entries of a row other than 1 do not count, and each 1 counts once:
      a row of zeros has no neighbours. */
  lemma CountOnesZeros(row: seq<int>)
    requires forall k | 0 <= k < |row| :: row[k] == 0
    ensures CountOnes(row) == 0
  {
    if row != [] {
      CountOnesZeros(row[..|row| - 1]);
    }
  }

  /** Setting a 0 entry of a row to 1 adds exactly one neighbour. */
  lemma {:induction false} CountOnesSet(row: seq<int>, j: int, x: int)
    requires 0 <= j < |row|
    ensures CountOnes(row[j := x]) ==
      CountOnes(row) - (if row[j] == 1 then 1 else 0) + (if x == 1 then 1 else 0)
  {
    var n := |row|;
    if j == n - 1 {
      assert row[j := x][..n - 1] == row[..n - 1];
    } else {
      assert row[j := x][..n - 1] == row[..n - 1][j := x];
      CountOnesSet(row[..n - 1], j, x);
    }
  }

  /** addEdge followed by removeEdge of the same pair gives back a matrix that
      had neither direction of the edge. */
  lemma RemoveUndoesAdd(m: Matrix, v1: int, v2: int)
    requires IsSquare(m) && 0 <= v1 < |m| && 0 <= v2 < |m|
    requires m[v1][v2] == 0 && m[v2][v1] == 0
    ensures SetPair(SetPair(m, v1, v2, 1), v1, v2, 0) == m
  {
    var r := SetPair(SetPair(m, v1, v2, 1), v1, v2, 0);
    forall a | 0 <= a < |m|
      ensures r[a] == m[a]
    {
      assert forall b | 0 <= b < |m| :: r[a][b] == m[a][b];
    }
  }

  /** After SetPair both directions hold x, every other entry is unchanged,
      and an undirected matrix stays undirected. */
  lemma SetPairEffect(m: Matrix, v1: int, v2: int, x: int)
    requires IsSquare(m) && 0 <= v1 < |m| && 0 <= v2 < |m|
    ensures SetPair(m, v1, v2, x)[v1][v2] == x && SetPair(m, v1, v2, x)[v2][v1] == x
    ensures forall a, b | 0 <= a < |m| && 0 <= b < |m| && !(a == v1 && b == v2) && !(a == v2 && b == v1) ::
      SetPair(m, v1, v2, x)[a][b] == m[a][b]
    ensures Undirected(m) ==> Undirected(SetPair(m, v1, v2, x))
  {
  }

  /** In an undirected matrix adding an absent edge between two distinct
      vertices raises the edge count by exactly one. */
  lemma AddEdgeCount(m: Matrix, v1: int, v2: int)
    requires Undirected(m) && 0 <= v1 < |m| && 0 <= v2 < |m| && v1 != v2
    requires m[v1][v2] == 0
    ensures NumEdges(SetPair(m, v1, v2, 1)) == NumEdges(m) + 1
  {
    var m1 := Assign(m, v1, v2, 1);
    var m2 := Assign(m1, v2, v1, 1);
    CountOnesSet(m[v1], v2, 1);
    CountOnesSet(m1[v2], v1, 1);
    OnesInRowsChange(m, m1, v1);
    OnesInRowsChange(m1, m2, v2);
  }

  /** Changing one row changes the count of ones by that row's change. */
  lemma OnesInRowsChange(m: Matrix, m': Matrix, i: int)
    requires |m| == |m'| && 0 <= i < |m|
    requires forall a | 0 <= a < |m| && a != i :: m'[a] == m[a]
    ensures OnesInRows(m', |m|) == OnesInRows(m, |m|) - CountOnes(m[i]) + CountOnes(m'[i])
  {
    OnesInRowsChangeUpTo(m, m', i, |m|);
  }

  lemma {:induction false} OnesInRowsChangeUpTo(m: Matrix, m': Matrix, i: int, k: nat)
    requires |m| == |m'| && 0 <= i < |m| && k <= |m|
    requires forall a | 0 <= a < |m| && a != i :: m'[a] == m[a]
    ensures OnesInRows(m', k) == OnesInRows(m, k) - (if i < k then CountOnes(m[i]) - CountOnes(m'[i]) else 0)
  {
    if k > 0 {
      OnesInRowsChangeUpTo(m, m', i, k - 1);
    }
  }

  // ---------------------------------------------------------------------
  // Degree distribution

  /** Number of vertices v < upto whose degree is k. */
  function WithDegree(m: Matrix, k: int, upto: nat): nat
    requires upto <= |m|
  {
    if upto == 0 then 0 else WithDegree(m, k, upto - 1) + (if Degree(m, upto - 1) == k then 1 else 0)
  }

  /** The degree histogram of the first upto vertices, with size buckets. */
  function Histogram(m: Matrix, size: nat, upto: nat): (h: seq<int>)
    requires upto <= |m|
    ensures |h| == size && forall k | 0 <= k < size :: h[k] == WithDegree(m, k, upto)
  {
    seq(size, k => WithDegree(m, k, upto))
  }

  /** Counting vertex i adds one to the bucket of its degree and to no other. */
  lemma HistogramStep(m: Matrix, size: nat, i: nat, h': seq<int>)
    requires i < |m| && 0 <= Degree(m, i) < size
    requires h' == Histogram(m, size, i)[Degree(m, i) := Histogram(m, size, i)[Degree(m, i)] + 1]
    ensures h' == Histogram(m, size, i + 1)
  {
  }

  function Sum(s: seq<int>): int
  {
    if s == [] then 0 else Sum(s[..|s| - 1]) + s[|s| - 1]
  }

  lemma {:induction false} SumIncrement(s: seq<int>, j: int)
    requires 0 <= j < |s|
    ensures Sum(s[j := s[j] + 1]) == Sum(s) + 1
  {
    var n := |s|;
    if j == n - 1 {
      assert s[j := s[j] + 1][..n - 1] == s[..n - 1];
    } else {
      assert s[j := s[j] + 1][..n - 1] == s[..n - 1][j := s[j] + 1];
      SumIncrement(s[..n - 1], j);
    }
  }

  /** The bins of a degree distribution add up to the number of vertices
      counted, provided every degree has a bin. */
  lemma {:induction false} HistogramTotal(m: Matrix, size: nat, upto: nat)
    requires upto <= |m|
    requires forall v | 0 <= v < upto :: Degree(m, v) < size
    ensures Sum(seq(size, k => WithDegree(m, k, upto))) == upto
  {
    var h := seq(size, k => WithDegree(m, k, upto));
    if upto == 0 {
      ZeroSum(h);
    } else {
      var h0 := seq(size, k => WithDegree(m, k, upto - 1));
      HistogramTotal(m, size, upto - 1);
      var d := Degree(m, upto - 1);
      assert h == h0[d := h0[d] + 1];
      SumIncrement(h0, d);
    }
  }

  lemma {:induction false} ZeroSum(s: seq<int>)
    requires forall k | 0 <= k < |s| :: s[k] == 0
    ensures Sum(s) == 0
  {
    if s != [] {
      ZeroSum(s[..|s| - 1]);
    }
  }

  /** A matrix with an edge has a vertex. */
  lemma EdgesNeedVertices(m: Matrix)
    requires NumEdges(m) != 0
    ensures |m| > 0
  {
  }

  /** The positions holding 1 in a row. */
  function OnesAt(row: seq<int>): (r: set<int>)
    ensures forall k :: k in r <==> 0 <= k < |row| && row[k] == 1
  {
    set k | 0 <= k < |row| && row[k] == 1
  }

  /** CountOnes counts the positions holding 1, each once. */
  lemma {:induction false} CountOnesCard(row: seq<int>)
    ensures CountOnes(row) == |OnesAt(row)|
  {
    if row != [] {
      var n := |row|;
      CountOnesCard(row[..n - 1]);
      if row[n - 1] == 1 {
        assert OnesAt(row) == OnesAt(row[..n - 1]) + {n - 1};
      } else {
        assert OnesAt(row) == OnesAt(row[..n - 1]);
      }
    }
  }

  /** When each of the first k rows has d ones, they hold k * d ones. */
  lemma {:induction false} OnesInRowsRegular(m: Matrix, d: int, k: nat)
    requires k <= |m| && forall v | 0 <= v < k :: Degree(m, v) == d
    ensures OnesInRows(m, k) == k * d
  {
    if k > 0 {
      OnesInRowsRegular(m, d, k - 1);
      assert Degree(m, k - 1) == d;
      assert (k - 1) * d + d == k * d;
    }
  }
}
