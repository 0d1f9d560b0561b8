/** The standard graphs of CommonGraphs: the Petersen graph as a constant
    matrix, and the path, cycle and complete graph on n vertices, each built
    by filling a fresh zero matrix row by row. */
module CommonGraphs {
  import opened Outcomes
  import opened MatrixSpec
  import opened Reachability
  import opened BreadthFirst
  import opened Graph

  // ---------------------------------------------------------------------
  // The graphs as values

  /** The path 0 - 1 - ... - (n - 1): consecutive vertices are adjacent. */
  function PathMatrix(n: nat): (m: Matrix)
    ensures |m| == n && Undirected(m)
    ensures forall v | 0 <= v < n :: m[v][v] == 0
  {
    seq(n, a => seq(n, b => if b == a + 1 || a == b + 1 then 1 else 0))
  }

  /** The vertex after a on the ring 0, 1, ..., n - 1, 0. */
  function Next(a: int, n: int): int
  {
    if a + 1 == n then 0 else a + 1
  }

  /** The ring on n vertices: each vertex is adjacent to the one after it
      and the one before it. */
  function CycleMatrix(n: nat): (m: Matrix)
    ensures |m| == n && Undirected(m)
  {
    seq(n, a => seq(n, b => if b == Next(a, n) || a == Next(b, n) then 1 else 0))
  }

  /** The complete graph on n vertices: all distinct vertices are adjacent. */
  function CliqueMatrix(n: nat): (m: Matrix)
    ensures |m| == n && Undirected(m)
    ensures forall v | 0 <= v < n :: m[v][v] == 0
  {
    seq(n, a => seq(n, b => if a != b then 1 else 0))
  }

  /** The Petersen graph: the outer 5-cycle 0-1-2-3-4, the spokes i - i+5,
      and the inner pentagram 5-7-9-6-8. */
  function PetersonGraph(): Matrix
  {
    [[0, 1, 0, 0, 1, 1, 0, 0, 0, 0],
     [1, 0, 1, 0, 0, 0, 1, 0, 0, 0],
     [0, 1, 0, 1, 0, 0, 0, 1, 0, 0],
     [0, 0, 1, 0, 1, 0, 0, 0, 1, 0],
     [1, 0, 0, 1, 0, 0, 0, 0, 0, 1],
     [1, 0, 0, 0, 0, 0, 0, 1, 1, 0],
     [0, 1, 0, 0, 0, 0, 0, 0, 1, 1],
     [0, 0, 1, 0, 0, 1, 0, 0, 0, 1],
     [0, 0, 0, 1, 0, 1, 1, 0, 0, 0],
     [0, 0, 0, 0, 1, 0, 1, 1, 0, 0]]
  }

  // ---------------------------------------------------------------------
  // The builders

  /** Cycle(numNodes): every entry of a fresh matrix is set, row by row. A
      negative size is the overflow the array allocation reports. */
  method Cycle(numNodes: int) returns (r: Result<array2<int>>)
    ensures r.Err? <==> numNodes < 0
    ensures r.Err? ==> r.error == Overflow
    ensures r.Ok? ==> fresh(r.value) && MatrixOf(r.value) == CycleMatrix(numNodes)
  {
    if numNodes < 0 {
      return Err(Overflow);
    }
    var n := numNodes;
    var c := new int[n, n];
    ghost var S := CycleMatrix(n);
    for i := 0 to n
      invariant forall a, b | 0 <= a < i && 0 <= b < n :: c[a, b] == S[a][b]
    {
      for j := 0 to n
        invariant forall a, b | 0 <= a < i && 0 <= b < n :: c[a, b] == S[a][b]
        invariant forall b | 0 <= b < j :: c[i, b] == S[i][b]
      {
        if i - 1 == j || i + 1 == j {
          c[i, j] := 1;
        } else if i == 0 && j == n - 1 {
          c[i, j] := 1;
        } else if i == n - 1 && j == 0 {
          c[i, j] := 1;
        } else {
          c[i, j] := 0;
        }
      }
    }
    assert MatrixOf(c) == S by {
      forall a | 0 <= a < n
        ensures MatrixOf(c)[a] == S[a]
      {
      }
    }
    return Ok(c);
  }

  /** (a, b) lies on or above the diagonal and has been visited by the
      triangular scan (j from i) once it has reached row i, column j. */
  predicate Scanned(a: int, b: int, i: int, j: int)
  {
    var lo := if a < b then a else b;
    var hi := if a < b then b else a;
    lo < i || (lo == i && hi < j)
  }

  /** Path(numNodes): the upper triangle is scanned and each edge is
      written into both halves of a zero matrix. */
  method Path(numNodes: int) returns (r: Result<array2<int>>)
    ensures r.Err? <==> numNodes < 0
    ensures r.Err? ==> r.error == Overflow
    ensures r.Ok? ==> fresh(r.value) && MatrixOf(r.value) == PathMatrix(numNodes)
  {
    if numNodes < 0 {
      return Err(Overflow);
    }
    var n := numNodes;
    var c := new int[n, n]((_, _) => 0);
    ghost var S := PathMatrix(n);
    for i := 0 to n
      invariant forall a, b | 0 <= a < n && 0 <= b < n ::
        c[a, b] == if Scanned(a, b, i, i) then S[a][b] else 0
    {
      for j := i to n
        invariant forall a, b | 0 <= a < n && 0 <= b < n ::
          c[a, b] == if Scanned(a, b, i, j) then S[a][b] else 0
      {
        if i == j - 1 {
          c[i, j] := 1;
          c[j, i] := 1;
        }
      }
    }
    assert MatrixOf(c) == S by {
      forall a | 0 <= a < n
        ensures MatrixOf(c)[a] == S[a]
      {
      }
    }
    return Ok(c);
  }

  /** Clique(numNodes): as Path, with every off-diagonal entry an edge. */
  method Clique(numNodes: int) returns (r: Result<array2<int>>)
    ensures r.Err? <==> numNodes < 0
    ensures r.Err? ==> r.error == Overflow
    ensures r.Ok? ==> fresh(r.value) && MatrixOf(r.value) == CliqueMatrix(numNodes)
  {
    if numNodes < 0 {
      return Err(Overflow);
    }
    var n := numNodes;
    var c := new int[n, n]((_, _) => 0);
    ghost var S := CliqueMatrix(n);
    for i := 0 to n
      invariant forall a, b | 0 <= a < n && 0 <= b < n ::
        c[a, b] == if Scanned(a, b, i, i) then S[a][b] else 0
    {
      for j := i to n
        invariant forall a, b | 0 <= a < n && 0 <= b < n ::
          c[a, b] == if Scanned(a, b, i, j) then S[a][b] else 0
      {
        if i != j {
          c[i, j] := 1;
          c[j, i] := 1;
        }
      }
    }
    assert MatrixOf(c) == S by {
      forall a | 0 <= a < n
        ensures MatrixOf(c)[a] == S[a]
      {
      }
    }
    return Ok(c);
  }

  // ---------------------------------------------------------------------
  // Degrees and edge counts

  /** The two ends of a path have one neighbour, the inner vertices two. */
  lemma PathDegree(n: nat, v: int)
    requires 0 <= v < n
    ensures Degree(PathMatrix(n), v) == (if v > 0 then 1 else 0) + (if v < n - 1 then 1 else 0)
  {
    var row := PathMatrix(n)[v];
    CountOnesCard(row);
    var before: set<int> := if v > 0 then {v - 1} else {};
    var after: set<int> := if v < n - 1 then {v + 1} else {};
    assert OnesAt(row) == before + after;
  }

  /** The first k rows of a path on n > 0 vertices hold 2k ones, less one
      for vertex 0 and one for vertex n - 1 once they are counted. */
  lemma {:induction false} PathOnes(n: nat, k: nat)
    requires k <= n
    ensures OnesInRows(PathMatrix(n), k) ==
      2 * k - (if k > 0 then 1 else 0) - (if k == n && n > 0 then 1 else 0)
  {
    if k > 0 {
      PathOnes(n, k - 1);
      PathDegree(n, k - 1);
    }
  }

  /** A path on n vertices has n - 1 edges. */
  lemma PathEdges(n: nat)
    ensures NumEdges(PathMatrix(n)) == if n == 0 then 0 else n - 1
  {
    PathOnes(n, n);
  }

  /** Along a path, k edges from vertex 0 reach no further than vertex k. */
  lemma {:induction false} PathWithinBound(n: nat, x: int, k: nat)
    requires Within(PathMatrix(n), 0, x, k)
    ensures x <= k
    decreases k
  {
    if x != 0 {
      var u :| Within(PathMatrix(n), 0, u, k - 1) && Edge(PathMatrix(n), u, x);
      PathWithinBound(n, u, k - 1);
    }
  }

  /** Along a path, vertex v is reached from vertex 0 in v edges. */
  lemma {:induction false} PathWithin(n: nat, v: nat)
    requires v < n
    ensures Within(PathMatrix(n), 0, v, v)
  {
    if v > 0 {
      PathWithin(n, v - 1);
      WithinStep(PathMatrix(n), 0, v - 1, v, v - 1);
    }
  }

  /** The distance from vertex 0 of a path to vertex v is v, which is what
      getDistance(0, v) returns on a path. */
  lemma PathDistance(n: nat, v: nat)
    requires v < n
    ensures IsLevel(PathMatrix(n), 0, v, v)
    ensures DistanceSpec(PathMatrix(n), 0, v, v)
  {
    PathWithin(n, v);
    if v > 0 && Within(PathMatrix(n), 0, v, v - 1) {
      PathWithinBound(n, v, v - 1);
    }
  }

  /** Every vertex of a ring of three or more has two neighbours. */
  lemma CycleDegree(n: nat, v: int)
    requires n >= 3 && 0 <= v < n
    ensures Degree(CycleMatrix(n), v) == 2
  {
    var row := CycleMatrix(n)[v];
    CountOnesCard(row);
    var prev := if v == 0 then n - 1 else v - 1;
    assert Next(prev, n) == v;
    assert OnesAt(row) == {Next(v, n), prev};
  }

  /** A ring of three or more vertices has as many edges as vertices. */
  lemma CycleEdges(n: nat)
    requires n >= 3
    ensures NumEdges(CycleMatrix(n)) == n
  {
    forall v | 0 <= v < n
      ensures Degree(CycleMatrix(n), v) == 2
    {
      CycleDegree(n, v);
    }
    OnesInRowsRegular(CycleMatrix(n), 2, n);
  }

  /** Every vertex of a complete graph is adjacent to all the others. */
  lemma CliqueDegree(n: nat, v: int)
    requires 0 <= v < n
    ensures Degree(CliqueMatrix(n), v) == n - 1
  {
    var row := CliqueMatrix(n)[v];
    CountOnesCard(row);
    assert OnesAt(row) == Vertices(n) - {v};
    VerticesCard(n);
  }

  /** A complete graph on n vertices has n(n - 1)/2 edges. */
  lemma CliqueEdges(n: nat)
    ensures NumEdges(CliqueMatrix(n)) == n * (n - 1) / 2
  {
    forall v | 0 <= v < n
      ensures Degree(CliqueMatrix(n), v) == n - 1
    {
      CliqueDegree(n, v);
    }
    OnesInRowsRegular(CliqueMatrix(n), n - 1, n);
  }

  /** The Petersen graph is an undirected 3-regular graph on ten vertices
      with fifteen edges and no self-loops. */
  lemma PetersonShape()
    ensures |PetersonGraph()| == 10 && Undirected(PetersonGraph())
    ensures forall v | 0 <= v < 10 :: PetersonGraph()[v][v] == 0 && Degree(PetersonGraph(), v) == 3
    ensures NumEdges(PetersonGraph()) == 15
  {
    PetersonSymmetric();
    PetersonRegular();
  }

  /** The literal is symmetric with a zero diagonal. */
  lemma PetersonSymmetric()
    ensures |PetersonGraph()| == 10 && Undirected(PetersonGraph())
    ensures forall v | 0 <= v < 10 :: PetersonGraph()[v][v] == 0
  {
  }

  /** Every vertex has three neighbours, so there are 30 / 2 edges. */
  lemma PetersonRegular()
    ensures |PetersonGraph()| == 10
    ensures forall v | 0 <= v < 10 :: Degree(PetersonGraph(), v) == 3
    ensures NumEdges(PetersonGraph()) == 15
  {
    forall v | 0 <= v < 10
      ensures Degree(PetersonGraph(), v) == 3
    {
      PetersonRow(v);
    }
    OnesInRowsRegular(PetersonGraph(), 3, 10);
  }

  /** The neighbours of each vertex of the Petersen graph. */
  lemma PetersonRow(v: int)
    requires 0 <= v < 10
    ensures Degree(PetersonGraph(), v) == 3
  {
    var P := PetersonGraph();
    if v == 0 { ThreeNeighbours(P[v], 1, 4, 5); }
    else if v == 1 { ThreeNeighbours(P[v], 0, 2, 6); }
    else if v == 2 { ThreeNeighbours(P[v], 1, 3, 7); }
    else if v == 3 { ThreeNeighbours(P[v], 2, 4, 8); }
    else if v == 4 { ThreeNeighbours(P[v], 0, 3, 9); }
    else if v == 5 { ThreeNeighbours(P[v], 0, 7, 8); }
    else if v == 6 { ThreeNeighbours(P[v], 1, 8, 9); }
    else if v == 7 { ThreeNeighbours(P[v], 2, 5, 9); }
    else if v == 8 { ThreeNeighbours(P[v], 3, 5, 6); }
    else { ThreeNeighbours(P[v], 4, 6, 7); }
  }

  /** A row whose ones sit exactly at three distinct positions counts three. */
  lemma ThreeNeighbours(row: seq<int>, a: int, b: int, c: int)
    requires 0 <= a < b < c < |row|
    requires forall k | 0 <= k < |row| :: row[k] == (if k == a || k == b || k == c then 1 else 0)
    ensures CountOnes(row) == 3
  {
    CountOnesCard(row);
    assert OnesAt(row) == {a, b, c};
  }
}
