/** The AdjacencyMatrix class: a graph stored as a square `int[,]` whose
    entries equal to 1 are edges, with the search algorithms the simulation
    runs on it. */
module Graph {
  import opened Outcomes
  import opened MatrixSpec
  import opened Reachability
  import opened BreadthFirst
  import opened CycleSearch
  import opened ShortestPath
  import opened FirstDiscovery

  /** The rows of a two-dimensional array as a matrix value. */
  ghost function MatrixOf(g: array2<int>): (m: Matrix)
    reads g
    ensures |m| == g.Length0
    ensures forall i | 0 <= i < g.Length0 :: |m[i]| == g.Length1
    ensures forall i, j | 0 <= i < g.Length0 && 0 <= j < g.Length1 :: m[i][j] == g[i, j]
  {
    seq(g.Length0, i requires 0 <= i < g.Length0 reads g =>
      seq(g.Length1, j requires 0 <= j < g.Length1 reads g => g[i, j]))
  }

  /** The check the library applies to a vertex argument: it rejects
      negative vertices and those above the order, but lets the order itself
      through. */
  predicate OutOfBounds(v: int, n: int)
  {
    v < 0 || v > n
  }

  /** Least positive entry of cs, or -1 when there is none: how girth
      combines the cycle lengths found from each vertex. */
  function MinPositive(cs: seq<int>): (g: int)
    ensures g == -1 <==> forall i | 0 <= i < |cs| :: cs[i] <= 0
    ensures g != -1 ==> g > 0 && g in cs && forall i | 0 <= i < |cs| && cs[i] > 0 :: g <= cs[i]
  {
    if cs == [] then -1
    else
      var g := MinPositive(cs[..|cs| - 1]);
      var c := cs[|cs| - 1];
      assert forall i | 0 <= i < |cs| - 1 :: cs[..|cs| - 1][i] == cs[i];
      assert g != -1 ==> g in cs[..|cs| - 1];
      if c > 0 then (if g < 0 || g > c then c else g) else g
  }

  /** Girth's running minimum over one more cycle length. */
  lemma MinPositiveAppend(cs: seq<int>, c: int)
    ensures MinPositive(cs + [c]) ==
      if c > 0 && (MinPositive(cs) < 0 || MinPositive(cs) > c) then c else MinPositive(cs)
  {
    assert (cs + [c])[..|cs|] == cs;
  }

  /** cs[v] is what smallestCycle(v) may return, for every v < |cs|. */
  ghost predicate CycleTable(m: Matrix, cs: seq<int>)
  {
    forall v | 0 <= v < |cs| :: CycleSpec(m, v, cs[v])
  }

  lemma CycleTableAppend(m: Matrix, cs: seq<int>, c: int)
    requires CycleTable(m, cs) && CycleSpec(m, |cs|, c)
    ensures CycleTable(m, cs + [c])
  {
  }

  /** cs[v] is what smallestCycle(v) returns, for every v < |cs|. */
  ghost predicate RunTable(m: Matrix, cs: seq<int>)
  {
    IsSquare(m) && |cs| <= |m| && forall v | 0 <= v < |cs| :: cs[v] == CycleRun(m, v)
  }

  lemma RunTableAppend(m: Matrix, cs: seq<int>, c: int)
    requires RunTable(m, cs) && |cs| < |m| && c == CycleRun(m, |cs|)
    ensures RunTable(m, cs + [c])
  {
  }

  class AdjacencyMatrix {
    var graph: array2<int>

    /** The matrix is square; both constructors and trimArray keep it so. */
    ghost predicate Valid()
      reads this
    {
      graph.Length0 == graph.Length1
    }

    ghost function Entries(): Matrix
      reads this, graph
    {
      MatrixOf(graph)
    }

    function Order(): nat
      reads this
    {
      graph.Length0
    }

    /** Stores the given array without copying it. */
    constructor Wrap(g: array2<int>)
      requires g.Length0 == g.Length1
      ensures graph == g && Valid()
    {
      graph := g;
    }

    /** The constructor from an array: a non-square array is refused. */
    static method FromArray(g: array2<int>) returns (r: Result<AdjacencyMatrix>)
      ensures r.Err? <==> g.Length0 != g.Length1
      ensures r.Err? ==> r.error == ArgumentError
      ensures r.Ok? ==> fresh(r.value) && r.value.graph == g && r.value.Valid()
    {
      if g.Length0 == g.Length1 {
        var a := new AdjacencyMatrix.Wrap(g);
        return Ok(a);
      }
      return Err(ArgumentError);
    }

    /** The constructor from a vertex count: an n x n matrix of zeros, n > 0. */
    static method WithOrder(numVertices: int) returns (r: Result<AdjacencyMatrix>)
      ensures r.Err? <==> numVertices <= 0
      ensures r.Err? ==> r.error == ArgumentError
      ensures r.Ok? ==>
        fresh(r.value) && fresh(r.value.graph) && r.value.Valid() && r.value.Entries() == Zeros(numVertices)
    {
      if numVertices <= 0 {
        return Err(ArgumentError);
      }
      var g := new int[numVertices, numVertices];
      var i := 0;
      while i < numVertices
        invariant 0 <= i <= numVertices
        invariant forall a, b | 0 <= a < i && 0 <= b < numVertices :: g[a, b] == 0
      {
        var j := 0;
        while j < numVertices
          invariant 0 <= j <= numVertices
          invariant forall a, b | 0 <= a < i && 0 <= b < numVertices :: g[a, b] == 0
          invariant forall b | 0 <= b < j :: g[i, b] == 0
        {
          g[i, j] := 0;
          j := j + 1;
        }
        i := i + 1;
      }
      var a := new AdjacencyMatrix.Wrap(g);
      assert MatrixOf(g) == Zeros(numVertices) by {
        var m := MatrixOf(g);
        forall a | 0 <= a < numVertices
          ensures m[a] == Zeros(numVertices)[a]
        {
        }
      }
      return Ok(a);
    }

    /** The Graph property: a copy of the matrix, not the matrix itself. */
    method GraphCopy() returns (c: array2<int>)
      requires Valid()
      ensures fresh(c) && c.Length0 == c.Length1 == Order() && MatrixOf(c) == Entries()
    {
      var n := graph.Length0;
      c := new int[n, n];
      var i := 0;
      while i < n
        invariant 0 <= i <= n
        invariant forall a, b | 0 <= a < i && 0 <= b < n :: c[a, b] == graph[a, b]
      {
        var j := 0;
        while j < n
          invariant 0 <= j <= n
          invariant forall a, b | 0 <= a < i && 0 <= b < n :: c[a, b] == graph[a, b]
          invariant forall b | 0 <= b < j :: c[i, b] == graph[i, b]
        {
          c[i, j] := graph[i, j];
          j := j + 1;
        }
        i := i + 1;
      }
      assert MatrixOf(c) == MatrixOf(graph) by {
        var m, m' := MatrixOf(c), MatrixOf(graph);
        forall a | 0 <= a < n
          ensures m[a] == m'[a]
        {
        }
      }
    }

    /** Stores 1 in (v1, v2) and then in (v2, v1).  A vertex equal to the
        order passes the argument check and then fails on the array access,
        before anything is written. */
    method AddEdge(vertex1: int, vertex2: int) returns (o: Outcome)
      requires Valid()
      modifies graph
      ensures OutOfBounds(vertex1, Order()) || OutOfBounds(vertex2, Order()) ==>
        o == Failure(ArgumentError) && Entries() == old(Entries())
      ensures (!OutOfBounds(vertex1, Order()) && !OutOfBounds(vertex2, Order()) &&
               (vertex1 == Order() || vertex2 == Order())) ==>
        o == Failure(IndexOutOfRange) && Entries() == old(Entries())
      ensures 0 <= vertex1 < Order() && 0 <= vertex2 < Order() ==>
        o == Success && Entries() == SetPair(old(Entries()), vertex1, vertex2, 1)
    {
      o := SetPairIn(vertex1, vertex2, 1);
    }

    /** Stores 0 in (v1, v2) and then in (v2, v1), with the same checks as
        AddEdge. */
    method RemoveEdge(vertex1: int, vertex2: int) returns (o: Outcome)
      requires Valid()
      modifies graph
      ensures OutOfBounds(vertex1, Order()) || OutOfBounds(vertex2, Order()) ==>
        o == Failure(ArgumentError) && Entries() == old(Entries())
      ensures (!OutOfBounds(vertex1, Order()) && !OutOfBounds(vertex2, Order()) &&
               (vertex1 == Order() || vertex2 == Order())) ==>
        o == Failure(IndexOutOfRange) && Entries() == old(Entries())
      ensures 0 <= vertex1 < Order() && 0 <= vertex2 < Order() ==>
        o == Success && Entries() == SetPair(old(Entries()), vertex1, vertex2, 0)
    {
      o := SetPairIn(vertex1, vertex2, 0);
    }

    /** The body shared by addEdge and removeEdge. */
    method SetPairIn(vertex1: int, vertex2: int, x: int) returns (o: Outcome)
      requires Valid()
      modifies graph
      ensures OutOfBounds(vertex1, Order()) || OutOfBounds(vertex2, Order()) ==>
        o == Failure(ArgumentError) && Entries() == old(Entries())
      ensures (!OutOfBounds(vertex1, Order()) && !OutOfBounds(vertex2, Order()) &&
               (vertex1 == Order() || vertex2 == Order())) ==>
        o == Failure(IndexOutOfRange) && Entries() == old(Entries())
      ensures 0 <= vertex1 < Order() && 0 <= vertex2 < Order() ==>
        o == Success && Entries() == SetPair(old(Entries()), vertex1, vertex2, x)
    {
      var n := graph.Length0;
      if vertex1 < 0 || vertex1 > n || vertex2 < 0 || vertex2 > n {
        return Failure(ArgumentError);
      }
      if vertex1 == n || vertex2 == n {
        return Failure(IndexOutOfRange);
      }
      ghost var M := Entries();
      graph[vertex1, vertex2] := x;
      graph[vertex2, vertex1] := x;
      assert Entries() == SetPair(M, vertex1, vertex2, x) by {
        var m, m' := Entries(), SetPair(M, vertex1, vertex2, x);
        forall a | 0 <= a < n
          ensures m[a] == m'[a]
        {
        }
      }
      return Success;
    }

    /** Number of entries equal to 1, halved. */
    method NumEdges() returns (e: int)
      requires Valid()
      ensures e == MatrixSpec.NumEdges(Entries())
    {
      ghost var M := Entries();
      var n := graph.Length0;
      var count := 0;
      var i := 0;
      while i < n
        invariant 0 <= i <= n
        invariant count == OnesInRows(M, i)
      {
        var j := 0;
        ghost var before := count;
        while j < n
          invariant 0 <= j <= n
          invariant count == before + CountOnes(M[i][..j])
        {
          assert M[i][..j + 1][..j] == M[i][..j];
          if graph[i, j] == 1 {
            count := count + 1;
          }
          j := j + 1;
        }
        assert M[i][..n] == M[i];
        i := i + 1;
      }
      return count / 2;
    }

    /** Number of entries equal to 1 in row node.  A node at or above the
        order is refused; a negative one fails on the array access unless the
        matrix is empty, in which case the scan reads nothing. */
    method GetDegree(node: int) returns (r: Result<int>)
      requires Valid()
      ensures node >= Order() <==> r == Err(ArgumentOutOfRange)
      ensures node < 0 && Order() > 0 <==> r == Err(IndexOutOfRange)
      ensures node < 0 && Order() == 0 ==> r == Ok(0)
      ensures 0 <= node < Order() ==> r == Ok(Degree(Entries(), node))
    {
      var n := graph.Length0;
      if node >= n {
        return Err(ArgumentOutOfRange);
      }
      if node < 0 {
        if n > 0 {
          return Err(IndexOutOfRange);
        }
        return Ok(0);
      }
      ghost var row := Entries()[node];
      var degree := 0;
      var j := 0;
      while j < n
        invariant 0 <= j <= n
        invariant degree == CountOnes(row[..j])
      {
        assert row[..j + 1][..j] == row[..j];
        if graph[node, j] == 1 {
          degree := degree + 1;
        }
        j := j + 1;
      }
      assert row[..n] == row;
      return Ok(degree);
    }

    /** The least degree; the search starts from the order, which no degree
        exceeds, so an empty matrix gives 0. */
    method MinDegree() returns (degree: int)
      requires Valid()
      ensures forall v | 0 <= v < Order() :: degree <= Degree(Entries(), v)
      ensures Order() > 0 ==> exists v | 0 <= v < Order() :: degree == Degree(Entries(), v)
      ensures Order() == 0 ==> degree == 0
    {
      var n := graph.Length0;
      degree := n;
      var i := 0;
      while i < n
        invariant 0 <= i <= n
        invariant forall v | 0 <= v < i :: degree <= Degree(Entries(), v)
        invariant i > 0 ==> exists v | 0 <= v < i :: degree == Degree(Entries(), v)
        invariant i == 0 ==> degree == n
      {
        var thisDegree := GetDegree(i);
        assert Degree(Entries(), i) <= |Entries()[i]|;
        if thisDegree.value < degree {
          degree := thisDegree.value;
        }
        i := i + 1;
      }
    }

    /** The greatest degree, 0 for an empty matrix. */
    method MaxDegree() returns (degree: int)
      requires Valid()
      ensures forall v | 0 <= v < Order() :: Degree(Entries(), v) <= degree
      ensures Order() > 0 ==> exists v | 0 <= v < Order() :: degree == Degree(Entries(), v)
      ensures Order() == 0 ==> degree == 0
    {
      var n := graph.Length0;
      degree := 0;
      var i := 0;
      while i < n
        invariant 0 <= i <= n
        invariant forall v | 0 <= v < i :: Degree(Entries(), v) <= degree
        invariant i > 0 ==> exists v | 0 <= v < i :: degree == Degree(Entries(), v)
        invariant i == 0 ==> degree == 0
      {
        var thisDegree := GetDegree(i);
        if thisDegree.value > degree {
          degree := thisDegree.value;
        }
        i := i + 1;
      }
    }

    /** Whether every vertex has the degree of vertex 0; vertex 0 is looked
        up first, so an empty matrix is refused. */
    method IsRegular() returns (r: Result<bool>)
      requires Valid()
      ensures r.Err? <==> Order() == 0
      ensures r.Err? ==> r.error == ArgumentOutOfRange
      ensures r.Ok? ==> (r.value <==> forall v | 0 <= v < Order() :: Degree(Entries(), v) == Degree(Entries(), 0))
    {
      var first := GetDegree(0);
      if first.Err? {
        return Err(first.error);
      }
      var degree := first.value;
      var n := graph.Length0;
      var i := 1;
      while i < n
        invariant 1 <= i <= n
        invariant forall v | 0 <= v < i :: Degree(Entries(), v) == degree
      {
        var thisDegree := GetDegree(i);
        if degree != thisDegree.value {
          return Ok(false);
        }
        i := i + 1;
      }
      return Ok(true);
    }

    /** The degree distribution: bin k counts the vertices of degree k, and
        there is one bin per degree from 0 to the maximum degree. */
    method DegreeDistro() returns (d: seq<int>)
      requires Valid()
      ensures |d| >= 1
      ensures forall v | 0 <= v < Order() :: Degree(Entries(), v) < |d|
      ensures Order() > 0 ==> exists v | 0 <= v < Order() :: Degree(Entries(), v) == |d| - 1
      ensures Order() == 0 ==> |d| == 1
      ensures forall k | 0 <= k < |d| :: d[k] == WithDegree(Entries(), k, Order())
    {
      var maxDegree := MaxDegree();
      d := CountDegrees(maxDegree + 1);
      if Order() > 0 {
        ghost var w :| 0 <= w < Order() && maxDegree == Degree(Entries(), w);
      }
    }

    /** The counting loop of degreeDistro: bucket k receives one for every
        vertex of degree k. */
    method CountDegrees(size: nat) returns (d: seq<int>)
      requires Valid() && forall v | 0 <= v < Order() :: Degree(Entries(), v) < size
      ensures d == Histogram(Entries(), size, Order())
    {
      ghost var M := Entries();
      var n := graph.Length0;
      var distro := new int[size](_ => 0);
      var i := 0;
      while i < n
        invariant 0 <= i <= n
        invariant distro[..] == Histogram(M, size, i)
      {
        var degree := GetDegree(i);
        var k := degree.value;
        ghost var before := distro[..];
        distro[k] := distro[k] + 1;
        assert distro[..] == before[k := before[k] + 1];
        HistogramStep(M, size, i, distro[..]);
        i := i + 1;
      }
      d := distro[..];
    }

    /** Removes row rowToRemove and column columnToRemove.  The result array
        is allocated with one row and one column less; an empty matrix asks
        for a negative size, and indices that do not pick a row and a column
        make a write fall outside the result.  On failure the matrix is left
        as it was. */
    method TrimArray(rowToRemove: int, columnToRemove: int) returns (o: Outcome)
      requires Valid()
      modifies this
      ensures Valid()
      ensures o.Success? <==> TrimFits(old(Order()), rowToRemove, columnToRemove)
      ensures o.Failure? ==>
        graph == old(graph) && o.error == (if old(Order()) == 0 then Overflow else IndexOutOfRange)
      ensures o.Success? ==> fresh(graph) && Entries() == Trim(old(Entries()), rowToRemove, columnToRemove)
    {
      var n := graph.Length0;
      if n == 0 {
        return Failure(Overflow);
      }
      if !TrimFits(n, rowToRemove, columnToRemove) {
        return Failure(IndexOutOfRange);
      }
      ghost var M := Entries();
      var g := graph;
      var result := new int[n - 1, n - 1];
      var i, j := 0, 0;
      while i < n
        invariant 0 <= i <= n
        invariant graph == g && Entries() == M
        invariant j == i - (if 0 <= rowToRemove < i then 1 else 0)
        invariant forall a, b | 0 <= a < j && a < n - 1 && 0 <= b < n - 1 ::
          result[a, b] == M[Skip(a, rowToRemove)][Skip(b, columnToRemove)]
      {
        if i != rowToRemove {
          CopyRowSkipping(result, j, i, columnToRemove);
          j := j + 1;
        }
        i := i + 1;
      }
      graph := result;
      assert MatrixOf(result) == Trim(M, rowToRemove, columnToRemove) by {
        var m, t := MatrixOf(result), Trim(M, rowToRemove, columnToRemove);
        forall a | 0 <= a < n - 1
          ensures m[a] == t[a]
        {
        }
      }
      return Success;
    }

    /** The inner loop of trimArray: row i without column columnToRemove
        becomes row j of result. */
    method CopyRowSkipping(result: array2<int>, j: int, i: int, columnToRemove: int)
      requires Valid() && result != graph
      requires result.Length0 == result.Length1 == Order() - 1
      requires 0 <= i < Order() && 0 <= j
      requires Order() == 1 ==> columnToRemove == 0
      requires Order() > 1 ==> j < Order() - 1 && 0 <= columnToRemove < Order()
      modifies result
      ensures forall a, b | 0 <= a < result.Length0 && a != j && 0 <= b < result.Length1 ::
        result[a, b] == old(result[a, b])
      ensures j < Order() - 1 ==>
        forall b | 0 <= b < Order() - 1 :: result[j, b] == Entries()[i][Skip(b, columnToRemove)]
    {
      var n := graph.Length0;
      var k, u := 0, 0;
      while k < n
        invariant 0 <= k <= n
        invariant u == k - (if columnToRemove < k then 1 else 0)
        invariant forall a, b | 0 <= a < result.Length0 && a != j && 0 <= b < result.Length1 ::
          result[a, b] == old(result[a, b])
        invariant j < n - 1 ==> forall b | 0 <= b < u && b < n - 1 :: result[j, b] == graph[i, Skip(b, columnToRemove)]
      {
        if k != columnToRemove {
          result[j, u] := graph[i, k];
          u := u + 1;
        }
        k := k + 1;
      }
    }

    /** The scan of row u shared by the searches: appends every neighbour of
        u outside visited, in increasing order. */
    method AppendUnvisited(q: seq<int>, u: int, visited: set<int>) returns (q': seq<int>)
      requires Valid() && 0 <= u < Order()
      ensures q' == q + Unvisited(Entries(), u, visited, Order())
    {
      ghost var M := Entries();
      assert IsSquare(M) && graph.Length1 == |M|;
      var added: seq<int> := [];
      var i := 0;
      while i < graph.Length1
        invariant 0 <= i <= graph.Length1
        invariant added == Unvisited(M, u, visited, i)
      {
        var entry := graph[u, i];
        assert entry == M[u][i];
        UnvisitedNext(M, u, visited, i);
        if entry == 1 && i !in visited {
          added := added + [i];
        }
        assert added == Unvisited(M, u, visited, i + 1);
        i := i + 1;
      }
      q' := q + added;
    }

    /** Length of a shortest path from startVertex to endVertex by a
        level-by-level breadth-first search, -1 when there is none.  A start
        vertex equal to the order fails on the first row it reads unless it
        is also the destination. */
    method GetDistance(startVertex: int, endVertex: int) returns (r: Result<int>)
      requires Valid()
      ensures OutOfBounds(startVertex, Order()) || OutOfBounds(endVertex, Order()) <==> r == Err(ArgumentError)
      ensures r == Err(IndexOutOfRange) <==>
        !OutOfBounds(endVertex, Order()) && startVertex == Order() && startVertex != endVertex
      ensures r.Ok? ==> DistanceSpec(Entries(), startVertex, endVertex, r.value)
      ensures r.Err? ==> r.error == ArgumentError || r.error == IndexOutOfRange
    {
      var n := graph.Length0;
      if startVertex < 0 || startVertex > n {
        return Err(ArgumentError);
      }
      if endVertex < 0 || endVertex > n {
        return Err(ArgumentError);
      }
      if startVertex == endVertex {
        // the first vertex dequeued is the destination
        assert IsLevel(Entries(), startVertex, endVertex, 0);
        return Ok(0);
      }
      if startVertex == n {
        // the first scan reads row Order of the array
        return Err(IndexOutOfRange);
      }
      var d := LevelSearch(startVertex, endVertex);
      r := Ok(d);
    }

    /** The search loop of getDistance: dequeues level `depth` from one queue
        while the next level collects in the other. */
    method LevelSearch(startVertex: int, endVertex: int) returns (d: int)
      requires Valid() && 0 <= startVertex < Order() && 0 <= endVertex <= Order()
      ensures DistanceSpec(Entries(), startVertex, endVertex, d)
    {
      var n := graph.Length0;
      ghost var M := Entries();
      var depth: nat := 0;
      var toVisitNow := [startVertex];
      var toVisitNext: seq<int> := [];
      var visited: set<int> := {};
      LevelInit(M, startVertex);
      while |toVisitNow| > 0 || |toVisitNext| > 0
        invariant LevelInv(M, startVertex, depth, visited, toVisitNow, toVisitNext)
        invariant |toVisitNow| == 0 ==> |toVisitNext| == 0
        invariant endVertex !in visited
        decreases |Vertices(n) - visited|, Stale(toVisitNow + toVisitNext, visited)
      {
        ghost var d0, N, X, V := depth, toVisitNow, toVisitNext, visited;
        var currentNode := toVisitNow[0];
        toVisitNow := toVisitNow[1..];
        if currentNode == endVertex {
          LevelFound(M, startVertex, depth, V, N, X);
          return depth;
        }
        visited := visited + {currentNode};
        toVisitNext := AppendUnvisited(toVisitNext, currentNode, visited);
        if |toVisitNow| == 0 {
          toVisitNow := toVisitNext;
          toVisitNext := [];
          depth := depth + 1;
        }
        LevelAdvance(M, startVertex, d0, V, N, X, depth, visited, toVisitNow, toVisitNext);
      }
      LevelExhausted(M, startVertex, depth, visited, endVertex);
      return -1;
    }

    /** A shortest path from startVertex to endVertex, written from the end
        back to the start, or [-1] when there is none.  Arguments are checked
        as in getDistance. */
    method GetShortestPath(startVertex: int, endVertex: int) returns (r: Result<seq<int>>)
      requires Valid()
      ensures OutOfBounds(startVertex, Order()) || OutOfBounds(endVertex, Order()) <==> r == Err(ArgumentError)
      ensures r == Err(IndexOutOfRange) <==>
        !OutOfBounds(endVertex, Order()) && startVertex == Order() && startVertex != endVertex
      ensures r.Ok? ==> (r.value == [-1] <==> !Reachable(Entries(), startVertex, endVertex))
      ensures r.Ok? && r.value != [-1] ==>
        PathBack(Entries(), r.value, startVertex, endVertex) &&
        IsLevel(Entries(), startVertex, endVertex, |r.value| - 1) &&
        LeastWalk(Entries(), Reversed(r.value), startVertex, endVertex)
      ensures r.Err? ==> r.error == ArgumentError || r.error == IndexOutOfRange
    {
      var n := graph.Length0;
      if startVertex < 0 || startVertex > n {
        return Err(ArgumentError);
      }
      if endVertex < 0 || endVertex > n {
        return Err(ArgumentError);
      }
      if startVertex == endVertex {
        // the first vertex dequeued is the destination
        assert IsLevel(Entries(), startVertex, endVertex, 0);
        assert Within(Entries(), startVertex, endVertex, 0);
        LeastAtStart(Entries(), endVertex);
        return Ok([endVertex]);
      }
      if startVertex == n {
        // the first scan reads row Order of the array
        return Err(IndexOutOfRange);
      }
      var p := TreeSearch(startVertex, endVertex);
      r := Ok(p);
    }

    /** The parent array of getShortestPath before the search: -1 everywhere. */
    static method NoParents(n: nat) returns (parents: array<int>)
      ensures fresh(parents) && parents[..] == seq(n, _ => -1)
    {
      parents := new int[n];
      var j := 0;
      while j < n
        invariant 0 <= j <= n
        invariant forall v | 0 <= v < j :: parents[v] == -1
      {
        parents[j] := -1;
        j := j + 1;
      }
    }

    /** The search loop of getShortestPath: the search of getDistance, which
        also records for each vertex the first dequeued neighbour that found
        it. */
    method TreeSearch(startVertex: int, endVertex: int) returns (p: seq<int>)
      requires Valid() && 0 <= startVertex < Order() && 0 <= endVertex <= Order()
      ensures p == [-1] <==> !Reachable(Entries(), startVertex, endVertex)
      ensures p != [-1] ==>
        PathBack(Entries(), p, startVertex, endVertex) && IsLevel(Entries(), startVertex, endVertex, |p| - 1) &&
        LeastWalk(Entries(), Reversed(p), startVertex, endVertex)
    {
      var n := graph.Length0;
      ghost var M := Entries();
      var parents := NoParents(n);
      var depth: nat := 0;
      var toVisitNow := [startVertex];
      var toVisitNext: seq<int> := [];
      var visited: set<int> := {};
      TreeInit(M, startVertex);
      FirstInit(M, startVertex);
      ghost var t := TreeState(depth, visited, toVisitNow, toVisitNext, parents[..]);
      while |toVisitNow| > 0 || |toVisitNext| > 0
        invariant parents.Length == n
        invariant t == TreeState(depth, visited, toVisitNow, toVisitNext, parents[..])
        invariant TreeStateInv(M, startVertex, t) && FirstStateInv(M, startVertex, t)
        invariant |toVisitNow| == 0 ==> |toVisitNext| == 0
        invariant endVertex !in visited
        decreases |Vertices(n) - visited|, Stale(toVisitNow + toVisitNext, visited)
      {
        var currentNode := toVisitNow[0];
        toVisitNow := toVisitNow[1..];
        if currentNode == endVertex {
          p := FoundPath(parents, startVertex, endVertex, depth, t);
          return;
        }
        visited := visited + {currentNode};
        toVisitNext := ScanAndAdopt(toVisitNext, currentNode, visited, parents, M);
        if |toVisitNow| == 0 {
          toVisitNow := toVisitNext;
          toVisitNext := [];
          depth := depth + 1;
        }
        ghost var t' := TreeState(depth, visited, toVisitNow, toVisitNext, parents[..]);
        TreeStateAdvance(M, startVertex, t, t');
        FirstStateAdvance(M, startVertex, t, t');
        t := t';
      }
      TreeStateExhausted(M, startVertex, t, endVertex);
      return [-1];
    }

    /** getShortestPath once the destination is dequeued: the walk back
        along parents is a shortest path, and read forwards it is the least
        shortest walk in dictionary order. */
    method FoundPath(parents: array<int>, startVertex: int, endVertex: int, depth: nat, ghost t: TreeState)
      returns (p: seq<int>)
      requires Valid() && parents.Length == Order() && 0 <= startVertex < Order()
      requires t.d == depth && t.P == parents[..] && |t.N| > 0 && t.N[0] == endVertex && endVertex !in t.V
      requires TreeStateInv(Entries(), startVertex, t) && FirstStateInv(Entries(), startVertex, t)
      ensures p != [-1] && Reachable(Entries(), startVertex, endVertex)
      ensures PathBack(Entries(), p, startVertex, endVertex) && IsLevel(Entries(), startVertex, endVertex, |p| - 1)
      ensures LeastWalk(Entries(), Reversed(p), startVertex, endVertex)
    {
      TreeStateFound(Entries(), startVertex, t);
      p := TraceBack(parents, startVertex, endVertex, depth);
      FirstFound(Entries(), startVertex, t, p);
    }

    /** The scan of row u in getShortestPath: appends every neighbour of u
        outside visited and makes u the parent of those that have none. */
    method ScanAndAdopt(q: seq<int>, u: int, visited: set<int>, parents: array<int>, ghost M: Matrix)
      returns (q': seq<int>)
      requires Valid() && M == Entries() && 0 <= u < |M| && parents.Length == |M|
      modifies parents
      ensures q' == q + Unvisited(M, u, visited, |M|)
      ensures parents[..] == Adopt(M, old(parents[..]), u, visited, |M|)
    {
      assert IsSquare(M) && graph.Length1 == |M|;
      ghost var P := parents[..];
      var added: seq<int> := [];
      var i := 0;
      AdoptNone(M, P, u, visited);
      while i < graph.Length1
        invariant 0 <= i <= graph.Length1
        invariant AdoptInv(M, P, u, visited, i, added, parents[..])
      {
        var entry := graph[u, i];
        assert entry == M[u][i];
        ghost var added0, before := added, parents[..];
        if entry == 1 && i !in visited {
          added := added + [i];
          if parents[i] == -1 {
            parents[i] := u;
          }
        }
        AdoptNext(M, P, u, visited, i, added0, before, added, parents[..]);
        i := i + 1;
      }
      assert i == |M| && P == old(parents[..]);
      q' := q + added;
    }

    /** The walk back along parents that getShortestPath returns once the
        destination is dequeued at level `depth`: depth + 1 entries from
        endVertex back to startVertex. */
    method TraceBack(parents: array<int>, startVertex: int, endVertex: int, depth: nat) returns (p: seq<int>)
      requires Valid() && parents.Length == Order()
      requires 0 <= startVertex < Order() && 0 <= endVertex < Order()
      requires ParentsUpTo(Entries(), startVertex, parents[..], depth)
      requires IsLevel(Entries(), startVertex, endVertex, depth)
      ensures PathBack(Entries(), p, startVertex, endVertex) && |p| == depth + 1
      ensures FollowsParents(parents[..], p)
    {
      ghost var M := Entries();
      var path := new int[depth + 1];
      var currentNode := endVertex;
      path[0] := currentNode;
      var i := 1;
      while currentNode != startVertex
        invariant 1 <= i <= depth + 1
        invariant 0 <= currentNode < Order() && currentNode == path[i - 1] && path[0] == endVertex
        invariant IsLevel(M, startVertex, currentNode, depth + 1 - i)
        invariant LinkedBack(M, path[..], i)
        invariant FollowsParents(parents[..], path[..i])
        decreases depth + 1 - i
      {
        ParentLevel(M, startVertex, parents[..], depth, currentNode, depth - i);
        ghost var before := path[..];
        currentNode := parents[currentNode];
        path[i] := currentNode;
        LinkedBackExtend(M, before, path[..], i, currentNode);
        FollowsExtend(parents[..], before, path[..], i, currentNode);
        i := i + 1;
      }
      LevelUnique(M, startVertex, startVertex, depth + 1 - i, 0);
      p := path[..];
      assert p == path[..i];
    }

    /** Length of the first cycle the breadth-first search from startVertex
        closes, or -1.  A start vertex equal to the order fails on the first
        row it reads, unless the matrix is empty. */
    method SmallestCycle(startVertex: int) returns (r: Result<int>)
      requires Valid()
      ensures OutOfBounds(startVertex, Order()) <==> r == Err(ArgumentError)
      ensures r == Err(IndexOutOfRange) <==> startVertex == Order() && Order() > 0
      ensures r.Ok? ==> r.value == if startVertex < Order() then CycleRun(Entries(), startVertex) else -1
      ensures r.Ok? ==> CycleSpec(Entries(), startVertex, r.value)
      ensures r.Err? ==> r.error == ArgumentError || r.error == IndexOutOfRange
    {
      var n := graph.Length0;
      if startVertex < 0 || startVertex > n {
        return Err(ArgumentError);
      }
      if startVertex == n {
        if n == 0 {
          // nothing to scan: the queue runs dry at once
          return Ok(-1);
        }
        return Err(IndexOutOfRange);
      }
      var c := CycleLoop(startVertex);
      return Ok(c);
    }

    /** The search loop of smallestCycle: level `depth - 1` is dequeued from
        one queue while level `depth` collects in the other, and the scan
        stops at the first neighbour that is already queued. */
    method CycleLoop(startVertex: int) returns (c: int)
      requires Valid() && 0 <= startVertex < Order()
      ensures c == CycleRun(Entries(), startVertex)
      ensures CycleSpec(Entries(), startVertex, c)
    {
      var n := graph.Length0;
      ghost var M := Entries();
      var depth: nat := 1;
      var toVisitNow := [startVertex];
      var toVisitNext: seq<int> := [];
      var visited: set<int> := {};
      ghost var onLevel: set<int> := {};
      ghost var st := CycleState(0, visited, onLevel, toVisitNow, toVisitNext);
      CycleInit(M, startVertex);
      while |toVisitNow| > 0 || |toVisitNext| > 0
        invariant depth >= 1
        invariant st == CycleState(depth - 1, visited, onLevel, toVisitNow, toVisitNext)
        invariant StateInv(M, startVertex, st)
        invariant |toVisitNow| == 0 ==> |toVisitNext| == 0 && onLevel == {}
        invariant Running(M, startVertex, st)
        invariant CycleFrom(M, startVertex, st) == CycleRun(M, startVertex)
        decreases |Vertices(n) - visited|
      {
        var currentNode := toVisitNow[0];
        toVisitNow := toVisitNow[1..];
        visited := visited + {currentNode};
        var odd, even, next, hit := ScanForCycle(toVisitNow, toVisitNext, currentNode, visited);
        if odd {
          c := depth * 2 - 1;
          FirstHitIs(M, currentNode, visited, toVisitNow, toVisitNext, hit);
          CycleFromHitValue(M, startVertex, st);
          StateOdd(M, startVertex, st, hit, c);
          return;
        }
        if even {
          c := depth * 2;
          FirstHitIs(M, currentNode, visited, toVisitNow, toVisitNext, hit);
          CycleFromHitValue(M, startVertex, st);
          StateEven(M, startVertex, st, hit, c);
          return;
        }
        FirstHitIs(M, currentNode, visited, toVisitNow, toVisitNext, -1);
        CycleFromNext(M, startVertex, st);
        toVisitNext := next;
        onLevel := onLevel + {currentNode};
        if |toVisitNow| == 0 {
          toVisitNow := toVisitNext;
          toVisitNext := [];
          depth := depth + 1;
          onLevel := {};
        }
        ghost var st' := CycleState(depth - 1, visited, onLevel, toVisitNow, toVisitNext);
        StateAdvance(M, startVertex, st, st');
        assert st' == NextState(M, st);
        st := st';
      }
      assert toVisitNow == [] && toVisitNext == [];
      StateExhausted(M, startVertex, st);
      return -1;
    }

    /** The scan of row u in smallestCycle.  A neighbour outside visited that
        still waits in now closes an odd cycle, one that waits in next an
        even cycle; otherwise every such neighbour is appended to next. */
    method ScanForCycle(now: seq<int>, next: seq<int>, u: int, visited: set<int>)
      returns (odd: bool, even: bool, next': seq<int>, ghost hit: int)
      requires Valid() && 0 <= u < Order()
      ensures odd ==> !even && Edge(Entries(), u, hit) && hit !in visited && hit in now
      ensures even ==> Edge(Entries(), u, hit) && hit !in visited && hit in next && hit !in now
      ensures odd || even ==> forall x | 0 <= x < hit :: !Hit(Entries(), u, visited, now, next, x)
      ensures !odd && !even ==>
        NoDetect(Entries(), u, visited, now, next) && next' == next + Unvisited(Entries(), u, visited, Order())
    {
      ghost var M := Entries();
      var added: seq<int> := [];
      next' := next;
      hit := 0;
      var i := 0;
      ScanInit(M, u, visited, now, next);
      while i < graph.Length1
        invariant 0 <= i <= graph.Length1
        invariant ScanInv(M, u, visited, now, next, i, added, next')
      {
        var entry := graph[u, i];
        assert entry == M[u][i];
        ghost var added0, next0 := added, next';
        if entry == 1 && i !in visited {
          if i in now {
            ScanNoEarlierHit(M, u, visited, now, next, i, added, next');
            return true, false, next', i;
          } else if i in next' {
            ScanHitNext(M, u, visited, now, next, i, added, next');
            ScanNoEarlierHit(M, u, visited, now, next, i, added, next');
            return false, true, next', i;
          } else {
            added := added + [i];
            next' := next' + [i];
          }
        }
        ScanStep(M, u, visited, now, next, i, added0, next0, added, next');
        i := i + 1;
      }
      ScanDone(M, u, visited, now, next, added, next');
      return false, false, next', hit;
    }

    /** The girth: the least positive result of smallestCycle over all
        vertices, or -1 when every result is -1. */
    method Girth() returns (g: int, ghost cycles: seq<int>)
      requires Valid()
      ensures |cycles| == Order()
      ensures forall v | 0 <= v < Order() :: cycles[v] == CycleRun(Entries(), v)
      ensures forall v | 0 <= v < Order() :: CycleSpec(Entries(), v, cycles[v])
      ensures g == MinPositive(cycles)
      ensures g == -1 || g >= 3
      ensures g != -1 ==> exists v | 0 <= v < Order() :: CycleSpec(Entries(), v, g)
    {
      g := -1;
      cycles := [];
      var i := 0;
      while i < graph.Length0
        invariant 0 <= i <= graph.Length0 && |cycles| == i
        invariant CycleTable(Entries(), cycles)
        invariant RunTable(Entries(), cycles)
        invariant g == MinPositive(cycles)
      {
        var r := SmallestCycle(i);
        var currentCycle := r.value;
        CycleTableAppend(Entries(), cycles, currentCycle);
        RunTableAppend(Entries(), cycles, currentCycle);
        MinPositiveAppend(cycles, currentCycle);
        cycles := cycles + [currentCycle];
        if currentCycle > 0 {
          if g < 0 {
            g := currentCycle;
          } else if g > currentCycle {
            g := currentCycle;
          }
        }
        i := i + 1;
      }
      if g != -1 {
        ghost var k :| 0 <= k < |cycles| && cycles[k] == g;
        assert CycleSpec(Entries(), k, cycles[k]);
      }
    }

    /** Whether endVertex can be reached from startVertex.  A matrix without
        edges answers false before the arguments are checked. */
    method IsPath(startVertex: int, endVertex: int) returns (r: Result<bool>)
      requires Valid()
      ensures MatrixSpec.NumEdges(Entries()) == 0 ==> r == Ok(false)
      ensures MatrixSpec.NumEdges(Entries()) != 0 ==>
        (OutOfBounds(startVertex, Order()) || OutOfBounds(endVertex, Order()) <==> r == Err(ArgumentError))
      ensures r == Err(IndexOutOfRange) <==>
        MatrixSpec.NumEdges(Entries()) != 0 && !OutOfBounds(endVertex, Order()) &&
        startVertex == Order() && startVertex != endVertex
      ensures r.Ok? ==> (r.value <==> MatrixSpec.NumEdges(Entries()) != 0 && Reachable(Entries(), startVertex, endVertex))
      ensures r.Err? ==> r.error == ArgumentError || r.error == IndexOutOfRange
    {
      ghost var M := Entries();
      var edges := NumEdges();
      if edges == 0 {
        return Ok(false);
      }
      var n := graph.Length0;
      if startVertex < 0 || startVertex > n {
        return Err(ArgumentError);
      }
      if endVertex < 0 || endVertex > n {
        return Err(ArgumentError);
      }
      if startVertex == endVertex {
        // the first vertex dequeued is the destination
        assert Within(M, startVertex, endVertex, 0);
        return Ok(true);
      }
      if startVertex == n {
        // the first scan reads row Order of the array
        return Err(IndexOutOfRange);
      }
      var toVisit := [startVertex];
      var visited: set<int> := {};
      SearchInit(M, startVertex);
      while |toVisit| > 0
        invariant SearchInv(M, startVertex, visited, toVisit)
        invariant endVertex !in visited
        decreases |Vertices(n) - visited|, Stale(toVisit, visited)
      {
        ghost var Q, V := toVisit, visited;
        var currentNode := toVisit[0];
        toVisit := toVisit[1..];
        if currentNode == endVertex {
          return Ok(true);
        }
        visited := visited + {currentNode};
        toVisit := AppendUnvisited(toVisit, currentNode, visited);
        SearchAdvance(M, startVertex, V, Q, visited, toVisit);
      }
      SearchExhausted(M, startVertex, visited, endVertex);
      return Ok(false);
    }

    /** Whether every vertex can be reached from vertex 0; a matrix without
        edges is reported as not connected. */
    method IsConnected() returns (r: bool)
      requires Valid()
      ensures r <==> MatrixSpec.NumEdges(Entries()) != 0 &&
                     forall v | 0 <= v < Order() :: Reachable(Entries(), 0, v)
    {
      ghost var M := Entries();
      var edges := NumEdges();
      if edges == 0 {
        return false;
      }
      var n := graph.Length0;
      EdgesNeedVertices(M);
      var toVisit := [0];
      var visited: set<int> := {};
      SearchInit(M, 0);
      while |toVisit| > 0
        invariant SearchInv(M, 0, visited, toVisit)
        decreases |Vertices(n) - visited|, Stale(toVisit, visited)
      {
        ghost var Q, V := toVisit, visited;
        var currentNode := toVisit[0];
        toVisit := toVisit[1..];
        visited := visited + {currentNode};
        toVisit := AppendUnvisited(toVisit, currentNode, visited);
        SearchAdvance(M, 0, V, Q, visited, toVisit);
      }
      forall v
        ensures Reachable(M, 0, v) <==> v in visited
      {
        SearchExhausted(M, 0, visited, v);
      }
      FullIffAll(visited, n);
      return |visited| == n;
    }
  }
}
