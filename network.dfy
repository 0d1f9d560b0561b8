/** The Network class: the full topology next to the topology restricted to
    the nodes that are currently live, with `labels` mapping each row of the
    restricted matrix back to its node in the full one. */
module Networks {
  import opened Outcomes
  import opened MatrixSpec
  import opened Reachability
  import opened Graph

  // ---------------------------------------------------------------------
  // Live indices

  /** The indices below k whose status is live, in ascending order: what
      the labels loop of updateStatus writes. */
  function Kept(status: seq<bool>, k: nat): (r: seq<int>)
    requires k <= |status|
    ensures |r| <= k && InRange(r, k)
  {
    if k == 0 then []
    else Kept(status, k - 1) + (if status[k - 1] then [k - 1] else [])
  }

  /** The nodes of the full matrix still present in the current one once
      the trimming loop has passed index i of a status of any length: the
      live ones so far, then every node the loop has not reached.  Past the
      order n only live entries can have been passed. */
  function Survivors(status: seq<bool>, n: nat, i: nat): (r: seq<int>)
    requires i <= |status|
    ensures InRange(r, n)
  {
    if i <= n then
      KeptBound(status, i, n);
      Kept(status, i) + Range(i, n)
    else Kept(status, n)
  }

  lemma KeptBound(status: seq<bool>, i: nat, n: nat)
    requires i <= |status| && i <= n
    ensures InRange(Kept(status, i) + Range(i, n), n)
  {
    var r := Kept(status, i) + Range(i, n);
    assert forall a | 0 <= a < |r| :: r[a] == if a < |Kept(status, i)| then Kept(status, i)[a] else Range(i, n)[a - |Kept(status, i)|];
  }

  /** How updateStatus ends: the first dead entry at or beyond the order
      asks trimArray to remove a row the current matrix does not have. */
  function UpdateOutcome(status: seq<bool>, n: nat): Outcome
  {
    if n < |status| && exists j | n <= j < |status| :: !status[j] then
      Failure(if |Kept(status, n)| == 0 then Overflow else IndexOutOfRange)
    else Success
  }

  /** The labels are exactly the live indices. */
  lemma {:induction false} KeptMembers(status: seq<bool>, k: nat, x: int)
    requires k <= |status|
    ensures x in Kept(status, k) <==> 0 <= x < k && status[x]
  {
    if k > 0 {
      KeptMembers(status, k - 1, x);
    }
  }

  /** The labels are strictly increasing. */
  lemma {:induction false} KeptSorted(status: seq<bool>, k: nat)
    requires k <= |status|
    ensures forall a, b | 0 <= a < b < |Kept(status, k)| :: Kept(status, k)[a] < Kept(status, k)[b]
  {
    if k > 0 {
      KeptSorted(status, k - 1);
      var p := Kept(status, k - 1);
      if status[k - 1] {
        assert forall a | 0 <= a < |p| :: p[a] < k - 1;
      }
    }
  }

  /** The list of live indices only grows as the loop advances. */
  lemma {:induction false} KeptGrows(status: seq<bool>, i: nat, k: nat)
    requires i <= k <= |status|
    ensures |Kept(status, i)| <= |Kept(status, k)|
    decreases k - i
  {
    if i < k {
      KeptGrows(status, i, k - 1);
    }
  }

  /** Every index live: the list is 0, 1, ..., k-1. */
  lemma {:induction false} KeptAllLive(status: seq<bool>, k: nat)
    requires k <= |status| && forall j | 0 <= j < |status| :: status[j]
    ensures Kept(status, k) == Range(0, k)
  {
    if k > 0 {
      KeptAllLive(status, k - 1);
    }
  }

  /** A live entry before the order moves from the untouched range into
      the labels: the surviving list does not change. */
  lemma SurvivorsLive(status: seq<bool>, n: nat, i: nat)
    requires i < |status| && status[i]
    ensures Survivors(status, n, i + 1) == Survivors(status, n, i)
  {
    if i < n {
      assert Range(i, n) == [i] + Range(i + 1, n);
    }
  }

  /** A dead entry before the order: trimming at its position p, which is
      the number of live indices before it, removes it from the list. */
  lemma SurvivorsDead(m: Matrix, status: seq<bool>, n: nat, i: nat)
    requires IsSquare(m) && |m| == n
    requires i < |status| && i < n && !status[i]
    ensures TrimFits(|Survivors(status, n, i)|, |Kept(status, i)|, |Kept(status, i)|)
    ensures Trim(Restrict(m, Survivors(status, n, i)), |Kept(status, i)|, |Kept(status, i)|) ==
      Restrict(m, Survivors(status, n, i + 1))
  {
    RemoveDead(status, n, i);
    TrimRestrict(m, Survivors(status, n, i), |Kept(status, i)|);
  }

  /** The dead index i sits at position |Kept(status, i)| of the list. */
  lemma RemoveDead(status: seq<bool>, n: nat, i: nat)
    requires i < |status| && i < n && !status[i]
    ensures |Kept(status, i)| < |Survivors(status, n, i)|
    ensures RemoveAt(Survivors(status, n, i), |Kept(status, i)|) == Survivors(status, n, i + 1)
  {
    var k, r := Kept(status, i), Range(i, n);
    assert Survivors(status, n, i) == k + r;
    assert Survivors(status, n, i + 1) == k + r[1..];
    assert (k + r)[..|k|] == k && (k + r)[|k| + 1..] == r[1..];
  }

  /** Every node live, with one status per node: the current matrix is the
      full one again. */
  lemma AllLiveRestoresFull(m: Matrix, status: seq<bool>)
    requires IsSquare(m) && |status| == |m|
    requires forall j | 0 <= j < |status| :: status[j]
    ensures UpdateOutcome(status, |m|) == Success
    ensures Kept(status, |status|) == Range(0, |m|)
    ensures Restrict(m, Survivors(status, |m|, |status|)) == m
  {
    KeptAllLive(status, |status|);
    assert Range(|m|, |m|) == [];
    assert Survivors(status, |m|, |status|) == Range(0, |m|);
    RestrictAll(m);
  }

  /** With at most one status per node, updateStatus never fails, the
      labels head the surviving list, and the current matrix at (a, b) is
      the full matrix at (labels[a], labels[b]). */
  lemma CurrentMatchesLabels(m: Matrix, status: seq<bool>)
    requires IsSquare(m) && |status| <= |m|
    ensures UpdateOutcome(status, |m|) == Success
    ensures Survivors(status, |m|, |status|)[..|Kept(status, |status|)|] == Kept(status, |status|)
    ensures forall a, b | 0 <= a < |Kept(status, |status|)| && 0 <= b < |Kept(status, |status|)| ::
      Restrict(m, Survivors(status, |m|, |status|))[a][b] ==
      m[Kept(status, |status|)[a]][Kept(status, |status|)[b]]
  {
    var s := Survivors(status, |m|, |status|);
    assert s[..|Kept(status, |status|)|] == Kept(status, |status|);
  }

  /** The first dead entry at or past the order n: every live node is
      already among the first |Kept(status, n)| rows, so the position the
      loop asks trimArray to remove is not a row of the current matrix, and
      the current matrix is already final. */
  lemma DeadBeyondOrder(status: seq<bool>, n: nat, i: nat, trimmed: int)
    requires n <= i < |status| && !status[i]
    requires trimmed == n - |Kept(status, n)|
    ensures !TrimFits(|Survivors(status, n, i)|, i - trimmed, i - trimmed)
    ensures Survivors(status, n, i) == Survivors(status, n, |status|)
    ensures UpdateOutcome(status, n) ==
      Failure(if |Survivors(status, n, i)| == 0 then Overflow else IndexOutOfRange)
  {
  }

  /** What the trimming loop of updateStatus keeps once it has passed
      index i with trimmed rows removed: M is the full matrix F restricted to
      the surviving nodes, and no dead entry lies between the order and i. */
  ghost predicate TrimInv(M: Matrix, status: seq<bool>, F: Matrix, i: nat, trimmed: int)
  {
    IsSquare(F) && i <= |status| &&
    trimmed == (if i <= |F| then i - |Kept(status, i)| else |F| - |Kept(status, |F|)|) &&
    (forall k | |F| <= k < i :: status[k]) &&
    M == Restrict(F, Survivors(status, |F|, i))
  }

  lemma TrimStart(F: Matrix, status: seq<bool>)
    requires IsSquare(F)
    ensures TrimInv(F, status, F, 0, 0)
  {
    RestrictAll(F);
    assert Survivors(status, |F|, 0) == Range(0, |F|);
  }

  /** A live entry: nothing is trimmed and nothing changes. */
  lemma TrimKeep(M: Matrix, status: seq<bool>, F: Matrix, i: nat, trimmed: int)
    requires TrimInv(M, status, F, i, trimmed) && i < |status| && status[i]
    ensures TrimInv(M, status, F, i + 1, trimmed)
  {
    SurvivorsLive(status, |F|, i);
    assert |Kept(status, i + 1)| == |Kept(status, i)| + 1;
    assert M == Restrict(F, Survivors(status, |F|, i + 1));
  }

  /** A dead entry whose row trimArray removed: the invariant moves on. */
  lemma TrimDone(M: Matrix, M': Matrix, status: seq<bool>, F: Matrix, i: nat, trimmed: int)
    requires TrimInv(M, status, F, i, trimmed) && i < |status| && !status[i]
    requires IsSquare(M) && TrimFits(|M|, i - trimmed, i - trimmed)
    requires M' == Trim(M, i - trimmed, i - trimmed)
    ensures TrimInv(M', status, F, i + 1, trimmed + 1)
  {
    if i < |F| {
      SurvivorsDead(F, status, |F|, i);
    } else {
      assert false;
    }
  }

  /** A dead entry whose row trimArray refused: it lies at or past the
      order, and the matrix already is the final one. */
  lemma TrimFailed(M: Matrix, status: seq<bool>, F: Matrix, i: nat, trimmed: int)
    requires TrimInv(M, status, F, i, trimmed) && i < |status| && !status[i]
    requires IsSquare(M) && !TrimFits(|M|, i - trimmed, i - trimmed)
    ensures UpdateOutcome(status, |F|) == Failure(if |M| == 0 then Overflow else IndexOutOfRange)
    ensures M == Restrict(F, Survivors(status, |F|, |status|))
  {
    if i < |F| {
      SurvivorsDead(F, status, |F|, i);
    } else {
      DeadBeyondOrder(status, |F|, i, trimmed);
    }
  }

  // ---------------------------------------------------------------------
  // Label lookup

  /** Array.IndexOf: the first position holding x, or -1. */
  function IndexOf(s: seq<int>, x: int): (k: int)
    ensures -1 <= k < |s|
    ensures k == -1 <==> x !in s
    ensures k >= 0 ==> s[k] == x && x !in s[..k]
  {
    if s == [] then -1
    else if s[0] == x then 0
    else
      var k := IndexOf(s[1..], x);
      if k == -1 then -1
      else
        assert s[..k + 1] == [s[0]] + s[1..][..k];
        k + 1
  }

  /** In a strictly increasing list the lookup finds the one position. */
  lemma IndexOfSorted(s: seq<int>, p: int)
    requires 0 <= p < |s|
    requires forall a, b | 0 <= a < b < |s| :: s[a] < s[b]
    ensures IndexOf(s, s[p]) == p
  {
    var k := IndexOf(s, s[p]);
    assert s[k] == s[p];
  }

  /** Before any update the labels are all zero: only node 0 is found. */
  lemma ZeroLabelsLookup(n: nat, x: int)
    ensures IndexOf(seq(n, _ => 0), x) == if x == 0 && n > 0 then 0 else -1
  {
    var z: seq<int> := seq(n, _ => 0);
    if n > 0 {
      assert z[0] == 0;
    }
    if x != 0 {
      assert x !in z;
    }
  }

  /** What isPath answers on matrix m for positions a and b, as its
      contract states: false without edges, the argument errors next, then
      whether b can be reached from a. */
  ghost function PathAnswer(m: Matrix, a: int, b: int): Result<bool>
  {
    if NumEdges(m) == 0 then Ok(false)
    else if OutOfBounds(a, |m|) || OutOfBounds(b, |m|) then Err(ArgumentError)
    else if a == |m| && a != b then Err(IndexOutOfRange)
    else Ok(Reachable(m, a, b))
  }

  class Network {
    var labels: array<int>
    var fullNetwork: AdjacencyMatrix
    var currentStatus: AdjacencyMatrix

    ghost predicate Valid()
      reads this, fullNetwork, currentStatus
    {
      fullNetwork.Valid() && currentStatus.Valid()
    }

    ghost function Full(): Matrix
      reads this, fullNetwork, fullNetwork.graph
    {
      fullNetwork.Entries()
    }

    ghost function Current(): Matrix
      reads this, currentStatus, currentStatus.graph
    {
      currentStatus.Entries()
    }

    function Labels(): seq<int>
      reads this, labels
    {
      labels[..]
    }

    constructor Wrap(full: AdjacencyMatrix, current: AdjacencyMatrix, n: nat)
      ensures fullNetwork == full && currentStatus == current
      ensures fresh(labels) && labels[..] == seq(n, _ => 0)
    {
      fullNetwork := full;
      currentStatus := current;
      labels := new int[n](_ => 0);
    }

    /** The constructor: both matrices wrap the given array itself, and
        the labels start as n zeros.  A non-square array is refused. */
    static method Create(g: array2<int>) returns (r: Result<Network>)
      ensures r.Err? <==> g.Length0 != g.Length1
      ensures r.Err? ==> r.error == ArgumentError
      ensures r.Ok? ==>
        fresh(r.value) && fresh(r.value.fullNetwork) && fresh(r.value.currentStatus) &&
        fresh(r.value.labels) && r.value.Valid() &&
        r.value.fullNetwork.graph == g && r.value.currentStatus.graph == g &&
        r.value.labels[..] == seq(g.Length0, _ => 0)
    {
      var full := AdjacencyMatrix.FromArray(g);
      if full.Err? {
        return Err(full.error);
      }
      var current := AdjacencyMatrix.FromArray(g);
      var nw := new Network.Wrap(full.value, current.value, g.Length0);
      return Ok(nw);
    }

    /** updateStatus: the labels become the live indices in order, and the
        current matrix is a fresh copy of the full one with every dead node
        trimmed out.  A status longer than the order fails at the first dead
        entry past it, after the labels were written. */
    method UpdateStatus(nodeStatus: seq<bool>) returns (o: Outcome)
      requires Valid()
      modifies this
      ensures Valid() && fullNetwork == old(fullNetwork) && Full() == old(Full())
      ensures o == UpdateOutcome(nodeStatus, |Full()|)
      ensures fresh(labels) && labels[..] == Kept(nodeStatus, |nodeStatus|)
      ensures fresh(currentStatus) && Current() == Restrict(Full(), Survivors(nodeStatus, |Full()|, |nodeStatus|))
    {
      ghost var F := Full();
      var len := |nodeStatus|;
      var count := 0;
      for i := 0 to len
        invariant count == |Kept(nodeStatus, i)|
      {
        if nodeStatus[i] {
          count := count + 1;
        }
      }
      labels := LiveLabels(nodeStatus, count);
      var copy := fullNetwork.GraphCopy();
      currentStatus := new AdjacencyMatrix.Wrap(copy);
      o := TrimDead(currentStatus, nodeStatus, F);
    }

    /** The trimming loop of updateStatus on the fresh copy cur of the full
        matrix F: each dead node is removed at its position among the rows
        left, which is its index less the number trimmed so far. */
    static method TrimDead(cur: AdjacencyMatrix, nodeStatus: seq<bool>, ghost F: Matrix) returns (o: Outcome)
      requires cur.Valid() && cur.Entries() == F
      modifies cur
      ensures cur.Valid() && o == UpdateOutcome(nodeStatus, |F|)
      ensures cur.Entries() == Restrict(F, Survivors(nodeStatus, |F|, |nodeStatus|))
    {
      var n := cur.graph.Length0;
      TrimStart(F, nodeStatus);
      var trimmed := 0;
      for i := 0 to |nodeStatus|
        invariant cur.Valid() && TrimInv(cur.Entries(), nodeStatus, F, i, trimmed)
      {
        if !nodeStatus[i] {
          var t := TrimOne(cur, nodeStatus, F, i, trimmed);
          if t.Failure? {
            return t;
          }
          trimmed := trimmed + 1;
        } else {
          TrimKeep(cur.Entries(), nodeStatus, F, i, trimmed);
        }
      }
      return Success;
    }

    /** One dead entry of the trimming loop: trimArray at the entry's
        position among the rows left. */
    static method TrimOne(cur: AdjacencyMatrix, nodeStatus: seq<bool>, ghost F: Matrix, i: nat, trimmed: int)
      returns (t: Outcome)
      requires cur.Valid() && TrimInv(cur.Entries(), nodeStatus, F, i, trimmed)
      requires i < |nodeStatus| && !nodeStatus[i]
      modifies cur
      ensures cur.Valid()
      ensures t.Success? ==> TrimInv(cur.Entries(), nodeStatus, F, i + 1, trimmed + 1)
      ensures t.Failure? ==> t == UpdateOutcome(nodeStatus, |F|)
      ensures t.Failure? ==> cur.Entries() == Restrict(F, Survivors(nodeStatus, |F|, |nodeStatus|))
    {
      ghost var before := cur.Entries();
      t := cur.TrimArray(i - trimmed, i - trimmed);
      if t.Failure? {
        TrimFailed(before, nodeStatus, F, i, trimmed);
      } else {
        TrimDone(before, cur.Entries(), nodeStatus, F, i, trimmed);
      }
    }

    /** The labels loop of updateStatus: a fresh array of the live indices,
        count of them, in ascending order. */
    static method LiveLabels(nodeStatus: seq<bool>, count: nat) returns (lab: array<int>)
      requires count == |Kept(nodeStatus, |nodeStatus|)|
      ensures fresh(lab) && lab[..] == Kept(nodeStatus, |nodeStatus|)
    {
      lab := new int[count];
      var j := 0;
      for i := 0 to |nodeStatus|
        invariant j == |Kept(nodeStatus, i)| && j <= lab.Length
        invariant lab[..j] == Kept(nodeStatus, i)
      {
        if nodeStatus[i] {
          KeptGrows(nodeStatus, i + 1, |nodeStatus|);
          lab[j] := i;
          assert lab[..j + 1] == lab[..j] + [i];
          j := j + 1;
        }
      }
      assert lab[..] == lab[..j];
    }

    /** The CurrentOrder property: vertices of the current matrix. */
    function CurrentOrder(): nat
      reads this, currentStatus
    {
      currentStatus.Order()
    }

    /** The FullOrder property: vertices of the full matrix. */
    function FullOrder(): nat
      reads this, fullNetwork
    {
      fullNetwork.Order()
    }

    /** getOldNodeLabel: the full index of current row j, labels[j]. */
    method OldNodeLabel(j: int) returns (r: Result<int>)
      ensures 0 <= j < labels.Length ==> r == Ok(labels[j])
      ensures !(0 <= j < labels.Length) ==> r == Err(IndexOutOfRange)
    {
      if 0 <= j < labels.Length {
        return Ok(labels[j]);
      }
      return Err(IndexOutOfRange);
    }

    /** getNewNodeLabel: the current row of full index v, or -1 when v is
        not listed; the lookup getCurrentDegree makes. */
    function NewNodeLabel(v: int): int
      reads this, labels
    {
      IndexOf(labels[..], v)
    }

    /** isPathinCurrentNetwork: isPath on the current matrix. */
    method IsPathInCurrentNetwork(a: int, b: int) returns (r: Result<bool>)
      requires Valid()
      ensures r == PathAnswer(Current(), a, b)
    {
      r := currentStatus.IsPath(a, b);
    }

    /** getCurrentDegree: the position of node v among the labels, then its
        degree in the current matrix; -1 for a node that is not listed. */
    method GetCurrentDegree(v: int) returns (r: Result<int>)
      requires Valid()
      ensures v !in Labels() ==> r == Ok(-1)
      ensures v in Labels() ==>
        var k := IndexOf(Labels(), v);
        0 <= k && labels[k] == v &&
        (k < currentStatus.Order() ==> r == Ok(Degree(Current(), k))) &&
        (k >= currentStatus.Order() ==> r == Err(ArgumentOutOfRange))
    {
      var index := IndexOf(labels[..], v);
      if index == -1 {
        return Ok(-1);
      }
      r := currentStatus.GetDegree(index);
    }

    /** isCurrentNetworkConnected: isConnected on the current matrix. */
    method IsCurrentNetworkConnected() returns (r: bool)
      requires Valid()
      ensures r <==> (NumEdges(Current()) != 0 &&
        forall v | 0 <= v < currentStatus.Order() :: Reachable(Current(), 0, v))
    {
      r := currentStatus.IsConnected();
    }

    /** getFullDegree: getDegree on the full matrix. */
    method GetFullDegree(v: int) returns (r: Result<int>)
      requires Valid()
      ensures v >= fullNetwork.Order() <==> r == Err(ArgumentOutOfRange)
      ensures v < 0 && fullNetwork.Order() > 0 <==> r == Err(IndexOutOfRange)
      ensures 0 <= v < fullNetwork.Order() ==> r == Ok(Degree(Full(), v))
      ensures v < 0 && fullNetwork.Order() == 0 ==> r == Ok(0)
    {
      r := fullNetwork.GetDegree(v);
    }

    /** getDistroFull: bin k counts the nodes of degree k in the full matrix. */
    method GetDistroFull() returns (d: seq<int>)
      requires Valid()
      ensures |d| >= 1 && forall v | 0 <= v < fullNetwork.Order() :: Degree(Full(), v) < |d|
      ensures fullNetwork.Order() > 0 ==> exists v | 0 <= v < fullNetwork.Order() :: Degree(Full(), v) == |d| - 1
      ensures fullNetwork.Order() == 0 ==> |d| == 1
      ensures forall k | 0 <= k < |d| :: d[k] == WithDegree(Full(), k, fullNetwork.Order())
    {
      d := fullNetwork.DegreeDistro();
      if fullNetwork.Order() > 0 {
        ghost var w :| 0 <= w < fullNetwork.Order() && Degree(fullNetwork.Entries(), w) == |d| - 1;
        assert Degree(Full(), w) == |d| - 1;
      }
    }

    /** getDistroCurrent: bin k counts the live nodes of degree k in the
        current matrix. */
    method GetDistroCurrent() returns (d: seq<int>)
      requires Valid()
      ensures |d| >= 1 && forall v | 0 <= v < currentStatus.Order() :: Degree(Current(), v) < |d|
      ensures currentStatus.Order() > 0 ==> exists v | 0 <= v < currentStatus.Order() :: Degree(Current(), v) == |d| - 1
      ensures currentStatus.Order() == 0 ==> |d| == 1
      ensures forall k | 0 <= k < |d| :: d[k] == WithDegree(Current(), k, currentStatus.Order())
    {
      d := currentStatus.DegreeDistro();
      if currentStatus.Order() > 0 {
        ghost var w :| 0 <= w < currentStatus.Order() && Degree(currentStatus.Entries(), w) == |d| - 1;
        assert Degree(Current(), w) == |d| - 1;
      }
    }
  }
}
