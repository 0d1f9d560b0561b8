/** The Message class: the delay of a message flooded through the live part
    of the network.  The holders start as every live node the source can
    reach; each tick of 0.01 refreshes which nodes are live and adds every
    live node a holder can reach in the refreshed network, until the
    destination holds the message. */
module Messages {
  import opened Outcomes
  import opened MatrixSpec
  import opened Networks

  // ---------------------------------------------------------------------
  // Holder sets as values

  /** Whether full index j joins the holders H when scanned from current
      row a of the labels L over the current matrix M: it is not a holder,
      both ends are listed and isPath answers true. */
  ghost predicate Joins(L: seq<int>, M: Matrix, a: int, H: set<int>, j: int)
  {
    j !in H && a != -1 && IndexOf(L, j) != -1 && PathAnswer(M, a, IndexOf(L, j)) == Ok(true)
  }

  /** The full indices below k that join from row a. */
  ghost function Reached(L: seq<int>, M: Matrix, a: int, H: set<int>, k: nat): set<int>
  {
    if k == 0 then {}
    else Reached(L, M, a, H, k - 1) + (if Joins(L, M, a, H, k - 1) then {k - 1} else {})
  }

  lemma {:induction false} ReachedMembers(L: seq<int>, M: Matrix, a: int, H: set<int>, k: nat, j: int)
    ensures j in Reached(L, M, a, H, k) <==> 0 <= j < k && Joins(L, M, a, H, j)
  {
    if k > 0 {
      ReachedMembers(L, M, a, H, k - 1, j);
    }
  }

  /** Some isPath call of the scan from row a fails with error e: the scan
      over the full indices below n that are not holders and are listed. */
  ghost predicate ScanError(L: seq<int>, M: Matrix, a: int, H: set<int>, n: nat, e: Error)
  {
    exists j | 0 <= j < n && j !in H && a != -1 && IndexOf(L, j) != -1 ::
      PathAnswer(M, a, IndexOf(L, j)) == Err(e)
  }

  /** Some isPath call of the scan from row a fails. */
  ghost predicate ScanFails(L: seq<int>, M: Matrix, a: int, H: set<int>, n: nat)
  {
    exists j | 0 <= j < n && j !in H && a != -1 && IndexOf(L, j) != -1 ::
      PathAnswer(M, a, IndexOf(L, j)).Err?
  }

  /** isPath only ever raises its two argument errors. */
  lemma ScanErrorKinds(L: seq<int>, M: Matrix, a: int, H: set<int>, n: nat, e: Error)
    requires ScanError(L, M, a, H, n, e)
    ensures e == ArgumentError || e == IndexOutOfRange
  {
    var j :| 0 <= j < n && j !in H && a != -1 && IndexOf(L, j) != -1 && PathAnswer(M, a, IndexOf(L, j)) == Err(e);
  }

  /** The scan from the row of some holder fails in a spreading round. */
  ghost predicate SpreadFails(L: seq<int>, M: Matrix, H: set<int>, n: nat)
  {
    exists i | i in H :: ScanFails(L, M, IndexOf(L, i), H, n)
  }

  /** ... and fails with error e. */
  ghost predicate SpreadError(L: seq<int>, M: Matrix, H: set<int>, n: nat, e: Error)
  {
    exists i | i in H :: ScanError(L, M, IndexOf(L, i), H, n, e)
  }

  /** What one round of spreading adds: the indices below n that join
      from the row of some holder in D. */
  ghost function Gathered(L: seq<int>, M: Matrix, H: set<int>, D: set<int>, n: nat): set<int>
  {
    set i, j | i in D && j in Reached(L, M, IndexOf(L, i), H, n) :: j
  }

  /** The members of H below i: the holders a foreach in ascending order
      has visited before i. */
  function Below(H: set<int>, i: int): set<int>
  {
    set x | x in H && x < i
  }

  /** A foreach over holders below n starts with none visited and ends
      with all of them. */
  lemma BelowEnds(H: set<int>, n: int)
    requires forall x | x in H :: 0 <= x < n
    ensures Below(H, 0) == {} && Below(H, n) == H
  {
  }

  /** Visiting i in the ascending foreach adds what the scan from i finds
      when i is a holder, and nothing otherwise. */
  lemma GatheredNext(L: seq<int>, M: Matrix, H: set<int>, i: int, n: nat)
    ensures Gathered(L, M, H, Below(H, i + 1), n) ==
      Gathered(L, M, H, Below(H, i), n) + (if i in H then Reached(L, M, IndexOf(L, i), H, n) else {})
  {
    if i in H {
      assert Below(H, i + 1) == Below(H, i) + {i};
      GatheredAdd(L, M, H, Below(H, i), i, n);
    } else {
      assert Below(H, i + 1) == Below(H, i);
    }
  }

  /** Only indices below n are ever gathered. */
  lemma GatheredBound(L: seq<int>, M: Matrix, H: set<int>, D: set<int>, n: nat)
    ensures forall j | j in Gathered(L, M, H, D, n) :: 0 <= j < n
  {
    forall j | j in Gathered(L, M, H, D, n)
      ensures 0 <= j < n
    {
      var i :| i in D && j in Reached(L, M, IndexOf(L, i), H, n);
      ReachedMembers(L, M, IndexOf(L, i), H, n, j);
    }
  }

  lemma GatheredEmpty(L: seq<int>, M: Matrix, H: set<int>, n: nat)
    ensures Gathered(L, M, H, {}, n) == {}
  {
  }

  lemma GatheredAdd(L: seq<int>, M: Matrix, H: set<int>, D: set<int>, i: int, n: nat)
    ensures Gathered(L, M, H, D + {i}, n) == Gathered(L, M, H, D, n) + Reached(L, M, IndexOf(L, i), H, n)
  {
    var A, B := Gathered(L, M, H, D + {i}, n), Gathered(L, M, H, D, n) + Reached(L, M, IndexOf(L, i), H, n);
    forall j | j in A
      ensures j in B
    {
      var i' :| i' in D + {i} && j in Reached(L, M, IndexOf(L, i'), H, n);
    }
    forall j | j in B
      ensures j in A
    {
      if j !in Reached(L, M, IndexOf(L, i), H, n) {
        var i' :| i' in D && j in Reached(L, M, IndexOf(L, i'), H, n);
      }
    }
  }

  /** The holders after one tick with status st over the full matrix F:
      the labels and the current matrix updateStatus leaves, then every
      node that joins from some holder. */
  ghost function Step(F: Matrix, st: seq<bool>, H: set<int>): set<int>
    requires IsSquare(F)
  {
    H + Gathered(Kept(st, |st|), Restrict(F, Survivors(st, |F|, |st|)), H, H, |F|)
  }

  /** The refreshed labels and current matrix a tick with status st leaves
      over the full matrix F. */
  ghost function Refreshed(F: Matrix, st: seq<bool>): (seq<int>, Matrix)
    requires IsSquare(F)
  {
    (Kept(st, |st|), Restrict(F, Survivors(st, |F|, |st|)))
  }

  /** A tick fails: updateStatus raises, or an isPath call of the
      spreading round over the refreshed network does. */
  ghost predicate TickFails(F: Matrix, st: seq<bool>, H: set<int>)
    requires IsSquare(F)
  {
    UpdateOutcome(st, |F|) != Success || SpreadFails(Refreshed(F, st).0, Refreshed(F, st).1, H, |F|)
  }

  /** ... and raises e: the error of updateStatus, or else that of a
      failing isPath call. */
  ghost predicate TickError(F: Matrix, st: seq<bool>, H: set<int>, e: Error)
    requires IsSquare(F)
  {
    UpdateOutcome(st, |F|) == Failure(e) ||
    (UpdateOutcome(st, |F|) == Success && SpreadError(Refreshed(F, st).0, Refreshed(F, st).1, H, |F|, e))
  }

  /** A tick raises only the errors of updateStatus and isPath. */
  lemma TickErrorKinds(F: Matrix, st: seq<bool>, H: set<int>, e: Error)
    requires IsSquare(F) && TickError(F, st, H, e)
    ensures e == ArgumentError || e == IndexOutOfRange || e == Overflow
  {
    if UpdateOutcome(st, |F|) == Success {
      var L, M := Refreshed(F, st).0, Refreshed(F, st).1;
      var i :| i in H && ScanError(L, M, IndexOf(L, i), H, |F|, e);
      ScanErrorKinds(L, M, IndexOf(L, i), H, |F|, e);
    }
  }

  /** A node joins in a tick exactly when it is a live node of the full
      network, not yet a holder, and isPath on the refreshed current
      network answers true from the row of some live holder to its row.
      Holders are never lost. */
  lemma StepMeaning(F: Matrix, st: seq<bool>, H: set<int>, j: int)
    requires IsSquare(F)
    ensures H <= Step(F, st, H)
    ensures j in Step(F, st, H) - H <==>
      0 <= j < |F| && j !in H && 0 <= j < |st| && st[j] &&
      exists i | i in H :: 0 <= i < |st| && st[i] &&
        PathAnswer(Restrict(F, Survivors(st, |F|, |st|)), IndexOf(Kept(st, |st|), i), IndexOf(Kept(st, |st|), j)) == Ok(true)
  {
    var L, M := Kept(st, |st|), Restrict(F, Survivors(st, |F|, |st|));
    KeptMembers(st, |st|, j);
    if j in Step(F, st, H) - H {
      var i :| i in H && j in Reached(L, M, IndexOf(L, i), H, |F|);
      ReachedMembers(L, M, IndexOf(L, i), H, |F|, j);
      KeptMembers(st, |st|, i);
    }
    if 0 <= j < |F| && j !in H && 0 <= j < |st| && st[j] &&
      exists i | i in H :: 0 <= i < |st| && st[i] && PathAnswer(M, IndexOf(L, i), IndexOf(L, j)) == Ok(true)
    {
      var i :| i in H && 0 <= i < |st| && st[i] && PathAnswer(M, IndexOf(L, i), IndexOf(L, j)) == Ok(true);
      KeptMembers(st, |st|, i);
      ReachedMembers(L, M, IndexOf(L, i), H, |F|, j);
    }
  }

  /** A tick in which no node is live adds no holder. */
  lemma AllDeadStep(F: Matrix, st: seq<bool>, H: set<int>)
    requires IsSquare(F) && forall k | 0 <= k < |st| :: !st[k]
    ensures Step(F, st, H) == H
  {
    forall j | j in Step(F, st, H)
      ensures j in H
    {
      StepMeaning(F, st, H, j);
    }
  }

  /** v is the first of the draws that differs from the source. */
  ghost predicate FirstOther(draws: seq<int>, source: int, v: int)
  {
    v != source &&
    exists d | 0 <= d < |draws| :: draws[d] == v && forall k | 0 <= k < d :: draws[k] == source
  }

  /** The run of getMessageDelay that returns: trace[k] holds the holders
      after k ticks, the tick k status is statuses[k], every refresh
      succeeded, and the destination arrives only in the last set. */
  ghost predicate DelayTrace(F: Matrix, statuses: seq<seq<bool>>, trace: seq<set<int>>, dest: int)
  {
    Ticks(F, statuses, trace, dest) && dest in trace[|trace| - 1]
  }

  /** The ticks of a run so far: each set follows from the one before it by
      a successful refresh and a spreading round, and the destination was
      not among the holders before any of them. */
  ghost predicate Ticks(F: Matrix, statuses: seq<seq<bool>>, trace: seq<set<int>>, dest: int)
  {
    IsSquare(F) && 1 <= |trace| <= |statuses| + 1 &&
    forall k | 0 <= k < |trace| - 1 ::
      dest !in trace[k] && !TickFails(F, statuses[k], trace[k]) &&
      trace[k + 1] == Step(F, statuses[k], trace[k])
  }

  lemma TicksNext(F: Matrix, statuses: seq<seq<bool>>, trace: seq<set<int>>, dest: int, H: set<int>)
    requires Ticks(F, statuses, trace, dest) && |trace| <= |statuses| && dest !in trace[|trace| - 1]
    requires !TickFails(F, statuses[|trace| - 1], trace[|trace| - 1])
    requires H == Step(F, statuses[|trace| - 1], trace[|trace| - 1])
    ensures Ticks(F, statuses, trace + [H], dest)
  {
    var t := trace + [H];
    forall k | 0 <= k < |t| - 1
      ensures dest !in t[k] && !TickFails(F, statuses[k], t[k]) && t[k + 1] == Step(F, statuses[k], t[k])
    {
      assert t[k] == trace[k];
    }
  }

  /** How the delay loop ends, given the holders before each tick in
      trace: it returns the number of ticks times 0.01 once the destination
      holds the message; it runs out of statuses after |statuses| ticks;
      or the tick after the last set fails and its error is raised. */
  ghost predicate FloodEnds(F: Matrix, statuses: seq<seq<bool>>, trace: seq<set<int>>, dest: int, r: Result<real>)
  {
    Ticks(F, statuses, trace, dest) &&
    (r.Ok? <==> dest in trace[|trace| - 1]) &&
    (r.Ok? ==> r.value == (|trace| - 1) as real * 0.01) &&
    (r.Err? && |trace| == |statuses| + 1 ==> r.error == OutOfFuel) &&
    (r.Err? && |trace| <= |statuses| ==> TickError(F, statuses[|trace| - 1], trace[|trace| - 1], r.error))
  }

  /** A tick that raises an error is a tick that fails. */
  lemma TickErrorFails(F: Matrix, st: seq<bool>, H: set<int>, e: Error)
    requires IsSquare(F) && TickError(F, st, H, e)
    ensures TickFails(F, st, H)
  {
    if UpdateOutcome(st, |F|) == Success {
      var L, M := Refreshed(F, st).0, Refreshed(F, st).1;
      var i :| i in H && ScanError(L, M, IndexOf(L, i), H, |F|, e);
      var j :| 0 <= j < |F| && j !in H && IndexOf(L, i) != -1 && IndexOf(L, j) != -1 &&
        PathAnswer(M, IndexOf(L, i), IndexOf(L, j)) == Err(e);
      assert ScanFails(L, M, IndexOf(L, i), H, |F|);
    }
  }

  /** The first holders decide the run: two runs from the same first
      holders visit the same holder sets and both return, or both fail. */
  lemma FloodDeterminate(F: Matrix, statuses: seq<seq<bool>>, t1: seq<set<int>>, t2: seq<set<int>>,
                         dest: int, r1: Result<real>, r2: Result<real>)
    requires FloodEnds(F, statuses, t1, dest, r1) && FloodEnds(F, statuses, t2, dest, r2)
    requires t1[0] == t2[0]
    ensures t1 == t2 && r1.Ok? == r2.Ok? && (r1.Ok? ==> r1 == r2)
  {
    SamePrefix(F, statuses, t1, t2, dest, |t1| - 1);
    SamePrefix(F, statuses, t2, t1, dest, |t2| - 1);
    RunStops(F, statuses, t1, t2, dest, r1);
    RunStops(F, statuses, t2, t1, dest, r2);
    assert |t1| == |t2|;
    assert t1 == t2;
  }

  /** Two runs from the same first holders agree up to position k of the
      first. */
  lemma {:induction false} SamePrefix(F: Matrix, statuses: seq<seq<bool>>, t1: seq<set<int>>, t2: seq<set<int>>,
                                      dest: int, k: nat)
    requires Ticks(F, statuses, t1, dest) && Ticks(F, statuses, t2, dest) && t1[0] == t2[0]
    requires k < |t1|
    ensures forall i | 0 <= i <= k && i < |t2| :: t1[i] == t2[i]
  {
    if k > 0 {
      SamePrefix(F, statuses, t1, t2, dest, k - 1);
      if k < |t2| {
        assert t1[k] == Step(F, statuses[k - 1], t1[k - 1]);
        assert t2[k] == Step(F, statuses[k - 1], t2[k - 1]);
      }
    }
  }

  /** Where one run ends, another run from the same holders cannot go on:
      the destination is held, the statuses are used up, or the next tick
      fails. */
  lemma RunStops(F: Matrix, statuses: seq<seq<bool>>, t1: seq<set<int>>, t2: seq<set<int>>,
                 dest: int, r1: Result<real>)
    requires FloodEnds(F, statuses, t1, dest, r1) && Ticks(F, statuses, t2, dest)
    requires forall i | 0 <= i < |t1| && i < |t2| :: t1[i] == t2[i]
    ensures |t2| <= |t1|
  {
    var k := |t1| - 1;
    if r1.Err? && |t1| <= |statuses| {
      TickErrorFails(F, statuses[k], t1[k], r1.error);
    }
  }

  /** The holder set only grows along the run. */
  lemma {:induction false} TraceGrows(F: Matrix, statuses: seq<seq<bool>>, trace: seq<set<int>>, dest: int, k: nat, l: nat)
    requires DelayTrace(F, statuses, trace, dest) && k <= l < |trace|
    ensures trace[k] <= trace[l]
    decreases l - k
  {
    if k < l {
      TraceGrows(F, statuses, trace, dest, k, l - 1);
      StepMeaning(F, statuses[l - 1], trace[l - 1], dest);
    }
  }

  /** A destination already among the first holders is reached after no
      tick at all. */
  lemma HeldAtOnce(F: Matrix, statuses: seq<seq<bool>>, trace: seq<set<int>>, dest: int)
    requires DelayTrace(F, statuses, trace, dest) && dest in trace[0]
    ensures |trace| == 1
  {
  }

  /** While no node is live, the holders never change, so a destination
      not among the first holders is never reached. */
  lemma {:induction false} AllDeadNeverArrives(F: Matrix, statuses: seq<seq<bool>>, trace: seq<set<int>>, dest: int)
    requires DelayTrace(F, statuses, trace, dest)
    requires forall k, v | 0 <= k < |statuses| && 0 <= v < |statuses[k]| :: !statuses[k][v]
    ensures dest in trace[0] && |trace| == 1
  {
    forall k | 0 <= k < |trace|
      ensures trace[k] == trace[0]
    {
      AllDeadPrefix(F, statuses, trace, dest, k);
    }
  }

  lemma {:induction false} AllDeadPrefix(F: Matrix, statuses: seq<seq<bool>>, trace: seq<set<int>>, dest: int, k: nat)
    requires DelayTrace(F, statuses, trace, dest) && k < |trace|
    requires forall k, v | 0 <= k < |statuses| && 0 <= v < |statuses[k]| :: !statuses[k][v]
    ensures trace[k] == trace[0]
  {
    if k > 0 {
      AllDeadPrefix(F, statuses, trace, dest, k - 1);
      AllDeadStep(F, statuses[k - 1], trace[k - 1]);
    }
  }

  class Message {
    var network: Network
    var startTime: real

    /** The constructor stores the network and the start time; the churn
        it also stores is represented by the statuses getMessageDelay is
        given. */
    constructor (nw: Network, time: real)
      ensures network == nw && startTime == time
    {
      network := nw;
      startTime := time;
    }

    /** The inner loop of a spreading round, and the scan that seeds the
        holders: every full index j below the full order that is not a
        holder, whose row is listed, and that isPath reaches from row a.
        (A holder i is in H, so j != i follows from j !in H.)  The first
        isPath failure is returned. */
    static method ScanFrom(nw: Network, a: int, H: set<int>) returns (r: Result<set<int>>)
      requires nw.Valid()
      ensures r.Ok? <==> !ScanFails(nw.Labels(), nw.Current(), a, H, nw.FullOrder())
      ensures r.Ok? ==> r.value == Reached(nw.Labels(), nw.Current(), a, H, nw.FullOrder())
      ensures r.Err? ==> ScanError(nw.Labels(), nw.Current(), a, H, nw.FullOrder(), r.error)
    {
      ghost var L, M := nw.Labels(), nw.Current();
      var acc: set<int> := {};
      var n := nw.FullOrder();
      for j := 0 to n
        invariant acc == Reached(L, M, a, H, j)
        invariant !ScanFails(L, M, a, H, j)
      {
        if j !in H {
          var b := nw.NewNodeLabel(j);
          if a != -1 && b != -1 {
            var p := nw.IsPathInCurrentNetwork(a, b);
            if p.Err? {
              return Err(p.error);
            }
            if p.value {
              acc := acc + {j};
            }
          }
        }
      }
      return Ok(acc);
    }

    /** One spreading round: the foreach over the holders, collecting what
        each scan finds.  The holders are full indices below the full order,
        and they are visited in ascending order; which order the set yields
        them in changes only which isPath failure is reported first. */
    static method Spread(nw: Network, H: set<int>) returns (r: Result<set<int>>)
      requires nw.Valid() && forall x | x in H :: 0 <= x < nw.FullOrder()
      ensures r.Ok? <==> !SpreadFails(nw.Labels(), nw.Current(), H, nw.FullOrder())
      ensures r.Ok? ==> r.value == Gathered(nw.Labels(), nw.Current(), H, H, nw.FullOrder())
      ensures r.Err? ==> SpreadError(nw.Labels(), nw.Current(), H, nw.FullOrder(), r.error)
    {
      ghost var L, M, n := nw.Labels(), nw.Current(), nw.FullOrder();
      var newLocations: set<int> := {};
      GatheredEmpty(L, M, H, n);
      BelowEnds(H, n);
      for i := 0 to nw.FullOrder()
        invariant newLocations == Gathered(L, M, H, Below(H, i), n)
        invariant forall x | x in Below(H, i) :: !ScanFails(L, M, IndexOf(L, x), H, n)
      {
        if i in H {
          var s := ScanFrom(nw, nw.NewNodeLabel(i), H);
          if s.Err? {
            return Err(s.error);
          }
          GatheredNext(L, M, H, i, n);
          newLocations := newLocations + s.value;
        } else {
          GatheredNext(L, M, H, i, n);
        }
      }
      return Ok(newLocations);
    }

    /** One tick of the delay loop after the clock: refresh the network
        with the status of the tick, spread, and merge. */
    static method Tick(nw: Network, st: seq<bool>, H: set<int>) returns (r: Result<set<int>>)
      requires nw.Valid() && forall x | x in H :: 0 <= x < nw.FullOrder()
      modifies nw
      ensures nw.Valid() && nw.Full() == old(nw.Full()) && nw.FullOrder() == old(nw.FullOrder())
      ensures r.Ok? <==> !TickFails(nw.Full(), st, H)
      ensures r.Ok? ==> r.value == Step(nw.Full(), st, H) && forall x | x in r.value :: 0 <= x < nw.FullOrder()
      ensures r.Err? ==> TickError(nw.Full(), st, H, r.error)
    {
      var u := nw.UpdateStatus(st);
      if u.Failure? {
        return Err(u.error);
      }
      assert |nw.Full()| == nw.FullOrder();
      var newLocations := Spread(nw, H);
      if newLocations.Err? {
        return Err(newLocations.error);
      }
      GatheredBound(nw.Labels(), nw.Current(), H, H, nw.FullOrder());
      return Ok(H + newLocations.value);
    }

    /** getMessageDelay.  The random source row pick and the random
        destination draws are parameters, and so is the status the churn
        reports at each tick; a run needing more ticks than statuses are
        given ends in OutOfFuel.  Fewer than two live nodes is refused;
        the delay is the number of ticks times 0.01. */
    method GetMessageDelay(pick: int, endDraws: seq<int>, statuses: seq<seq<bool>>)
      returns (r: Result<real>, ghost start: int, ghost dest: int, ghost trace: seq<set<int>>)
      requires network.Valid()
      requires network.CurrentOrder() >= 2 ==> 0 <= pick < network.CurrentOrder()
      modifies network
      ensures network.Valid() && network.Full() == old(network.Full())
      ensures old(network.CurrentOrder()) < 2 <==> r == Err(NotEnoughNodes)
      ensures old(network.CurrentOrder()) >= 2 && pick >= old(network.labels.Length) ==> r == Err(IndexOutOfRange)
      ensures old(network.CurrentOrder()) >= 2 && pick < old(network.labels.Length) ==>
        start == old(network.labels[pick]) &&
        (r == Err(Exhausted) <==> forall k | 0 <= k < |endDraws| :: endDraws[k] == start)
      ensures old(network.CurrentOrder()) >= 2 && pick < old(network.labels.Length) && r != Err(Exhausted) ==>
        FirstOther(endDraws, start, dest) &&
        var L, M, n := old(network.Labels()), old(network.Current()), |old(network.Full())|;
        (ScanFails(L, M, IndexOf(L, start), {}, n) ==> r.Err? && ScanError(L, M, IndexOf(L, start), {}, n, r.error)) &&
        (!ScanFails(L, M, IndexOf(L, start), {}, n) ==>
          FloodEnds(old(network.Full()), statuses, trace, dest, r) && trace[0] == Reached(L, M, IndexOf(L, start), {}, n))
    {
      ghost var F := network.Full();
      if network.CurrentOrder() < 2 {
        return Err(NotEnoughNodes), 0, 0, [];
      }
      var s := network.OldNodeLabel(pick);
      if s.Err? {
        return Err(s.error), 0, 0, [];
      }
      var startVertex := s.value;
      start := startVertex;
      var drawn := DrawEnd(startVertex, endDraws);
      if drawn.Err? {
        return Err(drawn.error), start, 0, [];
      }
      var endVertex := drawn.value;
      dest := endVertex;
      var currStart := network.NewNodeLabel(startVertex);
      // The first scan of the source does not test currStart against -1;
      // the test ScanFrom shares with the spreading scans never fails here,
      // since startVertex is a label.
      assert network.Labels()[pick] == startVertex;
      assert currStart != -1;
      ghost var L, M := network.Labels(), network.Current();
      var first := ScanFrom(network, currStart, {});
      if first.Err? {
        ScanErrorKinds(L, M, currStart, {}, network.FullOrder(), first.error);
        return Err(first.error), start, dest, [];
      }
      forall x | x in first.value
        ensures 0 <= x < network.FullOrder()
      {
        ReachedMembers(network.Labels(), network.Current(), currStart, {}, network.FullOrder(), x);
      }
      r, trace := Flood(first.value, endVertex, statuses);
      if r.Err? && |trace| <= |statuses| {
        TickErrorKinds(F, statuses[|trace| - 1], trace[|trace| - 1], r.error);
      }
    }

    /** The redraw loop: the destination is the first draw that differs
        from the source; running out of draws is Exhausted. */
    static method DrawEnd(startVertex: int, endDraws: seq<int>) returns (r: Result<int>)
      ensures r.Ok? ==> FirstOther(endDraws, startVertex, r.value)
      ensures r.Err? <==> forall k | 0 <= k < |endDraws| :: endDraws[k] == startVertex
      ensures r.Err? ==> r.error == Exhausted
    {
      var endVertex := startVertex;
      var d := 0;
      while startVertex == endVertex
        invariant d <= |endDraws| && (d > 0 ==> endVertex == endDraws[d - 1]) && (d == 0 ==> endVertex == startVertex)
        invariant forall k | 0 <= k < d - 1 :: endDraws[k] == startVertex
        invariant startVertex == endVertex ==> forall k | 0 <= k < d :: endDraws[k] == startVertex
        decreases |endDraws| - d
      {
        if d == |endDraws| {
          return Err(Exhausted);
        }
        endVertex := endDraws[d];
        d := d + 1;
      }
      assert endDraws[d - 1] == endVertex;
      return Ok(endVertex);
    }

    /** The delay loop: while the destination is not a holder, advance the
        clock by 0.01, refresh the network with the status of that tick and
        spread.  More ticks than statuses is OutOfFuel. */
    method Flood(first: set<int>, endVertex: int, statuses: seq<seq<bool>>) returns (r: Result<real>, ghost trace: seq<set<int>>)
      requires network.Valid() && forall x | x in first :: 0 <= x < network.FullOrder()
      modifies network
      ensures network.Valid() && network.Full() == old(network.Full())
      ensures FloodEnds(old(network.Full()), statuses, trace, endVertex, r) && trace[0] == first
    {
      ghost var F := network.Full();
      var locations := first;
      trace := [locations];
      var currTime := startTime;
      var step := 0;
      while endVertex !in locations
        invariant network.Valid() && network.Full() == F
        invariant forall x | x in locations :: 0 <= x < network.FullOrder()
        invariant |trace| == step + 1 && trace[step] == locations && trace[0] == first
        invariant Ticks(F, statuses, trace, endVertex)
        invariant currTime == startTime + step as real * 0.01
        decreases |statuses| - step
      {
        if step == |statuses| {
          return Err(OutOfFuel), trace;
        }
        currTime := currTime + 0.01;
        var next := Tick(network, statuses[step], locations);
        if next.Err? {
          return Err(next.error), trace;
        }
        TicksNext(F, statuses, trace, endVertex, next.value);
        locations := next.value;
        trace := trace + [locations];
        step := step + 1;
      }
      return Ok(currTime - startTime), trace;
    }
  }
}
