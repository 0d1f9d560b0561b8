/** NetworkChurn: one NodeTimeline per peer, the status vector of the peers
    at a time, the earliest final time and the mean session statistics. */
module Churn {
  import opened Outcomes
  import opened Sessions
  import opened Timelines

  /** The slots of every node's timeline; None for a node never generated. */
  type Snapshot = seq<Option<seq<Option<Session>>>>

  // ---------------------------------------------------------------------
  // Reference definitions over a snapshot

  /** getStatusAtTime: entry i is node i's timeIsLive(t); the first node
      that is unset or raises stops the loop. */
  function Status(snap: Snapshot, t: real): Result<seq<bool>>
  {
    if snap == [] then Ok([])
    else
      match Status(snap[..|snap| - 1], t)
      case Err(e) => Err(e)
      case Ok(s) =>
        match snap[|snap| - 1]
        case None => Err(NullReference)
        case Some(slots) =>
          match TimeIsLive(slots, t)
          case Err(e) => Err(e)
          case Ok(b) => Ok(s + [b])
  }

  /** A status vector has one entry per node, each that node's timeIsLive;
      a failure is the failure of some node. */
  lemma {:induction false} StatusMeaning(snap: Snapshot, t: real)
    ensures Status(snap, t).Ok? ==>
      |Status(snap, t).value| == |snap| &&
      forall i | 0 <= i < |snap| :: snap[i].Some? && TimeIsLive(snap[i].value, t) == Ok(Status(snap, t).value[i])
    ensures Status(snap, t).Err? ==> exists i | 0 <= i < |snap| ::
      || (snap[i].None? && Status(snap, t).error == NullReference)
      || (snap[i].Some? && TimeIsLive(snap[i].value, t) == Err(Status(snap, t).error))
  {
    if snap != [] {
      var p := snap[..|snap| - 1];
      StatusMeaning(p, t);
      var last := |snap| - 1;
      if Status(p, t).Err? {
        var i :| 0 <= i < |p| &&
          ((p[i].None? && Status(p, t).error == NullReference) || (p[i].Some? && TimeIsLive(p[i].value, t) == Err(Status(p, t).error)));
        assert snap[i] == p[i];
      } else if Status(snap, t).Ok? {
        forall i | 0 <= i < |snap|
          ensures snap[i].Some? && TimeIsLive(snap[i].value, t) == Ok(Status(snap, t).value[i])
        {
          if i < last {
            assert snap[i] == p[i];
          }
        }
      }
    }
  }

  /** As written, the status vector never shows a live node. */
  lemma StatusNeverLive(snap: Snapshot, t: real, i: int)
    requires Status(snap, t).Ok? && 0 <= i < |Status(snap, t).value|
    ensures !Status(snap, t).value[i]
  {
    StatusMeaning(snap, t);
    NeverLive(snap[i].value, t);
  }

  /** The final time of a node; an unset node raises NullReferenceException. */
  function NodeFinal(node: Option<seq<Option<Session>>>): Result<real>
  {
    match node
    case None => Err(NullReference)
    case Some(slots) => FinalTime(slots)
  }

  /** getQuickestFinalTime on the first k nodes: the running minimum of the
      final times, starting from node 0. */
  function Quickest(snap: Snapshot, k: nat): Result<real>
    requires 1 <= k <= |snap|
  {
    if k == 1 then NodeFinal(snap[0])
    else
      match Quickest(snap, k - 1)
      case Err(e) => Err(e)
      case Ok(m) =>
        match NodeFinal(snap[k - 1])
        case Err(e) => Err(e)
        case Ok(f) => Ok(if f < m then f else m)
  }

  /** The running minimum is the least final time of the first k nodes and
      is one of them; a failure is the failure of one of them. */
  lemma {:induction false} QuickestIsMinimum(snap: Snapshot, k: nat)
    requires 1 <= k <= |snap|
    ensures Quickest(snap, k).Ok? ==>
      forall i | 0 <= i < k :: NodeFinal(snap[i]).Ok? && Quickest(snap, k).value <= NodeFinal(snap[i]).value
    ensures Quickest(snap, k).Ok? ==> exists i | 0 <= i < k :: NodeFinal(snap[i]) == Quickest(snap, k)
    ensures Quickest(snap, k).Err? ==> exists i | 0 <= i < k :: NodeFinal(snap[i]) == Quickest(snap, k)
  {
    if k > 1 {
      QuickestIsMinimum(snap, k - 1);
      if Quickest(snap, k - 1).Ok? && NodeFinal(snap[k - 1]).Ok? {
        var i :| 0 <= i < k - 1 && NodeFinal(snap[i]) == Quickest(snap, k - 1);
        if NodeFinal(snap[k - 1]).value >= Quickest(snap, k - 1).value {
          assert NodeFinal(snap[i]) == Quickest(snap, k);
        } else {
          assert NodeFinal(snap[k - 1]) == Quickest(snap, k);
        }
      } else if Quickest(snap, k - 1).Ok? {
        assert NodeFinal(snap[k - 1]) == Quickest(snap, k);
      } else {
        var i :| 0 <= i < k - 1 && NodeFinal(snap[i]) == Quickest(snap, k - 1);
        assert NodeFinal(snap[i]) == Quickest(snap, k);
      }
    }
  }

  /** getQuickestFinalTime: node 0 must exist. */
  function QuickestFinal(snap: Snapshot): Result<real>
  {
    if |snap| == 0 then Err(IndexOutOfRange) else Quickest(snap, |snap|)
  }

  /** The average of one node; an unset node raises NullReferenceException. */
  function NodeAverage(node: Option<seq<Option<Session>>>, up: bool): Result<real>
  {
    match node
    case None => Err(NullReference)
    case Some(slots) => if up then AverageUp(slots) else AverageDown(slots)
  }

  /** Sum of the first k node averages, or the first failure. */
  function SumAverages(snap: Snapshot, up: bool, k: nat): Result<real>
    requires k <= |snap|
  {
    if k == 0 then Ok(0.0)
    else
      match SumAverages(snap, up, k - 1)
      case Err(e) => Err(e)
      case Ok(s) =>
        match NodeAverage(snap[k - 1], up)
        case Err(e) => Err(e)
        case Ok(a) => Ok(s + a)
  }

  /** The sum succeeds exactly when every node's average does; a failure
      is the failure of some node. */
  lemma {:induction false} SumOkIff(snap: Snapshot, up: bool, k: nat)
    requires k <= |snap|
    ensures SumAverages(snap, up, k).Ok? <==> forall i | 0 <= i < k :: NodeAverage(snap[i], up).Ok?
    ensures SumAverages(snap, up, k).Err? ==> exists i | 0 <= i < k :: NodeAverage(snap[i], up) == SumAverages(snap, up, k)
  {
    if k > 0 {
      SumOkIff(snap, up, k - 1);
    }
  }

  /** getAverageUpTime (up) and getAverageDownTime (!up): the mean of the
      per-node averages; with no node the division is 0.0 / 0.0. */
  function MeanAverage(snap: Snapshot, up: bool): Result<real>
  {
    match SumAverages(snap, up, |snap|)
    case Err(e) => Err(e)
    case Ok(s) => if |snap| == 0 then Err(NaN) else Ok(s / (|snap| as real))
  }

  /** The sum of k averages that all lie in [lo, hi] lies in [k lo, k hi]. */
  lemma {:induction false} SumBetween(snap: Snapshot, up: bool, k: nat, lo: real, hi: real)
    requires k <= |snap| && SumAverages(snap, up, k).Ok?
    requires forall i | 0 <= i < |snap| ::
      NodeAverage(snap[i], up).Ok? && lo <= NodeAverage(snap[i], up).value <= hi
    ensures (k as real) * lo <= SumAverages(snap, up, k).value <= (k as real) * hi
  {
    if k > 0 {
      SumBetween(snap, up, k - 1, lo, hi);
      var a := NodeAverage(snap[k - 1], up).value;
      var prev := SumAverages(snap, up, k - 1).value;
      assert SumAverages(snap, up, k) == Ok(prev + a);
      AddBounds(prev, a, k, lo, hi);
    }
  }

  /** One more term in [lo, hi] moves the bounds [m lo, m hi] up by one. */
  lemma AddBounds(prev: real, a: real, k: nat, lo: real, hi: real)
    requires 1 <= k
    requires ((k - 1) as real) * lo <= prev <= ((k - 1) as real) * hi && lo <= a <= hi
    ensures (k as real) * lo <= prev + a <= (k as real) * hi
  {
  }

  /** The mean lies between the smallest and the largest node average. */
  lemma MeanBetween(snap: Snapshot, up: bool, lo: real, hi: real)
    requires MeanAverage(snap, up).Ok?
    requires forall i | 0 <= i < |snap| ::
      NodeAverage(snap[i], up).Ok? && lo <= NodeAverage(snap[i], up).value <= hi
    ensures lo <= MeanAverage(snap, up).value <= hi
  {
    var n := |snap| as real;
    SumBetween(snap, up, |snap|, lo, hi);
    var s := SumAverages(snap, up, |snap|).value;
    DivBounds(s, n, lo, hi);
  }

  /** Dividing bounds [n lo, n hi] by a positive n. */
  lemma DivBounds(s: real, n: real, lo: real, hi: real)
    requires n > 0.0 && n * lo <= s <= n * hi
    ensures lo <= s / n <= hi
  {
  }

  /** Node by node, the outcome of generating node i's timeline of n
      slots from samples[i]. */
  function NodeOutcomes(n: nat, baseTime: real, samples: seq<seq<Draw>>): (r: seq<Outcome>)
    ensures |r| == |samples|
  {
    if samples == [] then []
    else [GenerateOutcome(baseTime, samples[0], n)] + NodeOutcomes(n, baseTime, samples[1..])
  }

  /** Entry i is the outcome of node i's generation. */
  lemma {:induction false} NodeOutcomesAt(n: nat, baseTime: real, samples: seq<seq<Draw>>, i: nat)
    requires i < |samples|
    ensures NodeOutcomes(n, baseTime, samples)[i] == GenerateOutcome(baseTime, samples[i], n)
  {
    if i > 0 {
      NodeOutcomesAt(n, baseTime, samples[1..], i - 1);
    }
  }

  /** The position of the first failure in outs from i on, or |outs|. */
  function FirstFailure(outs: seq<Outcome>, i: nat): (k: nat)
    requires i <= |outs|
    ensures i <= k <= |outs|
    ensures forall j | i <= j < k :: outs[j] == Success
    ensures k < |outs| ==> outs[k].Failure?
    decreases |outs| - i
  {
    if i == |outs| then i
    else if outs[i].Failure? then i
    else FirstFailure(outs, i + 1)
  }

  // ---------------------------------------------------------------------
  // The class

  class NetworkChurn {
    var nodeSessions: array<NodeTimeline?>

    /** The slots of every node, as values. */
    ghost function Snap(): Snapshot
      reads this, nodeSessions, set i | 0 <= i < nodeSessions.Length :: nodeSessions[i]
      reads set i | 0 <= i < nodeSessions.Length && nodeSessions[i] != null :: nodeSessions[i].timeline
    {
      seq(nodeSessions.Length, i requires 0 <= i < nodeSessions.Length
        reads this, nodeSessions, set i | 0 <= i < nodeSessions.Length :: nodeSessions[i]
        reads set i | 0 <= i < nodeSessions.Length && nodeSessions[i] != null :: nodeSessions[i].timeline
        => if nodeSessions[i] == null then None else Some(nodeSessions[i].timeline[..]))
    }

    constructor Init(numNodes: nat)
      ensures fresh(nodeSessions) && nodeSessions.Length == numNodes
      ensures forall i | 0 <= i < numNodes :: nodeSessions[i] == null
    {
      nodeSessions := new NodeTimeline?[numNodes](_ => null);
    }

    /** The constructor: no validation of its own; a negative count is the
        overflow the array allocation reports. */
    static method Create(numNodes: int) returns (r: Result<NetworkChurn>)
      ensures r.Err? <==> numNodes < 0
      ensures r.Err? ==> r.error == Overflow
      ensures r.Ok? ==>
        fresh(r.value) && fresh(r.value.nodeSessions) && r.value.Snap() == seq(numNodes, _ => None)
    {
      if numNodes < 0 {
        return Err(Overflow);
      }
      var c := new NetworkChurn.Init(numNodes);
      assert c.Snap() == seq(numNodes, _ => None);
      return Ok(c);
    }

    /** getStatusAtTime. */
    method GetStatusAtTime(time: real) returns (r: Result<seq<bool>>)
      ensures r == Status(Snap(), time)
      ensures r.Ok? ==> forall i | 0 <= i < |r.value| :: !r.value[i]
    {
      ghost var snap := Snap();
      var status: seq<bool> := [];
      for i := 0 to nodeSessions.Length
        invariant Status(snap[..i], time) == Ok(status)
        invariant forall j | 0 <= j < |status| :: !status[j]
        invariant Snap() == snap
      {
        assert snap[..i + 1][..i] == snap[..i];
        var b := LiveAt(i, time);
        if b.Err? {
          PrefixFailure(snap, time, i, b.error);
          return Err(b.error);
        }
        NeverLive(snap[i].value, time);
        status := status + [b.value];
      }
      assert snap[..nodeSessions.Length] == snap;
      return Ok(status);
    }

    /** Node i's timeIsLive(t); an unset node raises NullReferenceException. */
    method LiveAt(i: nat, t: real) returns (r: Result<bool>)
      requires i < nodeSessions.Length
      ensures Snap()[i].None? ==> r == Err(NullReference)
      ensures Snap()[i].Some? ==> r == TimeIsLive(Snap()[i].value, t)
    {
      var node := nodeSessions[i];
      if node == null {
        return Err(NullReference);
      }
      r := node.TimeIsLiveAt(t);
    }

    /** getQuickestFinalTime: the running minimum of the final times. */
    method GetQuickestFinalTime() returns (r: Result<real>)
      ensures r == QuickestFinal(Snap())
    {
      ghost var snap := Snap();
      if nodeSessions.Length == 0 {
        return Err(IndexOutOfRange);
      }
      var shortestTime := FinalAt(0);
      if shortestTime.Err? {
        QuickestStop(snap, 1, shortestTime.error);
        return shortestTime;
      }
      for i := 1 to nodeSessions.Length
        invariant Quickest(snap, i) == shortestTime && shortestTime.Ok?
        invariant Snap() == snap
      {
        var f := FinalAt(i);
        QuickestNext(snap, i, shortestTime.value, f);
        if f.Err? {
          QuickestStop(snap, i + 1, f.error);
          return f;
        }
        if f.value < shortestTime.value {
          shortestTime := f;
        }
      }
      return shortestTime;
    }

    /** Node i's getFinalTime; an unset node raises NullReferenceException. */
    method FinalAt(i: nat) returns (r: Result<real>)
      requires i < nodeSessions.Length
      ensures r == NodeFinal(Snap()[i])
    {
      var node := nodeSessions[i];
      if node == null {
        return Err(NullReference);
      }
      r := node.GetFinalTime();
    }

    /** getAverageUpTime (up) and getAverageDownTime (!up). */
    method GetAverage(up: bool) returns (r: Result<real>)
      ensures r == MeanAverage(Snap(), up)
    {
      var sum := SumLoop(up);
      if sum.Err? {
        return sum;
      }
      if nodeSessions.Length == 0 {
        return Err(NaN);
      }
      return Ok(sum.value / (nodeSessions.Length as real));
    }

    /** The summing loop of getAverageUpTime and getAverageDownTime. */
    method SumLoop(up: bool) returns (r: Result<real>)
      ensures r == SumAverages(Snap(), up, nodeSessions.Length)
    {
      ghost var snap := Snap();
      var sum := 0.0;
      for i := 0 to nodeSessions.Length
        invariant SumAverages(snap, up, i) == Ok(sum)
        invariant Snap() == snap
      {
        var a := AverageAt(i, up);
        SumNext(snap, up, i, sum, a);
        if a.Err? {
          SumStop(snap, up, i + 1, a.error);
          return a;
        }
        sum := sum + a.value;
      }
      return Ok(sum);
    }

    /** Node i's averageUpTime (up) or averageDownTime (!up); an unset node
        raises NullReferenceException. */
    method AverageAt(i: nat, up: bool) returns (r: Result<real>)
      requires i < nodeSessions.Length
      ensures r == NodeAverage(Snap()[i], up)
    {
      var node := nodeSessions[i];
      if node == null {
        return Err(NullReference);
      }
      if up {
        r := node.AverageUpTime();
      } else {
        r := node.AverageDownTime();
      }
    }

    /** generateChurn: every slot receives a fresh NodeTimeline of
        numSessions sessions at baseTime, generated from its own draws. The
        constructor's refusal or a failed generation stops the loop; a node
        whose generation failed stays in its slot. outs lists, in order,
        the outcomes of the generations that ran. */
    method GenerateChurn(numSessions: int, baseTime: real, samples: seq<seq<Draw>>)
      returns (o: Outcome, ghost outs: seq<Outcome>)
      requires |samples| == nodeSessions.Length
      modifies nodeSessions
      ensures Stopped(numSessions, baseTime, |samples|, o, outs)
      ensures forall i | 0 <= i < |outs| ::
        numSessions > 0 && outs[i] == GenerateOutcome(baseTime, samples[i], numSessions)
      ensures forall i | 0 <= i < |outs| ::
        nodeSessions[i] != null && fresh(nodeSessions[i]) && nodeSessions[i].baseTime == baseTime &&
        nodeSessions[i].timeline[..] == GenerateSlots(baseTime, samples[i], Unset(numSessions))
      ensures forall i | |outs| <= i < nodeSessions.Length :: nodeSessions[i] == old(nodeSessions[i])
    {
      var n := nodeSessions.Length;
      outs := [];
      for i := 0 to n
        invariant |outs| == i && (i == 0 || (numSessions > 0 && baseTime >= 0.0))
        invariant forall j | 0 <= j < i :: outs[j] == Success
        invariant forall j | 0 <= j < i ::
          numSessions > 0 && outs[j] == GenerateOutcome(baseTime, samples[j], numSessions)
        invariant forall j | 0 <= j < i ::
          nodeSessions[j] != null && fresh(nodeSessions[j]) && nodeSessions[j].baseTime == baseTime &&
          nodeSessions[j].timeline[..] == GenerateSlots(baseTime, samples[j], Unset(numSessions))
        invariant forall j | i <= j < n :: nodeSessions[j] == old(nodeSessions[j])
      {
        var g, placed := PlaceNode(i, numSessions, baseTime, samples[i]);
        if !placed {
          return g, outs;
        }
        outs := outs + [g];
        if g.Failure? {
          return g, outs;
        }
      }
      return Success, outs;
    }

    /** One iteration of generateChurn: construct node i and generate its
        timeline; placed is false when the constructor refused. */
    method PlaceNode(i: nat, numSessions: int, baseTime: real, draws: seq<Draw>) returns (o: Outcome, placed: bool)
      requires i < nodeSessions.Length
      modifies nodeSessions
      ensures placed <==> numSessions > 0 && baseTime >= 0.0
      ensures !placed ==> o == Failure(ArgumentError) && unchanged(nodeSessions)
      ensures placed ==>
        o == GenerateOutcome(baseTime, draws, numSessions) &&
        nodeSessions[i] != null && fresh(nodeSessions[i]) && nodeSessions[i].baseTime == baseTime &&
        nodeSessions[i].timeline[..] == GenerateSlots(baseTime, draws, Unset(numSessions)) &&
        forall j | 0 <= j < nodeSessions.Length && j != i :: nodeSessions[j] == old(nodeSessions[j])
    {
      var t := NodeTimeline.Create(numSessions, baseTime);
      if t.Err? {
        return Failure(t.error), false;
      }
      var node := t.value;
      nodeSessions[i] := node;
      o := node.Generate(draws);
      placed := true;
    }
  }

  /** The number of slots generateChurn fills: none when the constructor
      refuses, otherwise every node up to and including the first whose
      generation fails. */
  function ChurnReach(numSessions: int, baseTime: real, samples: seq<seq<Draw>>): (r: nat)
    ensures r <= |samples|
    ensures r > 0 ==> numSessions > 0 && baseTime >= 0.0
  {
    if !(numSessions > 0 && baseTime >= 0.0) then 0
    else if FirstFailure(NodeOutcomes(numSessions, baseTime, samples), 0) < |samples| then
      FirstFailure(NodeOutcomes(numSessions, baseTime, samples), 0) + 1
    else |samples|
  }

  /** The outcome of generateChurn: the constructor's refusal at the first
      node, else the first failed generation, else success. */
  function ChurnOutcome(numSessions: int, baseTime: real, samples: seq<seq<Draw>>): Outcome
  {
    if |samples| == 0 then Success
    else if !(numSessions > 0 && baseTime >= 0.0) then Failure(ArgumentError)
    else if FirstFailure(NodeOutcomes(numSessions, baseTime, samples), 0) < |samples| then
      NodeOutcomes(numSessions, baseTime, samples)[FirstFailure(NodeOutcomes(numSessions, baseTime, samples), 0)]
    else Success
  }

  /** generateChurn succeeds exactly when there is no node, or the
      constructor accepts and every node's generation succeeds; it then
      fills every slot. A failure is the failure of some node's
      generation, or the constructor's ArgumentException. */
  lemma ChurnSucceeds(numSessions: int, baseTime: real, samples: seq<seq<Draw>>)
    ensures ChurnOutcome(numSessions, baseTime, samples) == Success <==>
      |samples| == 0 ||
      (numSessions > 0 && baseTime >= 0.0 &&
       forall i | 0 <= i < |samples| :: GenerateOutcome(baseTime, samples[i], numSessions) == Success)
    ensures ChurnOutcome(numSessions, baseTime, samples) == Success ==>
      ChurnReach(numSessions, baseTime, samples) == |samples|
    ensures ChurnOutcome(numSessions, baseTime, samples).Failure? ==>
      ChurnOutcome(numSessions, baseTime, samples) == Failure(ArgumentError) ||
      exists i | 0 <= i < |samples| :: numSessions > 0 &&
        ChurnOutcome(numSessions, baseTime, samples) == GenerateOutcome(baseTime, samples[i], numSessions)
  {
    if |samples| > 0 && numSessions > 0 && baseTime >= 0.0 {
      var outs := NodeOutcomes(numSessions, baseTime, samples);
      forall i | 0 <= i < |samples|
        ensures outs[i] == GenerateOutcome(baseTime, samples[i], numSessions)
      {
        NodeOutcomesAt(numSessions, baseTime, samples, i);
      }
    }
  }

  /** How generateChurn over n nodes stops, given the outcomes outs of the
      generations that ran: with no node it succeeds; a refusing
      constructor raises ArgumentException before any generation; otherwise
      the generations run in order until the first failure, whose outcome
      is the result, or until all n have succeeded. */
  predicate Stopped(numSessions: int, baseTime: real, n: nat, o: Outcome, outs: seq<Outcome>)
  {
    && |outs| <= n
    && (forall j | 0 <= j < |outs| - 1 :: outs[j] == Success)
    && (n == 0 ==> o == Success && outs == [])
    && (n > 0 && !(numSessions > 0 && baseTime >= 0.0) ==> o == Failure(ArgumentError) && outs == [])
    && (n > 0 && numSessions > 0 && baseTime >= 0.0 ==>
         |outs| > 0 && o == outs[|outs| - 1] && (|outs| < n ==> o.Failure?))
  }

  /** The way generateChurn stops decides its outcome and the number of
      nodes it places: they are ChurnOutcome and ChurnReach. */
  lemma ChurnExact(numSessions: int, baseTime: real, samples: seq<seq<Draw>>, o: Outcome, outs: seq<Outcome>)
    requires Stopped(numSessions, baseTime, |samples|, o, outs)
    requires forall i | 0 <= i < |outs| ::
      numSessions > 0 && outs[i] == GenerateOutcome(baseTime, samples[i], numSessions)
    ensures o == ChurnOutcome(numSessions, baseTime, samples)
    ensures |outs| == ChurnReach(numSessions, baseTime, samples)
  {
    if |samples| > 0 && numSessions > 0 && baseTime >= 0.0 {
      var all := NodeOutcomes(numSessions, baseTime, samples);
      forall i | 0 <= i < |outs|
        ensures all[i] == outs[i]
      {
        NodeOutcomesAt(numSessions, baseTime, samples, i);
      }
      var k := FirstFailure(all, 0);
      if o.Failure? {
        assert k == |outs| - 1;
      } else {
        assert k == |samples|;
      }
    }
  }

  /** The status loop stops at node i: the whole status fails the same way. */
  lemma {:induction false} PrefixFailure(snap: Snapshot, t: real, i: nat, e: Error)
    requires i < |snap| && Status(snap[..i], t).Ok?
    requires Status(snap[..i + 1], t) == Err(e)
    ensures Status(snap, t) == Err(e)
    decreases |snap| - i
  {
    if i + 1 < |snap| {
      PrefixStop(snap, t, i + 1, e);
    } else {
      assert snap[..i + 1] == snap;
    }
  }

  /** A failure of a prefix is the failure of every longer prefix. */
  lemma {:induction false} PrefixStop(snap: Snapshot, t: real, i: nat, e: Error)
    requires i <= |snap| && Status(snap[..i], t) == Err(e)
    ensures Status(snap, t) == Err(e)
    decreases |snap| - i
  {
    if i < |snap| {
      assert snap[..i + 1][..i] == snap[..i];
      PrefixStop(snap, t, i + 1, e);
    } else {
      assert snap[..i] == snap;
    }
  }

  /** One more node in the running minimum. */
  lemma QuickestNext(snap: Snapshot, i: nat, m: real, f: Result<real>)
    requires 1 <= i < |snap| && Quickest(snap, i) == Ok(m) && NodeFinal(snap[i]) == f
    ensures f.Err? ==> Quickest(snap, i + 1) == Err(f.error)
    ensures f.Ok? ==> Quickest(snap, i + 1) == Ok(if f.value < m then f.value else m)
  {
  }

  /** A failure among the first i final times is the failure of the whole
      running minimum. */
  lemma {:induction false} QuickestStop(snap: Snapshot, i: nat, e: Error)
    requires 1 <= i <= |snap| && Quickest(snap, i) == Err(e)
    ensures Quickest(snap, |snap|) == Err(e)
    decreases |snap| - i
  {
    if i < |snap| {
      QuickestStop(snap, i + 1, e);
    }
  }

  /** One more node in the summing loop. */
  lemma SumNext(snap: Snapshot, up: bool, i: nat, sum: real, a: Result<real>)
    requires i < |snap| && SumAverages(snap, up, i) == Ok(sum) && NodeAverage(snap[i], up) == a
    ensures a.Err? ==> SumAverages(snap, up, i + 1) == Err(a.error)
    ensures a.Ok? ==> SumAverages(snap, up, i + 1) == Ok(sum + a.value)
  {
  }

  /** A failure among the first i averages is the failure of the whole sum. */
  lemma {:induction false} SumStop(snap: Snapshot, up: bool, i: nat, e: Error)
    requires i <= |snap| && SumAverages(snap, up, i) == Err(e)
    ensures SumAverages(snap, up, |snap|) == Err(e)
    decreases |snap| - i
  {
    if i < |snap| {
      SumStop(snap, up, i + 1, e);
    }
  }
}
