/** The sessions of one node (NodeTimeline): a burn-in that lets the
    alternation of downtimes and uptimes run past a base time, then a fixed
    number of recorded sessions, and the queries over them. The random
    generator is a finite sequence of draws. */
module Timelines {
  import opened Outcomes
  import opened Sessions

  /** One round of the generator: the downtime before a session and the
      uptime of the session. Each generate method differs only in the
      distributions these are drawn from. */
  datatype Draw = Draw(down: real, up: real)

  /** The generator's position: the current start and end time and the
      index of the next draw. */
  datatype Cursor = Cursor(start: real, end: real, next: nat)

  /** One round: the next session starts a downtime after the current end
      and lasts an uptime. */
  function Advance(samples: seq<Draw>, c: Cursor): Cursor
    requires c.next < |samples|
  {
    Cursor(c.end + samples[c.next].down, c.end + samples[c.next].down + samples[c.next].up, c.next + 1)
  }

  // ---------------------------------------------------------------------
  // Generation

  /** The burn-in loop: rounds are drawn and discarded while the end time
      is below the base time. It ends with an end time at or after the base
      time, or runs out of draws. */
  function BurnIn(base: real, samples: seq<Draw>, c: Cursor): (r: Result<Cursor>)
    requires c.next <= |samples|
    ensures c.end >= base ==> r == Ok(c)
    ensures r.Ok? ==> r.value.end >= base && c.next <= r.value.next <= |samples|
    ensures r.Err? ==> r.error == Exhausted
    decreases |samples| - c.next
  {
    if c.end >= base then Ok(c)
    else if c.next == |samples| then Err(Exhausted)
    else BurnIn(base, samples, Advance(samples, c))
  }

  /** Consecutive intervals j and j + 1 are linked by draw first + j: the
      second starts a downtime after the first ends and lasts an uptime. */
  predicate Linked(samples: seq<Draw>, first: nat, r: seq<Session>, j: nat)
    requires j + 1 < |r|
  {
    first + j < |samples| &&
    r[j + 1].start == r[j].end + samples[first + j].down &&
    r[j + 1].end == r[j + 1].start + samples[first + j].up
  }

  /** Putting an interval in front of a linked run keeps it linked when the
      first draw links the two. */
  lemma LinkedCons(samples: seq<Draw>, first: nat, head: Session, rest: seq<Session>, second: nat)
    requires |rest| > 0 && first < |samples| && second == first + 1
    requires rest[0].start == head.end + samples[first].down
    requires rest[0].end == rest[0].start + samples[first].up
    requires forall j | 0 <= j < |rest| - 1 :: Linked(samples, second, rest, j)
    ensures forall j | 0 <= j < |rest| :: Linked(samples, first, [head] + rest, j)
  {
    var r := [head] + rest;
    forall j | 0 <= j < |rest|
      ensures Linked(samples, first, r, j)
    {
      if j > 0 {
        assert Linked(samples, first + 1, rest, j - 1);
      }
    }
  }

  /** The intervals the recording loop meets from position c: count of
      them, or fewer when the draws run out. */
  function Intervals(samples: seq<Draw>, c: Cursor, count: nat): (r: seq<Session>)
    requires c.next <= |samples|
    ensures |r| <= count && (count > 0 ==> |r| > 0 && r[0] == Session(c.start, c.end))
    ensures count > 0 && |r| < count ==> c.next + |r| == |samples| + 1
    decreases count
  {
    if count == 0 then []
    else if count == 1 || c.next == |samples| then [Session(c.start, c.end)]
    else [Session(c.start, c.end)] + Intervals(samples, Advance(samples, c), count - 1)
  }

  /** Consecutive intervals are linked by consecutive draws. */
  lemma {:induction false} IntervalsLinked(samples: seq<Draw>, c: Cursor, count: nat)
    requires c.next <= |samples|
    ensures forall j | 0 <= j < |Intervals(samples, c, count)| - 1 ::
      Linked(samples, c.next, Intervals(samples, c, count), j)
    decreases count
  {
    if count > 1 && c.next < |samples| {
      var rest := Intervals(samples, Advance(samples, c), count - 1);
      IntervalsLinked(samples, Advance(samples, c), count - 1);
      LinkedCons(samples, c.next, Session(c.start, c.end), rest, Advance(samples, c).next);
    }
  }

  /** The position of the first interval the Session constructor refuses,
      or |I| when it accepts them all. */
  function FirstInvalid(I: seq<Session>): (k: nat)
    ensures k <= |I|
    ensures k < |I| ==> !Valid(I[k])
  {
    if I == [] then 0 else if !Valid(I[0]) then 0 else 1 + FirstInvalid(I[1..])
  }

  /** Every interval before the first refused one is accepted. */
  lemma {:induction false} FirstInvalidPrefix(I: seq<Session>)
    ensures forall j | 0 <= j < FirstInvalid(I) :: Valid(I[j])
  {
    if I != [] && Valid(I[0]) {
      FirstInvalidPrefix(I[1..]);
      forall j | 0 <= j < FirstInvalid(I)
        ensures Valid(I[j])
      {
        if j > 0 {
          assert I[j] == I[1..][j - 1];
        }
      }
    }
  }

  /** The outcome of the recording loop from position c on n slots, round
      by round: a refused interval raises ArgumentException, and the draws
      may run out before the last slot. */
  function RecordOutcome(samples: seq<Draw>, c: Cursor, n: nat): Outcome
    requires c.next <= |samples|
    decreases n
  {
    if n == 0 then Success
    else if !Valid(Session(c.start, c.end)) then Failure(ArgumentError)
    else if n == 1 then Success
    else if c.next == |samples| then Failure(Exhausted)
    else RecordOutcome(samples, Advance(samples, c), n - 1)
  }

  /** The outcome read off the intervals met: the first refused one wins
      over running out of draws. */
  function IntervalsOutcome(I: seq<Session>, n: nat): Outcome
  {
    if FirstInvalid(I) < |I| then Failure(ArgumentError)
    else if |I| < n then Failure(Exhausted)
    else Success
  }

  /** The round-by-round outcome agrees with the one read off the whole run
      of intervals. */
  lemma {:induction false} RecordOutcomeMeaning(samples: seq<Draw>, c: Cursor, n: nat)
    requires c.next <= |samples|
    ensures RecordOutcome(samples, c, n) == IntervalsOutcome(Intervals(samples, c, n), n)
    decreases n
  {
    var I := Intervals(samples, c, n);
    if n > 0 && Valid(Session(c.start, c.end)) && n != 1 && c.next < |samples| {
      var c' := Advance(samples, c);
      RecordOutcomeMeaning(samples, c', n - 1);
      assert I[1..] == Intervals(samples, c', n - 1);
    } else if n > 0 && Valid(Session(c.start, c.end)) {
      assert I[1..] == [];
    }
  }

  /** The outcome of a generate method on n slots: the burn-in may run out
      of draws before the recording starts. */
  function GenerateOutcome(base: real, samples: seq<Draw>, n: nat): Outcome
  {
    match BurnIn(base, samples, Cursor(0.0, 0.0, 0))
    case Err(e) => Failure(e)
    case Ok(c) => RecordOutcome(samples, c, n)
  }

  /** The slots a generate method leaves behind. */
  function GenerateSlots(base: real, samples: seq<Draw>, before: seq<Option<Session>>): seq<Option<Session>>
  {
    match BurnIn(base, samples, Cursor(0.0, 0.0, 0))
    case Err(_) => before
    case Ok(c) => RecordSlots(samples, c, 0, before)
  }

  /** The slots the recording loop leaves when it stands at position c with
      slot i next, round by round: a refused interval leaves the slots as
      they are, otherwise it is stored and the next round is drawn unless it
      filled the last slot or no draw is left. */
  function RecordSlots(samples: seq<Draw>, c: Cursor, i: nat, slots: seq<Option<Session>>): (r: seq<Option<Session>>)
    requires c.next <= |samples| && i <= |slots|
    ensures |r| == |slots|
    decreases |slots| - i
  {
    if i == |slots| || !Valid(Session(c.start, c.end)) then slots
    else if i + 1 == |slots| || c.next == |samples| then slots[i := Some(Session(c.start, c.end))]
    else RecordSlots(samples, Advance(samples, c), i + 1, slots[i := Some(Session(c.start, c.end))])
  }

  /** The round-by-round slots agree with the ones read off the whole run
      of intervals: the accepted intervals up to the first refused one are
      stored in order from slot i, and later slots keep their contents. */
  lemma {:induction false} RecordSlotsMeaning(samples: seq<Draw>, c: Cursor, i: nat, slots: seq<Option<Session>>)
    requires c.next <= |samples| && i <= |slots|
    ensures RecordSlots(samples, c, i, slots) ==
      slots[..i] + Filled(Intervals(samples, c, |slots| - i), slots[i..], FirstInvalid(Intervals(samples, c, |slots| - i)))
    decreases |slots| - i
  {
    var head := Session(c.start, c.end);
    if i == |slots| || !Valid(head) {
      RecordSlotsRefused(samples, c, i, slots);
    } else if i + 1 == |slots| || c.next == |samples| {
      RecordSlotsLast(samples, c, i, slots);
    } else {
      var c' := Advance(samples, c);
      var s' := slots[i := Some(head)];
      RecordSlotsMeaning(samples, c', i + 1, s');
      RecordSlotsNext(samples, c, i, slots, c', s');
    }
  }

  /** No slot left, or the interval is refused: nothing is stored. */
  lemma RecordSlotsRefused(samples: seq<Draw>, c: Cursor, i: nat, slots: seq<Option<Session>>)
    requires c.next <= |samples| && i <= |slots|
    requires i == |slots| || !Valid(Session(c.start, c.end))
    ensures RecordSlots(samples, c, i, slots) ==
      slots[..i] + Filled(Intervals(samples, c, |slots| - i), slots[i..], FirstInvalid(Intervals(samples, c, |slots| - i)))
  {
    var I := Intervals(samples, c, |slots| - i);
    assert FirstInvalid(I) == 0;
    FilledNone(I, slots[i..]);
    assert slots[..i] + slots[i..] == slots;
  }

  /** The last slot, or the last draw: the interval is stored and the
      recording stops. */
  lemma RecordSlotsLast(samples: seq<Draw>, c: Cursor, i: nat, slots: seq<Option<Session>>)
    requires c.next <= |samples| && i < |slots| && Valid(Session(c.start, c.end))
    requires i + 1 == |slots| || c.next == |samples|
    ensures RecordSlots(samples, c, i, slots) ==
      slots[..i] + Filled(Intervals(samples, c, |slots| - i), slots[i..], FirstInvalid(Intervals(samples, c, |slots| - i)))
  {
    var I := Intervals(samples, c, |slots| - i);
    var head := Session(c.start, c.end);
    assert I == [head] + [];
    assert FirstInvalid(I) == 1 by { assert I[1..] == []; }
    assert slots[i..] == [slots[i]] + slots[i + 1..];
    FilledCons(head, [], slots[i], slots[i + 1..], 0);
    FilledNone([], slots[i + 1..]);
    assert slots[..i] + ([Some(head)] + slots[i + 1..]) == slots[i := Some(head)];
  }

  /** The interval is stored and the next round is drawn: the run from the
      next position fills the following slots. */
  lemma RecordSlotsNext(samples: seq<Draw>, c: Cursor, i: nat, slots: seq<Option<Session>>, c': Cursor, s': seq<Option<Session>>)
    requires c.next < |samples| && i + 1 < |slots| && Valid(Session(c.start, c.end))
    requires c' == Advance(samples, c) && s' == slots[i := Some(Session(c.start, c.end))]
    requires RecordSlots(samples, c', i + 1, s') ==
      s'[..i + 1] + Filled(Intervals(samples, c', |s'| - (i + 1)), s'[i + 1..], FirstInvalid(Intervals(samples, c', |s'| - (i + 1))))
    ensures RecordSlots(samples, c, i, slots) ==
      slots[..i] + Filled(Intervals(samples, c, |slots| - i), slots[i..], FirstInvalid(Intervals(samples, c, |slots| - i)))
  {
    var I := Intervals(samples, c, |slots| - i);
    var head := Session(c.start, c.end);
    var J := Intervals(samples, c', |slots| - i - 1);
    assert RecordSlots(samples, c, i, slots) == RecordSlots(samples, c', i + 1, s');
    assert |s'| - (i + 1) == |slots| - i - 1;
    assert RecordSlots(samples, c, i, slots) == s'[..i + 1] + Filled(J, s'[i + 1..], FirstInvalid(J));
    assert I == [head] + J && I[1..] == J;
    assert FirstInvalid(I) == 1 + FirstInvalid(J);
    ShiftFilled(slots, i, head, J, FirstInvalid(J));
  }

  /** Storing head in slot i and filling behind it from J is filling from
      head followed by J. */
  lemma ShiftFilled(slots: seq<Option<Session>>, i: nat, head: Session, J: seq<Session>, k: nat)
    requires i < |slots| && k <= |J| && k <= |slots| - i - 1
    ensures slots[i := Some(head)][..i + 1] + Filled(J, slots[i := Some(head)][i + 1..], k) ==
      slots[..i] + Filled([head] + J, slots[i..], k + 1)
  {
    var s' := slots[i := Some(head)];
    assert slots[i..] == [slots[i]] + slots[i + 1..];
    FilledCons(head, J, slots[i], slots[i + 1..], k);
    assert s'[..i + 1] == slots[..i] + [Some(head)] && s'[i + 1..] == slots[i + 1..];
    assert slots[..i] + [Some(head)] + Filled(J, slots[i + 1..], k) ==
      slots[..i] + ([Some(head)] + Filled(J, slots[i + 1..], k));
  }

  /** Filling no slot leaves them as they are. */
  lemma FilledNone(I: seq<Session>, before: seq<Option<Session>>)
    ensures Filled(I, before, 0) == before
  {
  }

  /** Filling behind one more interval shifts the filled slots by one. */
  lemma FilledCons(head: Session, J: seq<Session>, x: Option<Session>, tail: seq<Option<Session>>, k: nat)
    requires k <= |J| && k <= |tail|
    ensures Filled([head] + J, [x] + tail, k + 1) == [Some(head)] + Filled(J, tail, k)
  {
    var l := Filled([head] + J, [x] + tail, k + 1);
    var r := [Some(head)] + Filled(J, tail, k);
    forall m | 0 <= m < |l|
      ensures l[m] == r[m]
    {
      if 0 < m <= k {
        assert ([head] + J)[m] == J[m - 1];
      }
    }
  }

  /** n slots that hold no session yet. */
  function Unset(n: nat): (r: seq<Option<Session>>)
    ensures |r| == n && forall j | 0 <= j < n :: r[j].None?
  {
    seq(n, _ => None)
  }

  /** before with its first k slots holding the intervals of I. */
  function Filled(I: seq<Session>, before: seq<Option<Session>>, k: nat): (r: seq<Option<Session>>)
    requires k <= |I| && k <= |before|
    ensures |r| == |before|
  {
    seq(|before|, j requires 0 <= j < |before| => if j < k then Some(I[j]) else before[j])
  }

  /** A successful generation fills every slot with a valid session; the
      first ends at or after the base time, and when no downtime is
      negative the sessions are in order and do not overlap. */
  lemma GenerateSucceeds(base: real, samples: seq<Draw>, before: seq<Option<Session>>)
    requires GenerateOutcome(base, samples, |before|) == Success
    ensures var s := GenerateSlots(base, samples, before);
      (forall j | 0 <= j < |s| :: s[j].Some? && Valid(s[j].value)) &&
      (|s| > 0 ==> s[0].value.end >= base)
    ensures (forall k | 0 <= k < |samples| :: samples[k].down >= 0.0) ==>
      var s := GenerateSlots(base, samples, before);
      forall j | 0 <= j < |s| - 1 :: s[j].value.end <= s[j + 1].value.start
  {
    var c := BurnIn(base, samples, Cursor(0.0, 0.0, 0)).value;
    var I := Intervals(samples, c, |before|);
    RecordOutcomeMeaning(samples, c, |before|);
    RecordSlotsMeaning(samples, c, 0, before);
    assert before[..0] == [] && before[0..] == before;
    FirstInvalidPrefix(I);
    IntervalsLinked(samples, c, |before|);
    assert FirstInvalid(I) == |I| == |before|;
    if forall k | 0 <= k < |samples| :: samples[k].down >= 0.0 {
      forall j | 0 <= j < |I| - 1
        ensures I[j].end <= I[j + 1].start
      {
        assert Linked(samples, c.next, I, j);
      }
    }
  }

  /** With base time 0 the burn-in draws nothing and the first interval is
      (0, 0), which the Session constructor refuses. */
  lemma ZeroBaseFails(samples: seq<Draw>, n: nat)
    requires n > 0
    ensures GenerateOutcome(0.0, samples, n) == Failure(ArgumentError)
  {
    var I := Intervals(samples, Cursor(0.0, 0.0, 0), n);
    assert !Valid(I[0]);
    RecordOutcomeMeaning(samples, Cursor(0.0, 0.0, 0), n);
  }

  /** A zero (or negative) uptime among the draws the recording uses makes
      generation fail. */
  lemma ZeroUpFails(base: real, samples: seq<Draw>, n: nat, c: Cursor, j: nat)
    requires BurnIn(base, samples, Cursor(0.0, 0.0, 0)) == Ok(c)
    requires j + 1 < n && c.next + j < |samples| && samples[c.next + j].up <= 0.0
    ensures GenerateOutcome(base, samples, n) != Success
  {
    var I := Intervals(samples, c, n);
    RecordOutcomeMeaning(samples, c, n);
    IntervalsLinked(samples, c, n);
    FirstInvalidPrefix(I);
    if |I| == n {
      assert Linked(samples, c.next, I, j);
      assert !Valid(I[j + 1]);
    }
  }

  // ---------------------------------------------------------------------
  // Queries on the slots

  /** The finalTime getter: the end of the last slot. */
  function FinalTime(slots: seq<Option<Session>>): (r: Result<real>)
    ensures r.Ok? <==> |slots| > 0 && slots[|slots| - 1].Some?
    ensures r.Ok? ==> r.value == slots[|slots| - 1].value.end
    ensures |slots| == 0 ==> r == Err(IndexOutOfRange)
    ensures |slots| > 0 && slots[|slots| - 1].None? ==> r == Err(NullReference)
  {
    if |slots| == 0 then Err(IndexOutOfRange)
    else if slots[|slots| - 1].None? then Err(NullReference)
    else Ok(slots[|slots| - 1].value.end)
  }

  /** After a successful generation with no negative downtime, the final
      time is the latest end of all sessions. */
  lemma FinalIsLatest(base: real, samples: seq<Draw>, before: seq<Option<Session>>, j: int)
    requires GenerateOutcome(base, samples, |before|) == Success
    requires forall k | 0 <= k < |samples| :: samples[k].down >= 0.0
    requires 0 <= j < |before|
    ensures var s := GenerateSlots(base, samples, before);
      FinalTime(s).Ok? && s[j].Some? && s[j].value.end <= FinalTime(s).value
  {
    GenerateSucceeds(base, samples, before);
    LastIsLatest(GenerateSlots(base, samples, before), j);
  }

  /** On filled, valid and ordered slots the final time is the latest end. */
  lemma LastIsLatest(s: seq<Option<Session>>, j: int)
    requires forall k | 0 <= k < |s| :: s[k].Some? && Valid(s[k].value)
    requires forall k | 0 <= k < |s| - 1 :: s[k].value.end <= s[k + 1].value.start
    requires 0 <= j < |s|
    ensures FinalTime(s).Ok? && s[j].value.end <= FinalTime(s).value
  {
    EndsIncrease(s, j);
  }

  lemma {:induction false} EndsIncrease(s: seq<Option<Session>>, j: int)
    requires forall k | 0 <= k < |s| :: s[k].Some? && Valid(s[k].value)
    requires forall k | 0 <= k < |s| - 1 :: s[k].value.end <= s[k + 1].value.start
    requires 0 <= j < |s|
    ensures s[j].value.end <= s[|s| - 1].value.end
    decreases |s| - j
  {
    if j < |s| - 1 {
      EndsIncrease(s, j + 1);
    }
  }

  /** The scan of timeIsLive from position index: while the session there
      ends before t, live is set to whether that session is live at t and
      the scan moves on; it stops at the first session ending at or after
      t. */
  function Scan(slots: seq<Option<Session>>, t: real, index: nat, live: bool): Result<bool>
    decreases |slots| - index
  {
    if index >= |slots| then Err(IndexOutOfRange)
    else if slots[index].None? then Err(NullReference)
    else if slots[index].value.end < t then Scan(slots, t, index + 1, IsLive(slots[index].value, t))
    else Ok(live)
  }

  /** timeIsLive as written: a negative time is refused, a time after the
      final time is not live, otherwise the scan decides. */
  function TimeIsLive(slots: seq<Option<Session>>, t: real): Result<bool>
  {
    if t < 0.0 then Err(ArgumentError)
    else match FinalTime(slots)
      case Err(e) => Err(e)
      case Ok(f) => if f < t then Ok(false) else Scan(slots, t, 0, false)
  }

  /** The scan only ever looks at sessions ending before t, none of which is
      live at t, and it stops before running off the end when the last
      session ends at or after t. */
  lemma {:induction false} ScanNeverLive(slots: seq<Option<Session>>, t: real, index: nat, live: bool)
    requires !live && index < |slots|
    requires slots[|slots| - 1].Some? && slots[|slots| - 1].value.end >= t
    ensures Scan(slots, t, index, live) != Ok(true)
    ensures Scan(slots, t, index, live).Err? ==> Scan(slots, t, index, live).error == NullReference
    decreases |slots| - index
  {
    if index < |slots| && slots[index].Some? && slots[index].value.end < t {
      EndedNotLive(slots[index].value, t);
      ScanNeverLive(slots, t, index + 1, false);
    }
  }

  /** timeIsLive never reports a live session: the scan tests only sessions
      that have already ended. When every slot is filled and t is not
      negative it answers false. */
  lemma NeverLive(slots: seq<Option<Session>>, t: real)
    ensures TimeIsLive(slots, t) != Ok(true)
    ensures TimeIsLive(slots, t).Err? && t >= 0.0 ==>
      (TimeIsLive(slots, t).error == NullReference ||
       (|slots| == 0 && TimeIsLive(slots, t).error == IndexOutOfRange))
    ensures t >= 0.0 && |slots| > 0 && AllFilled(slots) ==> TimeIsLive(slots, t) == Ok(false)
  {
    if t >= 0.0 && FinalTime(slots).Ok? && FinalTime(slots).value >= t {
      ScanNeverLive(slots, t, 0, false);
      if AllFilled(slots) {
        AllFilledScan(slots, t, 0, false);
        var r := Scan(slots, t, 0, false);
        assert r.Ok? && r != Ok(true);
        assert r == Ok(r.value) && !r.value;
      }
    }
  }

  /** On filled slots the scan stops on a session, never on a null one. */
  lemma {:induction false} AllFilledScan(slots: seq<Option<Session>>, t: real, index: nat, live: bool)
    requires AllFilled(slots)
    requires index < |slots| && slots[|slots| - 1].value.end >= t
    ensures Scan(slots, t, index, live).Ok?
    decreases |slots| - index
  {
    if slots[index].value.end < t {
      AllFilledScan(slots, t, index + 1, IsLive(slots[index].value, t));
    }
  }

  /** Sum of the durations of the filled slots. */
  function TotalUp(slots: seq<Option<Session>>): real
  {
    if slots == [] then 0.0
    else
      var last := slots[|slots| - 1];
      TotalUp(slots[..|slots| - 1]) + (if last.Some? then Duration(last.value) else 0.0)
  }

  /** The gap between slot i - 1 and slot i: downtime before session i. */
  function Gap(slots: seq<Option<Session>>, i: int): real
    requires 1 <= i < |slots|
  {
    if slots[i].Some? && slots[i - 1].Some? then slots[i].value.start - slots[i - 1].value.end else 0.0
  }

  /** Sum of the |slots| - 1 gaps between consecutive slots. */
  function TotalDown(slots: seq<Option<Session>>): real
  {
    if |slots| <= 1 then 0.0 else TotalDown(slots[..|slots| - 1]) + Gap(slots, |slots| - 1)
  }

  predicate AllFilled(slots: seq<Option<Session>>)
  {
    forall j | 0 <= j < |slots| :: slots[j].Some?
  }

  /** averageUpTime: the summed durations over the number of slots; the
      first unset slot raises NullReferenceException. */
  function AverageUp(slots: seq<Option<Session>>): Result<real>
  {
    if !AllFilled(slots) then Err(NullReference)
    else if |slots| == 0 then Err(NaN)
    else Ok(TotalUp(slots) / (|slots| as real))
  }

  /** averageDownTime: the |slots| - 1 gaps summed, divided by |slots|. A
      single slot is never read. */
  function AverageDown(slots: seq<Option<Session>>): Result<real>
  {
    if |slots| > 1 && !AllFilled(slots) then Err(NullReference)
    else if |slots| == 0 then Err(NaN)
    else Ok(TotalDown(slots) / (|slots| as real))
  }

  /** Uptime and downtime together span the timeline: the durations and the
      gaps add up to the time from the first start to the last end. */
  lemma {:induction false} SpanSplits(slots: seq<Option<Session>>)
    requires |slots| > 0 && AllFilled(slots)
    ensures TotalUp(slots) + TotalDown(slots) == slots[|slots| - 1].value.end - slots[0].value.start
  {
    var n := |slots|;
    if n > 1 {
      var p := slots[..n - 1];
      assert AllFilled(p);
      SpanSplits(p);
      assert p[n - 2] == slots[n - 2] && p[0] == slots[0];
    }
  }

  /** The average uptime of valid sessions is positive, and the two
      averages together, times the number of slots, span the timeline from
      the first start to the last end: both divide by the number of slots,
      though there is one gap fewer than slots. */
  lemma AveragesMeaning(slots: seq<Option<Session>>)
    requires |slots| > 0 && AllFilled(slots)
    requires forall j | 0 <= j < |slots| :: Valid(slots[j].value)
    ensures AverageUp(slots).Ok? && AverageUp(slots).value > 0.0
    ensures AverageDown(slots).Ok?
    ensures (AverageUp(slots).value + AverageDown(slots).value) * (|slots| as real) ==
      slots[|slots| - 1].value.end - slots[0].value.start
  {
    UpPositive(slots);
    SpanSplits(slots);
  }

  lemma {:induction false} UpPositive(slots: seq<Option<Session>>)
    requires |slots| > 0 && AllFilled(slots)
    requires forall j | 0 <= j < |slots| :: Valid(slots[j].value)
    ensures TotalUp(slots) > 0.0
  {
    var n := |slots|;
    if n > 1 {
      var p := slots[..n - 1];
      assert AllFilled(p) && forall j | 0 <= j < |p| :: Valid(p[j].value);
      UpPositive(p);
    } else {
      assert slots[..0] == [];
    }
  }

  // ---------------------------------------------------------------------
  // The class

  class NodeTimeline {
    var baseTime: real
    var timeline: array<Option<Session>>

    /** What the constructor establishes; nothing reassigns the fields. */
    ghost predicate Valid()
      reads this
    {
      timeline.Length > 0 && baseTime >= 0.0
    }

    ghost function Slots(): seq<Option<Session>>
      reads this, timeline
    {
      timeline[..]
    }

    constructor Init(numToTrack: nat, earliestTime: real)
      requires numToTrack > 0 && earliestTime >= 0.0
      ensures Valid() && baseTime == earliestTime && fresh(timeline)
      ensures timeline.Length == numToTrack && forall j | 0 <= j < numToTrack :: timeline[j] == None
    {
      baseTime := earliestTime;
      timeline := new Option<Session>[numToTrack](_ => None);
    }

    /** The constructor: at least one session to track and a non-negative
        earliest time, else ArgumentException. */
    static method Create(numToTrack: int, earliestTime: real) returns (r: Result<NodeTimeline>)
      ensures r.Err? <==> !(earliestTime >= 0.0 && numToTrack > 0)
      ensures r.Err? ==> r.error == ArgumentError
      ensures r.Ok? ==>
        fresh(r.value) && fresh(r.value.timeline) && r.value.Valid() &&
        r.value.baseTime == earliestTime && r.value.Slots() == Unset(numToTrack)
    {
      if earliestTime >= 0.0 && numToTrack > 0 {
        var t := new NodeTimeline.Init(numToTrack, earliestTime);
        return Ok(t);
      }
      return Err(ArgumentError);
    }

    /** generateUUTimeline, generatePETimeline, generatePPTimeline and
        generateEETimeline: the burn-in, then one session per slot. */
    method Generate(samples: seq<Draw>) returns (o: Outcome)
      requires Valid()
      modifies timeline
      ensures o == GenerateOutcome(baseTime, samples, timeline.Length)
      ensures Slots() == GenerateSlots(baseTime, samples, old(Slots()))
    {
      var b := BurnInLoop(samples);
      if b.Err? {
        return Failure(b.error);
      }
      o := Record(samples, b.value);
    }

    /** The burn-in: rounds are drawn and discarded while the end time is
        below the base time. */
    method BurnInLoop(samples: seq<Draw>) returns (r: Result<Cursor>)
      ensures r == BurnIn(baseTime, samples, Cursor(0.0, 0.0, 0))
    {
      var startTime, endTime, k := 0.0, 0.0, 0;
      while endTime < baseTime
        invariant k <= |samples|
        invariant BurnIn(baseTime, samples, Cursor(0.0, 0.0, 0)) == BurnIn(baseTime, samples, Cursor(startTime, endTime, k))
        decreases |samples| - k
      {
        if k == |samples| {
          return Err(Exhausted);
        }
        startTime := endTime + samples[k].down;
        endTime := startTime + samples[k].up;
        k := k + 1;
      }
      return Ok(Cursor(startTime, endTime, k));
    }

    /** The recording loop from position c: each slot receives the session
        at the current position, then the next round is drawn. */
    method Record(samples: seq<Draw>, c: Cursor) returns (o: Outcome)
      requires c.next <= |samples|
      modifies timeline
      ensures o == RecordOutcome(samples, c, timeline.Length)
      ensures Slots() == RecordSlots(samples, c, 0, old(Slots()))
    {
      var startTime, endTime, k: nat := c.start, c.end, c.next;
      var n := timeline.Length;
      ghost var want := RecordSlots(samples, c, 0, timeline[..]);
      var i := 0;
      while i < n
        invariant k <= |samples| && i <= n && timeline.Length == n
        invariant RecordOutcome(samples, c, n) == RecordOutcome(samples, Cursor(startTime, endTime, k), n - i)
        invariant want == RecordSlots(samples, Cursor(startTime, endTime, k), i, timeline[..])
      {
        var s := NewSession(startTime, endTime);
        if s.Err? {
          return Failure(ArgumentError);
        }
        timeline[i] := Some(s.value);
        if i + 1 < n {
          if k == |samples| {
            return Failure(Exhausted);
          }
          startTime := endTime + samples[k].down;
          endTime := startTime + samples[k].up;
          k := k + 1;
        }
        i := i + 1;
      }
      return Success;
    }

    /** timeIsLive: refuses a negative time, answers false after the final
        time, and otherwise scans the sessions that end before t. */
    method TimeIsLiveAt(t: real) returns (r: Result<bool>)
      ensures r == TimeIsLive(Slots(), t)
    {
      if t < 0.0 {
        return Err(ArgumentError);
      }
      if timeline.Length == 0 {
        return Err(IndexOutOfRange);
      }
      var last := timeline[timeline.Length - 1];
      if last.None? {
        return Err(NullReference);
      }
      if last.value.end < t {
        return Ok(false);
      }
      var live := false;
      var index := 0;
      while true
        invariant 0 <= index < timeline.Length
        invariant Scan(Slots(), t, 0, false) == Scan(Slots(), t, index, live)
        decreases timeline.Length - index
      {
        if timeline[index].None? {
          return Err(NullReference);
        }
        if !(timeline[index].value.end < t) {
          break;
        }
        live := IsLive(timeline[index].value, t);
        index := index + 1;
      }
      return Ok(live);
    }

    /** The finalTime getter. */
    method GetFinalTime() returns (r: Result<real>)
      ensures r == FinalTime(Slots())
    {
      if timeline.Length == 0 {
        return Err(IndexOutOfRange);
      }
      var last := timeline[timeline.Length - 1];
      if last.None? {
        return Err(NullReference);
      }
      return Ok(last.value.end);
    }

    /** averageUpTime. */
    method AverageUpTime() returns (r: Result<real>)
      ensures r == AverageUp(Slots())
    {
      var sum := 0.0;
      for i := 0 to timeline.Length
        invariant AllFilled(timeline[..i]) && sum == TotalUp(timeline[..i])
      {
        if timeline[i].None? {
          assert !AllFilled(timeline[..]);
          return Err(NullReference);
        }
        assert timeline[..i + 1][..i] == timeline[..i];
        sum := sum + Duration(timeline[i].value);
      }
      assert timeline[..timeline.Length] == timeline[..];
      if timeline.Length == 0 {
        return Err(NaN);
      }
      return Ok(sum / (timeline.Length as real));
    }

    /** averageDownTime: the sum of the gaps, divided by the number of
        sessions rather than the number of gaps. */
    method AverageDownTime() returns (r: Result<real>)
      ensures r == AverageDown(Slots())
    {
      if timeline.Length == 0 {
        return Err(NaN);
      }
      var sum := 0.0;
      for i := 1 to timeline.Length
        invariant AllFilled(timeline[..i]) || i == 1
        invariant sum == TotalDown(timeline[..i])
      {
        if timeline[i].None? || timeline[i - 1].None? {
          assert !AllFilled(timeline[..]) by {
            if timeline[i].None? {
              assert timeline[..][i].None?;
            } else {
              assert timeline[..][i - 1].None?;
            }
          }
          return Err(NullReference);
        }
        assert timeline[..i + 1][..i] == timeline[..i];
        sum := sum + (timeline[i].value.start - timeline[i - 1].value.end);
      }
      assert timeline[..timeline.Length] == timeline[..];
      return Ok(sum / (timeline.Length as real));
    }
  }
}
