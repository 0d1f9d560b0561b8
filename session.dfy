/** One live session of a node: it goes live at `start` and stays live until
    `end`. Times are exact reals. */
module Sessions {
  import opened Outcomes

  /** The two times are fixed by the constructor and only read afterwards. */
  datatype Session = Session(start: real, end: real)

  /** What the constructor guarantees of every session it builds. */
  predicate Valid(s: Session)
  {
    s.start < s.end
  }

  /** The constructor: a session must start before it ends; otherwise an
      ArgumentException is raised. */
  function NewSession(startTime: real, endTime: real): (r: Result<Session>)
    ensures r.Ok? <==> startTime < endTime
    ensures r.Err? ==> r.error == ArgumentError
    ensures r.Ok? ==> r.value.start == startTime && r.value.end == endTime && Valid(r.value)
  {
    if startTime < endTime then Ok(Session(startTime, endTime)) else Err(ArgumentError)
  }

  /** isLive: both ends of the session count as live. */
  predicate IsLive(s: Session, t: real)
  {
    t >= s.start && t <= s.end
  }

  /** getDurationLive. */
  function Duration(s: Session): (d: real)
  {
    s.end - s.start
  }

  /** A session the constructor accepted has a positive duration, and it is
      live exactly from its start to its start plus that duration, both
      ends included. */
  lemma DurationPositive(s: Session, t: real)
    requires Valid(s)
    ensures Duration(s) > 0.0
    ensures IsLive(s, t) <==> s.start <= t <= s.start + Duration(s)
  {
  }

  /** A session ending before t is not live at t; this is the only kind of
      session timeIsLive ever asks. */
  lemma EndedNotLive(s: Session, t: real)
    requires s.end < t
    ensures !IsLive(s, t)
  {
  }
}
