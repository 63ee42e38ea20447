/**
 * One user's shift record and the two transitions of the per-user state
 * machine: clocking in (off shift or on shift -> on shift) and clocking out
 * (on shift -> off shift, rejected when off shift).
 */
module Shifts {

  /** An opaque user identity (a Discord user id). */
  type UserId = string

  /** Milliseconds since the epoch: what subtracting two JavaScript dates yields. */
  type Timestamp = int

  /** 1000 * 60 * 60 milliseconds make one hour. */
  const MillisPerHour: int := 1000 * 60 * 60

  datatype Option<T> = None | Some(value: T)

  /** One completed shift, from clock-in to clock-out. */
  datatype Session = Session(start: Timestamp, end: Timestamp)

  /**
   * A user's record: completed sessions in the order they were closed, the
   * accumulated hours, and the clock-in time while the user is on shift.
   */
  datatype Record = Record(sessions: seq<Session>, total: real, currentStart: Option<Timestamp>)

  /** The record created lazily for a user seen for the first time, and the one clearing restores. */
  const Default: Record := Record([], 0.0, None)

  /** Elapsed time in hours, as an exact real (the source divides milliseconds by 3600000). */
  function Hours(start: Timestamp, end: Timestamp): real
  {
    (end - start) as real / MillisPerHour as real
  }

  function SessionHours(s: Session): real
  {
    Hours(s.start, s.end)
  }

  /** The hours of all sessions; the reference definition that `total` must agree with. */
  function SumHours(sessions: seq<Session>): real
  {
    if sessions == [] then 0.0 else SessionHours(sessions[0]) + SumHours(sessions[1..])
  }

  /** The record's running total agrees with its session history. */
  predicate Consistent(r: Record)
  {
    r.total == SumHours(r.sessions)
  }

  predicate OnShift(r: Record)
  {
    r.currentStart.Some?
  }

  /** Every session ends no earlier than it starts (true when the host clock never goes back). */
  predicate WellOrdered(sessions: seq<Session>)
  {
    forall k :: 0 <= k < |sessions| ==> sessions[k].start <= sessions[k].end
  }

  /** Appending one session adds exactly its hours to the sum. */
  lemma {:induction false} SumHoursAppend(sessions: seq<Session>, s: Session)
    ensures SumHours(sessions + [s]) == SumHours(sessions) + SessionHours(s)
  {
    if sessions == [] {
      assert [] + [s] == [s];
    } else {
      assert (sessions + [s])[1..] == sessions[1..] + [s];
      SumHoursAppend(sessions[1..], s);
    }
  }

  /** With a clock that never goes back, the sum of session hours is never negative. */
  lemma {:induction false} TotalNonNegative(sessions: seq<Session>)
    requires WellOrdered(sessions)
    ensures SumHours(sessions) >= 0.0
  {
    if sessions != [] {
      assert WellOrdered(sessions[1..]) by {
        forall k | 0 <= k < |sessions[1..]|
          ensures sessions[1..][k].start <= sessions[1..][k].end
        {
          assert sessions[1..][k] == sessions[k + 1];
        }
      }
      TotalNonNegative(sessions[1..]);
    }
  }

  /**
   * Clocking in: `currentStart` becomes `now` whether or not the user was
   * already on shift (an earlier clock-in is overwritten); the history and
   * the total are untouched.
   */
  function StartShift(r: Record, now: Timestamp): (r': Record)
    ensures OnShift(r') && r'.currentStart.value == now
    ensures r'.sessions == r.sessions && r'.total == r.total
    ensures Consistent(r) ==> Consistent(r')
  {
    r.(currentStart := Some(now))
  }

  /** The outcome of a clock-out: rejected, or the new record and the hours just worked. */
  datatype EndResult = NoActiveShift | Closed(after: Record, hours: real)

  /**
   * Clocking out: rejected exactly when the user is off shift; otherwise one
   * session from the clock-in to `now` is appended, its hours are added to
   * the total and the user is off shift again.
   */
  function EndShift(r: Record, now: Timestamp): (res: EndResult)
    ensures res.NoActiveShift? <==> !OnShift(r)
    ensures res.Closed? ==>
      && res.after.sessions == r.sessions + [Session(r.currentStart.value, now)]
      && res.hours == Hours(r.currentStart.value, now)
      && res.after.total == r.total + res.hours
      && !OnShift(res.after)
  {
    match r.currentStart
    case None => NoActiveShift
    case Some(start) =>
      var hours := Hours(start, now);
      Closed(Record(r.sessions + [Session(start, now)], r.total + hours, None), hours)
  }

  /** Clocking out keeps the total equal to the sum of the session hours. */
  lemma EndPreservesConsistent(r: Record, now: Timestamp)
    requires Consistent(r)
    ensures EndShift(r, now).Closed? ==> Consistent(EndShift(r, now).after)
  {
    if OnShift(r) {
      SumHoursAppend(r.sessions, Session(r.currentStart.value, now));
    }
  }

  /** Clocking out at or after the clock-in keeps the sessions well ordered and the total from decreasing. */
  lemma EndKeepsWellOrdered(r: Record, now: Timestamp)
    requires OnShift(r) && r.currentStart.value <= now
    requires WellOrdered(r.sessions)
    ensures WellOrdered(EndShift(r, now).after.sessions)
    ensures EndShift(r, now).after.total >= r.total
  {
  }

  /**
   * A clock-in at `t0` followed by a clock-out at `t1` records exactly one
   * session [t0, t1] of (t1 - t0) / 3600000 hours, and a second clock-out
   * right after it is rejected.
   */
  lemma StartThenEnd(r: Record, t0: Timestamp, t1: Timestamp, t2: Timestamp)
    ensures EndShift(StartShift(r, t0), t1) == Closed(Record(r.sessions + [Session(t0, t1)], r.total + Hours(t0, t1), None), Hours(t0, t1))
    ensures EndShift(EndShift(StartShift(r, t0), t1).after, t2) == NoActiveShift
  {
  }
}
