/** Normalised times, the borrowing subtraction and the due test of the timed queue
    (ideas/queue/queue.h and _osc_is_msg_due in ideas/queue/queue.c). */
module Times {
  import opened Options

  const USEC_PER_SEC := 1_000_000

  /** A struct timeval: seconds and microseconds. */
  datatype Time = Time(sec: int, usec: int)

  predicate Normal(t: Time) {
    0 <= t.usec < USEC_PER_SEC
  }

  function Micros(t: Time): int {
    t.sec * USEC_PER_SEC + t.usec
  }

  /** OSC_TIME_CMP(a, <, b); with > it is Before(b, a). */
  predicate Before(a: Time, b: Time) {
    if a.sec == b.sec then a.usec < b.usec else a.sec < b.sec
  }

  /** What OSC_TIMEVAL_DIFF(t1, t2, out) leaves in out. */
  function Diff(t1: Time, t2: Time): Time {
    var sec, usec := t2.sec - t1.sec, t2.usec - t1.usec;
    if usec < 0 then Time(sec - 1, usec + USEC_PER_SEC) else Time(sec, usec)
  }

  /** The lexicographic comparison is the order of the microsecond counts. */
  lemma BeforeIsMicrosOrder(a: Time, b: Time)
    requires Normal(a) && Normal(b)
    ensures Before(a, b) <==> Micros(a) < Micros(b)
  {
    assert a.sec < b.sec ==> a.sec * USEC_PER_SEC + USEC_PER_SEC <= b.sec * USEC_PER_SEC;
    assert b.sec < a.sec ==> b.sec * USEC_PER_SEC + USEC_PER_SEC <= a.sec * USEC_PER_SEC;
  }

  /** The subtraction is exact on all times, and normalised on normalised ones, so that
      the sign of the difference is the sign of its seconds. */
  lemma DiffIsExact(t1: Time, t2: Time)
    ensures Micros(Diff(t1, t2)) == Micros(t2) - Micros(t1)
    ensures Normal(t1) && Normal(t2) ==> Normal(Diff(t1, t2))
    ensures Normal(t1) && Normal(t2) ==> (Diff(t1, t2).sec < 0 <==> Micros(t2) < Micros(t1))
  {
    var d := Diff(t1, t2);
    assert Micros(d) == Micros(t2) - Micros(t1);
    assert d.sec < 0 ==> d.sec * USEC_PER_SEC <= -USEC_PER_SEC;
  }

  /** A struct timeval in memory. */
  class Timeval {
    var sec: int
    var usec: int

    constructor (t: Time)
      ensures Value() == t
    {
      sec, usec := t.sec, t.usec;
    }

    function Value(): Time
      reads this
    {
      Time(sec, usec)
    }
  }

  /** OSC_TIMEVAL_DIFF, field by field. Any of the three pointers may be the same object. */
  method TimevalDiff(t1: Timeval, t2: Timeval, out: Timeval)
    modifies out
    ensures out.Value() == Diff(old(t1.Value()), old(t2.Value()))
    ensures Micros(out.Value()) == old(Micros(t2.Value()) - Micros(t1.Value()))
    ensures old(Normal(t1.Value()) && Normal(t2.Value())) ==> Normal(out.Value())
  {
    DiffIsExact(t1.Value(), t2.Value());
    out.sec := t2.sec - t1.sec;
    out.usec := t2.usec - t1.usec;
    if out.usec < 0 {
      out.sec := out.sec - 1;
      out.usec := out.usec + USEC_PER_SEC;
    }
  }

  // ---------- The due test ----------

  /** The answer of _osc_is_msg_due when the clock reads now; no threshold is a NULL pointer. */
  predicate IsDue(due: Time, now: Time, threshold: Option<Time>) {
    var diff := Diff(now, due);
    if diff.sec < 0 then true
    else if threshold.None? then diff.sec == 0 && diff.usec == 0
    else
      var late := Diff(threshold.value, diff);
      late.sec < 0 || (late.sec == 0 && late.usec == 0)
  }

  /** Microseconds a message may still be in the future: a threshold below -1 acts as -1,
      because a message that is already late is delivered whatever the threshold says. */
  function Slack(threshold: Option<Time>): int {
    if threshold.None? then 0
    else if Micros(threshold.value) < -1 then -1
    else Micros(threshold.value)
  }

  predicate NormalThreshold(threshold: Option<Time>) {
    threshold.Some? ==> Normal(threshold.value)
  }

  lemma IsDueExact(due: Time, now: Time, threshold: Option<Time>)
    requires Normal(due) && Normal(now) && NormalThreshold(threshold)
    ensures IsDue(due, now, threshold) <==> Micros(due) <= Micros(now) + Slack(threshold)
  {
    DiffIsExact(now, due);
    var diff := Diff(now, due);
    if threshold.Some? {
      DiffIsExact(threshold.value, diff);
    }
  }

  /** What a caller means by a threshold: due at most that much after now. */
  ghost predicate HonoursThreshold(threshold: Time) {
    forall due, now | Normal(due) && Normal(now) ::
      IsDue(due, now, Some(threshold)) <==> Micros(due) <= Micros(now) + Micros(threshold)
  }

  /** The test honours its threshold exactly when the threshold is at least -1 microsecond. */
  lemma ThresholdHonouredIff(threshold: Time)
    requires Normal(threshold)
    ensures HonoursThreshold(threshold) <==> Micros(threshold) >= -1
  {
    if Micros(threshold) >= -1 {
      forall due, now | Normal(due) && Normal(now)
        ensures IsDue(due, now, Some(threshold)) <==> Micros(due) <= Micros(now) + Micros(threshold)
      {
        IsDueExact(due, now, Some(threshold));
      }
    } else {
      // One microsecond late, so delivered, although the threshold asks for more.
      var due, now := Time(0, 0), Time(0, 1);
      IsDueExact(due, now, Some(threshold));
      assert !(IsDue(due, now, Some(threshold)) <==> Micros(due) <= Micros(now) + Micros(threshold));
    }
  }

  /** _osc_is_msg_due. The clock reading is a parameter; diff is the caller's scratch
      object, overwritten by the first subtraction and aliased by the second. */
  method IsMsgDue(due: Time, threshold: Timeval?, diff: Timeval, now: Time) returns (r: bool)
    requires threshold != diff
    modifies diff
    ensures r == IsDue(due, now, if threshold == null then None else Some(old(threshold.Value())))
  {
    var nowTv := new Timeval(now);
    var dueTv := new Timeval(due);
    TimevalDiff(nowTv, dueTv, diff);
    if diff.sec < 0 {
      return true;
    } else if threshold == null {
      return diff.sec == 0 && diff.usec == 0;
    } else {
      TimevalDiff(threshold, diff, diff);
      return diff.sec < 0 || (diff.sec == 0 && diff.usec == 0);
    }
  }
}
