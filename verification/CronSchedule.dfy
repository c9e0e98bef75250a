/** Cron specifications as schedules of the run loop. */
module CronSchedule {
  import opened Calendar
  import opened CronLoop
  import CronSpec
  import opened Texts

  type Time = CronSpec.Time
  const NANOS := CronSpec.NANOS_PER_SECOND

  /** An instant in the zone of the loop. */
  function TimeOf(now: Instant, offset: int): Time { CronSpec.Time(now / NANOS, now % NANOS, offset) }

  /** The first hit of the search after `t`, in nanoseconds; an activation at the zero time is taken for none. */
  ghost function ActivationAfter(s: CronSpec.SpecSchedule, t: Time): Option<Instant> {
    var q := CronSpec.SearchFor(s, t);
    if u :| CronSpec.FirstHit(q, u) && u != q.offset then Some((u - q.offset) * NANOS) else None
  }

  /** The schedule that a specification is to the loop. */
  ghost function ScheduleOf(s: CronSpec.SpecSchedule, offset: int): Schedule {
    now => ActivationAfter(s, TimeOf(now, offset))
  }

  lemma Later(s: CronSpec.SpecSchedule, t: Time, u: int)
    requires CronSpec.FirstHit(CronSpec.SearchFor(s, t), u)
    ensures t.sec < u - CronSpec.SearchFor(s, t).offset
  {
    hide CronSpec.Hit;
  }

  /** Specifications keep the promise that the run loop relies on. */
  lemma SpecIsLawful(s: CronSpec.SpecSchedule, offset: int)
    ensures Lawful(ScheduleOf(s, offset))
  {
    hide CronSpec.FirstHit, CronSpec.SearchFor;
    forall now: Instant | ActivationAfter(s, TimeOf(now, offset)).Some?
      ensures now < ActivationAfter(s, TimeOf(now, offset)).value
    {
      var t := TimeOf(now, offset);
      var q := CronSpec.SearchFor(s, t);
      var u :| CronSpec.FirstHit(q, u) && u != q.offset && ActivationAfter(s, t) == Some((u - q.offset) * NANOS);
      Later(s, t, u);
      Scaled(now, u - q.offset);
    }
  }

  lemma Scaled(now: Instant, sec: int)
    requires now / NANOS < sec
    ensures now < sec * NANOS
  {
  }

  /** What the search returns is what the schedule gives the loop. */
  method NextActivation(s: CronSpec.SpecSchedule, now: Instant, offset: int) returns (r: Option<Instant>)
    ensures r == ScheduleOf(s, offset)(now)
  {
    hide CronSpec.FirstHit, CronSpec.SearchFor, CronSpec.Misses, CronSpec.IsNextActivation;
    var t := TimeOf(now, offset);
    var next := CronSpec.Next(s, t);
    OneHit(s, t);
    r := if next.sec == 0 && next.nanos == 0 then None else Some(next.sec * NANOS + next.nanos);
  }

  lemma OneHit(s: CronSpec.SpecSchedule, t: Time)
    ensures var q := CronSpec.SearchFor(s, t);
      forall u, v | CronSpec.FirstHit(q, u) && CronSpec.FirstHit(q, v) :: u == v
  {
    hide CronSpec.Hit;
  }

  /** In a zone offset by whole minutes, the loop is given the first second after now that agrees with the schedule, to
      the nanosecond, or none if no second agrees up to the end of the fifth year after that of the next second. */
  lemma ScheduleIsNext(s: CronSpec.SpecSchedule, offset: int, zone: int, now: Instant)
    requires now >= 0 && zone % 60 == 0
    requires s.location == CronSpec.Fixed(zone) || (s.location == CronSpec.Local && offset == zone)
    ensures var local, next := now / 1_000_000_000 + zone, ScheduleOf(s, offset)(now);
      if next.None? then forall u | u > local && Year(u) <= Year(local + 1) + 5 :: !CronSpec.Matches(s, u)
      else
        && now < next.value && next.value % 1_000_000_000 == 0
        && CronSpec.Matches(s, next.value / 1_000_000_000 + zone)
        && forall u | local < u < next.value / 1_000_000_000 + zone :: !CronSpec.Matches(s, u)
  {
    hide CronSpec.Matches, CronSpec.Misses, CronSpec.Hit, Year, Lawful;
    var t, local := TimeOf(now, offset), now / NANOS + zone;
    var q := CronSpec.SearchFor(s, t);
    assert q.offset == zone && q.start == local + 1 && q.limit == Year(local + 1) + 5;
    CronSpec.WholeMinutes(q);
    CronSpec.HitsAgree(q);
    SpecIsLawful(s, offset);
    assert ScheduleOf(s, offset)(now) == ActivationAfter(s, t);
    if u :| CronSpec.FirstHit(q, u) && u != zone {
      OneHit(s, t);
      assert CronSpec.FirstMatch(q, u);
      assert ActivationAfter(s, t) == Some((u - zone) * NANOS);
      Whole(u - zone);
      IsLater(s, offset, now);
    } else {
      forall u | u > local && Year(u) <= Year(local + 1) + 5
        ensures !CronSpec.Matches(s, u)
      {
        if CronSpec.Matches(s, u) {
          var v := CronSpec.LeastMatch(q, u);
          assert false;
        }
      }
    }
  }

  lemma Whole(k: int)
    ensures k * NANOS % NANOS == 0 && k * NANOS / NANOS == k
  {
  }

  lemma IsLater(s: CronSpec.SpecSchedule, offset: int, now: Instant)
    requires Lawful(ScheduleOf(s, offset)) && ScheduleOf(s, offset)(now).Some?
    ensures now < ScheduleOf(s, offset)(now).value
  {
  }
}
