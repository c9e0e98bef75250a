/** Bit-set cron schedules and the search for the next activation time. */
module CronSpec {
  import opened Arithmetic
  import opened Bits
  import opened Calendar

  /** A zone of fixed offset, in seconds east of UTC; `Local` means the zone of the time at hand. */
  datatype Location = Local | Fixed(offset: int)

  /** One bit set per field; bit 63 of a field records that it held a star. */
  datatype SpecSchedule = SpecSchedule(
    second: Word, minute: Word, hour: Word, dom: Word, month: Word, dow: Word, location: Location)

  const NANOS_PER_SECOND := 1_000_000_000

  /** An instant, as seconds since January 1 of year 1 in UTC, shown in a zone. */
  datatype Time = Time(sec: int, nanos: nat, offset: int)

  const ZERO_TIME := Time(0, 0, 0)

  /** The crontab day rule: either field decides when both are restricted, else both must agree. */
  predicate DayMatches(s: SpecSchedule, u: int) {
    var domMatch := Has(s.dom, Day(u));
    var dowMatch := Has(s.dow, Weekday(u));
    if HasStar(s.dom) || HasStar(s.dow) then domMatch && dowMatch else domMatch || dowMatch
  }

  // The fields of local second `u` that agree with the schedule, from the coarsest down.
  predicate MonthOk(s: SpecSchedule, u: int) { Has(s.month, Month(u)) }
  predicate DayOk(s: SpecSchedule, u: int) { MonthOk(s, u) && DayMatches(s, u) }
  predicate HourOk(s: SpecSchedule, u: int) { DayOk(s, u) && Has(s.hour, Hour(u)) }
  predicate MinuteOk(s: SpecSchedule, u: int) { HourOk(s, u) && Has(s.minute, Minute(u)) }
  predicate Matches(s: SpecSchedule, u: int) { MinuteOk(s, u) && Has(s.second, Second(u)) }

  /** Go's `Truncate(time.Minute)`, which rounds down in UTC whatever the zone of the time is. */
  function TruncateMinute(u: int, offset: int): int {
    u - (u - offset) % SECONDS_PER_MINUTE
  }

  /** The parameters of one search, in local seconds: it starts at `start` and gives up after year `limit`. */
  datatype Search = Search(s: SpecSchedule, start: int, offset: int, limit: int)

  /** The second of the local minute at which a UTC minute begins. */
  function Skew(q: Search): int { q.offset % SECONDS_PER_MINUTE }

  /** The search starts in a minute that mismatches while every coarser field agrees, in a zone
      whose minutes do not begin with those of UTC: rounding down to a UTC minute then leaves
      the search partway into a local minute. */
  predicate SkewedStart(q: Search) {
    Skew(q) != 0 && HourOk(q.s, q.start) && !Has(q.s.minute, Minute(q.start))
  }

  /** The seconds such a search jumps over: the first ones of the first minute that agrees. */
  ghost predicate Skipped(q: Search, u: int) {
    && SkewedStart(q)
    && Second(u) < Skew(q)
    && forall v | q.start <= v < MinuteStart(u) :: !MinuteOk(q.s, v)
  }

  ghost predicate Hit(q: Search, u: int) {
    Matches(q.s, u) && !Skipped(q, u)
  }

  ghost predicate FirstHit(q: Search, u: int) {
    && q.start <= u && Year(u) <= q.limit && Hit(q, u)
    && forall v | q.start <= v < u :: !Hit(q, v)
  }

  /** The specification of a next activation time: the least second that agrees in every field. */
  ghost predicate FirstMatch(q: Search, u: int) {
    && q.start <= u && Year(u) <= q.limit && Matches(q.s, u)
    && forall v | q.start <= v < u :: !Matches(q.s, v)
  }

  // ----- The invariant of the search -----

  /** The first field that disagrees at `w`, if any, has every finer field at its minimum. */
  ghost predicate Aligned(s: SpecSchedule, w: int) {
    && (!MonthOk(s, w) ==> w == MonthStart(w))
    && (MonthOk(s, w) && !DayOk(s, w) ==> w == DayStart(w))
    && (DayOk(s, w) && !HourOk(s, w) ==> w == HourStart(w))
    && (HourOk(s, w) && !MinuteOk(s, w) ==> w == MinuteStart(w))
  }

  /** What holds at `WRAP` and at the head of the month, day, hour and minute loops. The search
      is `rho` seconds into a local minute while it looks for the first minute that agrees
      after a skewed start, and `seen` is a second of that minute afterwards. */
  ghost predicate At(q: Search, t: int, added: bool, rho: int, seen: int) {
    && q.start <= t
    && (forall v | q.start <= v < t :: !Hit(q, v))
    && (added ==> Aligned(q.s, t - rho))
    && (!added ==> t == q.start && rho == 0)
    && 0 <= rho < SECONDS_PER_MINUTE
    && (rho != 0 ==>
          && SkewedStart(q) && rho == Skew(q) && Second(t) == rho
          && forall v | q.start <= v < t - rho :: !MinuteOk(q.s, v))
    && (SkewedStart(q) && added && rho == 0 ==>
          q.start <= seen < MinuteStart(t) && MinuteOk(q.s, seen))
  }

  /** What holds at the head of the second loop: the rest of this minute is not skipped. */
  ghost predicate Scanning(q: Search, t: int, added: bool) {
    && q.start <= t
    && (forall v | q.start <= v < t :: !Hit(q, v))
    && (!added ==> t == q.start)
    && MinuteOk(q.s, t)
    && (forall v | t <= v < MinuteStart(t) + SECONDS_PER_MINUTE :: !Skipped(q, v))
  }

  lemma Begin(q: Search)
    ensures At(q, q.start, false, 0, q.start)
  {
  }

  // ----- Seconds that share fields -----

  lemma DayAgrees(s: SpecSchedule, u: int, v: int)
    requires DayStart(u) <= v < DayStart(u) + SECONDS_PER_DAY
    ensures MonthOk(s, v) == MonthOk(s, u) && DayOk(s, v) == DayOk(s, u)
    ensures Year(v) == Year(u) && Month(v) == Month(u) && Day(v) == Day(u)
    ensures DayStart(v) == DayStart(u) && MonthStart(v) == MonthStart(u) && NextMonthStart(v) == NextMonthStart(u)
  {
    hide Year, Month, Day, Weekday, Has, DayStart, MonthStart, NextMonthStart;
    SameDay(u, v);
  }

  lemma HourAgrees(s: SpecSchedule, u: int, v: int)
    requires HourStart(u) <= v < HourStart(u) + SECONDS_PER_HOUR
    ensures DayStart(u) <= v < DayStart(u) + SECONDS_PER_DAY
    ensures HourOk(s, v) == HourOk(s, u) && Hour(v) == Hour(u) && HourStart(v) == HourStart(u)
  {
    hide Year, Month, Day, Hour, DayOk, Has, DayStart, HourStart, MonthStart, NextMonthStart;
    SameHour(u, v);
    DayAgrees(s, u, v);
  }

  lemma MinuteAgrees(s: SpecSchedule, u: int, v: int)
    requires MinuteStart(u) <= v < MinuteStart(u) + SECONDS_PER_MINUTE
    ensures MonthOk(s, v) == MonthOk(s, u) && DayOk(s, v) == DayOk(s, u)
    ensures HourOk(s, v) == HourOk(s, u) && MinuteOk(s, v) == MinuteOk(s, u)
    ensures Year(v) == Year(u) && Month(v) == Month(u) && Day(v) == Day(u)
    ensures Hour(v) == Hour(u) && Minute(v) == Minute(u)
    ensures MonthStart(v) == MonthStart(u) && NextMonthStart(v) == NextMonthStart(u)
    ensures DayStart(v) == DayStart(u) && HourStart(v) == HourStart(u) && MinuteStart(v) == MinuteStart(u)
  {
    hide Year, Month, Day, Hour, Minute, MonthOk, DayOk, HourOk, Has, DayStart, HourStart, MinuteStart, MonthStart,
         NextMonthStart;
    SameMinute(u, v);
    HourAgrees(s, u, v);
    DayAgrees(s, u, v);
  }

  /** Where a field stops agreeing from one second to the next, the new second begins its unit. */
  lemma Boundary(s: SpecSchedule, w: int)
    ensures MonthOk(s, w - 1) && !MonthOk(s, w) ==> w == MonthStart(w)
    ensures DayOk(s, w - 1) && !DayOk(s, w) && MonthOk(s, w) ==> w == DayStart(w)
    ensures HourOk(s, w - 1) && !HourOk(s, w) && DayOk(s, w) ==> w == HourStart(w)
  {
    hide Year, Month, DayOk, HourOk, Has, DayStart, HourStart, MonthStart, NextMonthStart;
    MonthBlock(w);
    StartBounds(w);
    if MonthStart(w) <= w - 1 {
      SameMonth(w, w - 1);
    }
    if DayStart(w) <= w - 1 {
      DayAgrees(s, w, w - 1);
    }
    if HourStart(w) <= w - 1 {
      HourAgrees(s, w, w - 1);
    }
  }

  lemma Coarser(s: SpecSchedule, u: int)
    ensures MinuteOk(s, u) ==> HourOk(s, u)
    ensures HourOk(s, u) ==> DayOk(s, u)
    ensures DayOk(s, u) ==> MonthOk(s, u)
  {
    hide Has, DayMatches;
  }

  // ----- Steps -----

  /** Moving on over seconds of which none lies in a minute that agrees keeps the invariant. */
  lemma Advance(q: Search, t: int, added: bool, rho: int, seen: int, w: int, rho': int)
    requires At(q, t, added, rho, seen)
    requires t < w + rho' && 0 <= rho' < SECONDS_PER_MINUTE && w == MinuteStart(w)
    requires rho' == (if added then rho else if SkewedStart(q) then Skew(q) else 0)
    requires forall v | t - rho <= v < w :: !MinuteOk(q.s, v)
    requires Aligned(q.s, w)
    ensures At(q, w + rho', true, rho', seen)
  {
    hide Has, MinuteOk, Aligned, HourOk, Minute, MinuteStart, Second, Skew;
    WithinMinute(w, rho');
    forall v | q.start <= v < w + rho'
      ensures !Hit(q, v)
    {
      if w <= v && t <= v {
        WithinMinute(w, v - w);
      }
    }
    StartBounds(t);
    SkewRange(q);
    if added && rho == 0 {
      StartOrder(t, w);
    }
  }

  lemma SkewRange(q: Search)
    ensures 0 <= Skew(q) < SECONDS_PER_MINUTE
  {
  }

  lemma StartOrder(t: int, w: int)
    requires t < w && w == MinuteStart(w)
    ensures MinuteStart(t) < w
  {
  }

  /** The search stays in the minute in which it is `rho` seconds. */
  lemma Phase(q: Search, t: int, added: bool, rho: int, seen: int)
    requires At(q, t, added, rho, seen)
    ensures MinuteStart(t) <= t - rho < MinuteStart(t) + SECONDS_PER_MINUTE
    ensures rho != 0 ==> t - rho == MinuteStart(t)
  {
    hide Has, MinuteOk, Aligned, HourOk, Minute, MinuteStart, Second, Skew, Hit, SkewedStart;
    StartBounds(t);
  }

  lemma MonthStep(q: Search, t: int, added: bool, rho: int, seen: int, t': int)
    requires At(q, t, added, rho, seen) && !MonthOk(q.s, t)
    requires t' == AddMonth(if added then t else MonthStart(t))
    ensures At(q, t', true, rho, seen) && t < t'
    ensures Month(t') != 1 ==> Year(t') == Year(t)
  {
    hide Year, Month, Day, Hour, Minute, Has, MonthStart, NextMonthStart, DayStart, HourStart, MinuteStart,
         DayMatches, Hit, Second, Skew;
    var u, w := t - rho, NextMonthStart(t);
    Phase(q, t, added, rho, seen);
    MinuteAgrees(q.s, t, u);
    MonthBlock(t);
    MonthStartFixed(t);
    assert t' == w + rho;
    NextMonth(t);
    StartsNest(w);
    WithinMinute(w, rho);
    MinuteAgrees(q.s, w, t');
    MonthBlock(u);
    forall v | u <= v < w
      ensures !MinuteOk(q.s, v)
    {
      SameMonth(t, v);
    }
    assert Aligned(q.s, w);
    Advance(q, t, added, rho, seen, w, rho);
  }

  lemma MonthStartFixed(t: int)
    ensures MonthStart(MonthStart(t)) == MonthStart(t)
    ensures NextMonthStart(MonthStart(t)) == NextMonthStart(t)
  {
    hide Year, Month, FirstDay;
    MonthBlock(t);
    SameMonth(t, MonthStart(t));
  }

  lemma DayStep(q: Search, t: int, added: bool, rho: int, seen: int, t': int)
    requires At(q, t, added, rho, seen) && MonthOk(q.s, t) && !DayMatches(q.s, t)
    requires t' == (if added then t else DayStart(t)) + SECONDS_PER_DAY
    ensures At(q, t', true, rho, seen) && t < t' && Hour(t') == 0
    ensures Day(t') != 1 ==> MonthOk(q.s, t') && Year(t') == Year(t)
  {
    hide Year, Month, Day, Hour, Minute, Has, MonthStart, NextMonthStart, DayStart, HourStart, MinuteStart,
         MonthOk, DayMatches, Hit, Second, Skew;
    var u, w := t - rho, DayStart(t) + SECONDS_PER_DAY;
    Phase(q, t, added, rho, seen);
    MinuteAgrees(q.s, t, u);
    StartBounds(t);
    StartBounds(u);
    assert t' == w + rho;
    NextDay(q.s, t, w);
    WithinMinute(w, rho);
    MinuteAgrees(q.s, w, t');
    forall v | u <= v < w
      ensures !MinuteOk(q.s, v)
    {
      DayAgrees(q.s, t, v);
    }
    Advance(q, t, added, rho, seen, w, rho);
  }

  lemma NextDay(s: SpecSchedule, t: int, w: int)
    requires MonthOk(s, t) && w == DayStart(t) + SECONDS_PER_DAY
    ensures Aligned(s, w) && w == MinuteStart(w) && Hour(w) == 0
    ensures Day(w) != 1 ==> MonthOk(s, w) && Year(w) == Year(t)
  {
    hide Year, Month, Day, Hour, Minute, Has, DayStart, HourStart, MinuteStart, MonthStart, NextMonthStart, DayMatches;
    NextStarts(t);
    StartsNest(w);
    FirstOfMonth(w);
    if Day(w) != 1 {
      DayBefore(w);
      StartBounds(t);
      DayAgrees(s, t, DayStart(t));
    }
  }

  lemma HourStep(q: Search, t: int, added: bool, rho: int, seen: int, t': int)
    requires At(q, t, added, rho, seen) && DayOk(q.s, t) && !Has(q.s.hour, Hour(t))
    requires t' == (if added then t else HourStart(t)) + SECONDS_PER_HOUR
    ensures At(q, t', true, rho, seen) && t < t'
    ensures Hour(t') != 0 ==> DayOk(q.s, t') && Year(t') == Year(t)
  {
    hide Year, Month, Day, Hour, Minute, Has, MonthStart, NextMonthStart, DayStart, HourStart, MinuteStart,
         MonthOk, DayMatches, Hit, Second, Skew;
    var u, w := t - rho, HourStart(t) + SECONDS_PER_HOUR;
    Phase(q, t, added, rho, seen);
    MinuteAgrees(q.s, t, u);
    StartBounds(t);
    StartBounds(u);
    assert t' == w + rho;
    NextHour(q.s, t, w);
    WithinMinute(w, rho);
    MinuteAgrees(q.s, w, t');
    forall v | u <= v < w
      ensures !MinuteOk(q.s, v)
    {
      HourAgrees(q.s, t, v);
    }
    Advance(q, t, added, rho, seen, w, rho);
  }

  lemma NextHour(s: SpecSchedule, t: int, w: int)
    requires DayOk(s, t) && w == HourStart(t) + SECONDS_PER_HOUR
    ensures Aligned(s, w) && w == MinuteStart(w)
    ensures Hour(w) != 0 ==> DayOk(s, w) && Year(w) == Year(t)
  {
    hide Year, Month, Day, Hour, Minute, Has, MonthOk, DayOk, DayStart, HourStart, MinuteStart, MonthStart,
      NextMonthStart;
    NextStarts(t);
    StartsNest(w);
    StartBounds(t);
    StartBounds(w);
    HourAgrees(s, t, w - 1);
    DayAgrees(s, t, w - 1);
    Coarser(s, w);
    Coarser(s, w - 1);
    if Hour(w) != 0 {
      DayAgrees(s, w, w - 1);
    }
    Boundary(s, w);
  }

  /** The step that can leave the search partway into a minute: `rho` becomes the skew of the zone. */
  lemma MinuteStep(q: Search, t: int, added: bool, rho: int, seen: int, t': int, rho': int)
    requires At(q, t, added, rho, seen) && HourOk(q.s, t) && !Has(q.s.minute, Minute(t))
    requires t' == (if added then t else TruncateMinute(t, q.offset)) + SECONDS_PER_MINUTE
    requires rho' == if added then rho else Skew(q)
    ensures At(q, t', true, rho', seen) && t < t'
    ensures Minute(t') != 0 ==> HourOk(q.s, t') && Year(t') == Year(t)
  {
    hide Year, Month, Day, Hour, Minute, Has, MonthStart, NextMonthStart, DayStart, HourStart, MinuteStart,
         MonthOk, DayOk, HourOk, Hit, Second, Skew, TruncateMinute;
    var u, w := t - rho, t' - rho';
    Phase(q, t, added, rho, seen);
    MinuteAgrees(q.s, t, u);
    StartBounds(t);
    SkewRange(q);
    if !added {
      RoundDown(t, q.offset);
      assert Skew(q) == q.offset % SECONDS_PER_MINUTE by { SkewIs(q); }
    }
    assert w == MinuteStart(t) || w == MinuteStart(t) + SECONDS_PER_MINUTE;
    NextMinute(q.s, t, w);
    WithinMinute(w, rho');
    MinuteAgrees(q.s, w, t');
    forall v | u <= v < w
      ensures !MinuteOk(q.s, v)
    {
      MinuteAgrees(q.s, t, v);
    }
    Advance(q, t, added, rho, seen, w, rho');
  }

  lemma SkewIs(q: Search)
    ensures Skew(q) == q.offset % SECONDS_PER_MINUTE
  {
  }

  lemma NextMinute(s: SpecSchedule, t: int, w: int)
    requires HourOk(s, t) && (w == MinuteStart(t) || w == MinuteStart(t) + SECONDS_PER_MINUTE)
    ensures Aligned(s, w) && w == MinuteStart(w)
    ensures Minute(w) != 0 ==> HourOk(s, w) && Year(w) == Year(t)
  {
    hide Year, Month, Day, Hour, Minute, Has, MonthOk, DayOk, HourOk, DayStart, HourStart, MinuteStart, MonthStart,
         NextMonthStart;
    NextStarts(t);
    StartsNest(w);
    StartBounds(w);
    Coarser(s, w);
    Coarser(s, w - 1);
    if w == MinuteStart(t) {
      MinuteAgrees(s, t, w);
    } else {
      MinuteAgrees(s, t, w - 1);
      if Minute(w) != 0 {
        HourAgrees(s, w, w - 1);
        DayAgrees(s, w, w - 1);
      }
      Boundary(s, w);
    }
  }

  /** Rounding down to a UTC minute lands `offset % 60` seconds into a local minute. */
  lemma RoundDown(t: int, offset: int)
    ensures var x := TruncateMinute(t, offset);
      && t - SECONDS_PER_MINUTE < x <= t
      && x % SECONDS_PER_MINUTE == offset % SECONDS_PER_MINUTE
      && (x == MinuteStart(t) + offset % SECONDS_PER_MINUTE
          || x == MinuteStart(t) + offset % SECONDS_PER_MINUTE - SECONDS_PER_MINUTE)
  {
    var a, b := t / 60, offset / 60;
    var x, y := t % 60, offset % 60;
    if y <= x {
      QuotientUnique(t - offset, 60, a - b, x - y);
      QuotientUnique(t - (x - y), 60, a, y);
    } else {
      QuotientUnique(t - offset, 60, a - b - 1, x - y + 60);
      QuotientUnique(t - (x - y + 60), 60, a - 1, y);
    }
  }

  lemma ScanBegin(q: Search, t: int, added: bool, rho: int, seen: int)
    requires At(q, t, added, rho, seen) && MinuteOk(q.s, t)
    ensures Scanning(q, t, added)
  {
    hide Minute, Has, HourOk, Aligned, MinuteStart, Second, Skew, Hit;
    StartBounds(t);
    forall v | t <= v < MinuteStart(t) + SECONDS_PER_MINUTE
      ensures !Skipped(q, v)
    {
      SameMinute(t, v);
      StartBounds(v);
    }
  }

  lemma SecondStep(q: Search, t: int, added: bool)
    requires Scanning(q, t, added) && !Has(q.s.second, Second(t))
    ensures Second(t + 1) == 0 ==> At(q, t + 1, true, 0, t)
    ensures Second(t + 1) != 0 ==> Scanning(q, t + 1, true) && Year(t + 1) == Year(t)
  {
    hide Year, Month, Day, Weekday, Hour, Minute, Has, HourOk, MonthStart, NextMonthStart;
    assert !Matches(q.s, t);
    if Second(t + 1) != 0 {
      assert MinuteStart(t + 1) == MinuteStart(t);
      MinuteAgrees(q.s, t, t + 1);
    } else {
      assert MinuteStart(t + 1) == t + 1;
      assert MinuteOk(q.s, t) ==> HourOk(q.s, t);
      assert HourOk(q.s, t) && DayOk(q.s, t) && MonthOk(q.s, t) by { Coarser(q.s, t); }
      Boundary(q.s, t + 1);
      Coarser(q.s, t + 1);
    }
  }

  lemma Found(q: Search, t: int, added: bool)
    requires Scanning(q, t, added) && Has(q.s.second, Second(t)) && Year(t) <= q.limit
    ensures FirstHit(q, t)
  {
  }

  lemma FirstHitUnique(q: Search, t: int)
    requires FirstHit(q, t)
    ensures q.start <= t
    ensures forall u | FirstHit(q, u) :: u == t
  {
    hide Year, Hit;
    forall u | FirstHit(q, u)
      ensures u == t
    {
    }
  }

  lemma Exhausted(q: Search, t: int, added: bool, rho: int, seen: int)
    requires At(q, t, added, rho, seen) && Year(t) > q.limit
    ensures forall u :: !FirstHit(q, u)
  {
    forall u
      ensures !FirstHit(q, u)
    {
      if t <= u {
        YearMonotone(t, u);
      }
    }
  }

  // ----- When the first hit is the first match -----

  ghost predicate InWindow(q: Search, u: int) {
    q.start <= u && Year(u) <= q.limit
  }

  /** The one case in which the search misses an activation, as a caller can tell before it runs:
      a skewed start, a scheduled second before the skew, and some minute left that agrees. */
  ghost predicate Misses(q: Search) {
    && SkewedStart(q)
    && (exists k :: 0 <= k < Skew(q) && Has(q.s.second, k))
    && (exists m :: InWindow(q, m) && MinuteOk(q.s, m))
  }

  lemma WholeMinutes(q: Search)
    ensures q.offset % SECONDS_PER_MINUTE == 0 ==> !Misses(q)
  {
  }

  lemma LeastMatch(q: Search, u: int) returns (v: int)
    requires InWindow(q, u) && Matches(q.s, u)
    ensures FirstMatch(q, v) && v <= u
  {
    hide Year, Matches;
    v := q.start;
    while !Matches(q.s, v)
      invariant q.start <= v <= u
      invariant forall w | q.start <= w < v :: !Matches(q.s, w)
      decreases u - v
    {
      v := v + 1;
    }
    YearMonotone(v, u);
  }

  lemma LeastMinute(q: Search, m: int) returns (v: int)
    requires InWindow(q, m) && MinuteOk(q.s, m)
    ensures InWindow(q, v) && MinuteOk(q.s, v)
    ensures forall w | q.start <= w < v :: !MinuteOk(q.s, w)
  {
    hide Year, MinuteOk;
    v := q.start;
    while !MinuteOk(q.s, v)
      invariant q.start <= v <= m
      invariant forall w | q.start <= w < v :: !MinuteOk(q.s, w)
      decreases m - v
    {
      v := v + 1;
    }
    YearMonotone(v, m);
  }

  lemma SkippedMatchMisses(q: Search, u: int)
    requires InWindow(q, u)
    ensures Matches(q.s, u) && Skipped(q, u) ==> Misses(q)
  {
    hide Year, Has, HourOk, Minute;
    if Matches(q.s, u) && Skipped(q, u) {
      assert 0 <= Second(u) < Skew(q) && Has(q.s.second, Second(u));
    }
  }

  lemma HitsAgree(q: Search)
    requires !Misses(q)
    ensures forall u :: FirstHit(q, u) <==> FirstMatch(q, u)
  {
    forall u
      ensures FirstHit(q, u) <==> FirstMatch(q, u)
    {
      hide Year, Matches, Hit;
      if InWindow(q, u) {
        SkippedMatchMisses(q, u);
        forall v | q.start <= v < u
          ensures Hit(q, v) <==> Matches(q.s, v)
        {
          YearMonotone(v, u);
          SkippedMatchMisses(q, v);
        }
      }
    }
  }

  /** Where the guard holds, the true answer exists and is one of the seconds jumped over. */
  lemma MissedMatch(q: Search) returns (u: int)
    requires Misses(q)
    ensures FirstMatch(q, u) && !FirstHit(q, u)
  {
    hide Year, Has, HourOk, Minute, Hour, Month, Day, MinuteOk, FirstMatch;
    var k :| 0 <= k < Skew(q) && Has(q.s.second, k);
    var m :| InWindow(q, m) && MinuteOk(q.s, m);
    var v := LeastMinute(q, m);
    MinuteBegins(q, v);
    WithinMinute(v, k);
    MinuteAgrees(q.s, v, v + k);
    u := LeastMatch(q, v + k);
    MatchNeedsMinute(q, u);
    WithinMinute(v, u - v);
    assert Skipped(q, u);
  }

  lemma MatchNeedsMinute(q: Search, u: int)
    requires FirstMatch(q, u)
    ensures MinuteOk(q.s, u) && q.start <= u
  {
  }

  lemma MinuteBegins(q: Search, v: int)
    requires SkewedStart(q) && q.start <= v && MinuteOk(q.s, v)
    requires forall w | q.start <= w < v :: !MinuteOk(q.s, w)
    ensures v == MinuteStart(v)
  {
    hide Year, Has, Minute;
    if v != MinuteStart(v) {
      MinuteAgrees(q.s, v, v - 1);
      if v - 1 < q.start {
        MinuteAgrees(q.s, v, q.start);
      }
    }
  }

  /** The first second of the second minute of every hour. */
  const HOURLY_AT_ONE := SpecSchedule({0}, {1}, ALL_BITS, ALL_BITS, ALL_BITS, ALL_BITS, Local)

  /** Asked 59 seconds into an hour, in a zone 30 seconds east of UTC, that schedule misses the
      activation one second later. */
  lemma SkewExample()
    ensures Misses(Search(HOURLY_AT_ONE, 59, 30, 6))
  {
    hide Year, Month, Day, Has;
    var q := Search(HOURLY_AT_ONE, 59, 30, 6);
    DayFields(59, 1, 1);
    DayFields(60, 1, 1);
    HasIs(ALL_BITS, 0);
    HasIs(ALL_BITS, 1);
    HasIs({0}, 0);
    HasIs({1}, 0);
    HasIs({1}, 1);
    assert HourOk(q.s, 59) && MinuteOk(q.s, 60);
    assert InWindow(q, 60);
    assert 0 <= 0 < Skew(q) && Has(q.s.second, 0);
  }

  // ----- The search -----

  function SearchOffset(s: SpecSchedule, t: Time): int {
    match s.location
    case Local => t.offset
    case Fixed(offset) => offset
  }

  function SearchFor(s: SpecSchedule, t: Time): Search {
    var offset := SearchOffset(s, t);
    var start := t.sec + offset + 1;
    Search(s, start, offset, Year(start) + 5)
  }

  /** `r` is the least second strictly after `t` that agrees in every field, or the zero time when
      no second up to the end of the limit year does. */
  ghost predicate IsNextActivation(s: SpecSchedule, t: Time, r: Time) {
    var q := SearchFor(s, t);
    && (forall u | FirstMatch(q, u) :: r == Time(u - q.offset, 0, t.offset))
    && ((forall u | InWindow(q, u) :: !Matches(s, u)) ==> r == ZERO_TIME)
    && (t.sec >= 0 && r == ZERO_TIME ==> forall u | InWindow(q, u) :: !Matches(s, u))
  }

  lemma Settle(s: SpecSchedule, t: Time, r: Time, found: bool, local: int)
    requires var q := SearchFor(s, t);
      if found then FirstHit(q, local) && r == Time(local - q.offset, 0, t.offset)
      else (forall u :: !FirstHit(q, u)) && r == ZERO_TIME
    ensures !Misses(SearchFor(s, t)) ==> IsNextActivation(s, t, r)
    ensures Misses(SearchFor(s, t)) && t.sec >= 0 ==> !IsNextActivation(s, t, r)
  {
    hide Year, Matches, Hit, Misses;
    var q := SearchFor(s, t);
    if found {
      FirstHitUnique(q, local);
    }
    if Misses(q) {
      var u := MissedMatch(q);
      assert FirstMatch(q, u) && !FirstHit(q, u);
    } else {
      HitsAgree(q);
      if u :| InWindow(q, u) && Matches(s, u) {
        var v := LeastMatch(q, u);
        FirstHitUnique(q, v);
      }
    }
  }

  /** The search proper, on local seconds. */
  method FindNext(s: SpecSchedule, start: int, offset: int) returns (found: bool, local: int)
    ensures var q := Search(s, start, offset, Year(start) + 5);
      if found then FirstHit(q, local) else forall u :: !FirstHit(q, u)
  {
    hide Year, Month, Day, Weekday, Hour, Minute, Second, Has, DayMatches, At, Scanning, Hit, FirstHit, Skew,
         YearStart, MonthStart, AddMonth, DayStart, HourStart, TruncateMinute;
    local := start;
    var added := false;
    var yearLimit := Year(local) + 5;
    ghost var q := Search(s, local, offset, yearLimit);
    ghost var rho, seen := 0, local;
    Begin(q);
    label WRAP:
    while true
      invariant At(q, local, added, rho, seen)
      decreases YearStart(yearLimit + 1) - local
    {
      ghost var arrival := local;
      YearAfter(local, yearLimit);
      if Year(local) > yearLimit {
        Exhausted(q, local, added, rho, seen);
        return false, local;
      }

      while !Has(s.month, Month(local))
        invariant At(q, local, added, rho, seen) && Year(local) <= yearLimit && arrival <= local
        decreases YearStart(yearLimit + 1) - local
      {
        YearAfter(local, yearLimit);
        ghost var before, wasAdded := local, added;
        if !added {
          added := true;
          local := MonthStart(local);
        }
        local := AddMonth(local);
        MonthStep(q, before, wasAdded, rho, seen, local);
        if Month(local) == 1 {
          continue WRAP;
        }
      }

      while !DayMatches(s, local)
        invariant At(q, local, added, rho, seen) && Year(local) <= yearLimit && arrival <= local
        invariant MonthOk(s, local)
        decreases YearStart(yearLimit + 1) - local
      {
        YearAfter(local, yearLimit);
        ghost var before, wasAdded := local, added;
        if !added {
          added := true;
          local := DayStart(local);
        }
        local := local + SECONDS_PER_DAY;
        DayStep(q, before, wasAdded, rho, seen, local);
        if Hour(local) != 0 {
          // A correction for midnights that daylight saving removes: never taken at a fixed offset.
          local := if Hour(local) > 12 then local + (24 - Hour(local)) * SECONDS_PER_HOUR
                   else local - Hour(local) * SECONDS_PER_HOUR;
        }
        if Day(local) == 1 {
          continue WRAP;
        }
      }

      while !Has(s.hour, Hour(local))
        invariant At(q, local, added, rho, seen) && Year(local) <= yearLimit && arrival <= local
        invariant DayOk(s, local)
        decreases YearStart(yearLimit + 1) - local
      {
        YearAfter(local, yearLimit);
        ghost var before, wasAdded := local, added;
        if !added {
          added := true;
          local := HourStart(local);
        }
        local := local + SECONDS_PER_HOUR;
        HourStep(q, before, wasAdded, rho, seen, local);
        if Hour(local) == 0 {
          continue WRAP;
        }
      }

      while !Has(s.minute, Minute(local))
        invariant At(q, local, added, rho, seen) && Year(local) <= yearLimit && arrival <= local
        invariant HourOk(s, local)
        decreases YearStart(yearLimit + 1) - local
      {
        YearAfter(local, yearLimit);
        ghost var before, wasAdded, rho0 := local, added, rho;
        if !added {
          added := true;
          local := TruncateMinute(local, offset);
          rho := Skew(q);
        }
        local := local + SECONDS_PER_MINUTE;
        MinuteStep(q, before, wasAdded, rho0, seen, local, rho);
        if Minute(local) == 0 {
          continue WRAP;
        }
      }

      ScanBegin(q, local, added, rho, seen);
      while !Has(s.second, Second(local))
        invariant Scanning(q, local, added) && Year(local) <= yearLimit && arrival <= local
        decreases YearStart(yearLimit + 1) - local
      {
        YearAfter(local, yearLimit);
        SecondStep(q, local, added);
        rho, seen := 0, local;
        added := true;
        local := local + 1;
        if Second(local) == 0 {
          continue WRAP;
        }
      }
      Found(q, local, added);
      return true, local;
    }
  }

  /** The next activation strictly after `t`, or the zero time. For an instant of year 1 or later the
      answer is right exactly when the search is not one that misses an activation, which it
      never is in a zone offset from UTC by whole minutes. */
  method Next(s: SpecSchedule, t: Time) returns (r: Time)
    ensures !Misses(SearchFor(s, t)) ==> IsNextActivation(s, t, r)
    ensures Misses(SearchFor(s, t)) && t.sec >= 0 ==> !IsNextActivation(s, t, r)
    ensures SearchOffset(s, t) % SECONDS_PER_MINUTE == 0 ==> IsNextActivation(s, t, r)
    ensures var q := SearchFor(s, t);
      || (FirstHit(q, r.sec + q.offset) && r == Time(r.sec, 0, t.offset) && t.sec < r.sec)
      || ((forall u :: !FirstHit(q, u)) && r == ZERO_TIME)
  {
    hide Year, Hit, IsNextActivation, Misses;
    var offset := match s.location case Local => t.offset case Fixed(o) => o;
    // Start at the upcoming second.
    var found, local := FindNext(s, t.sec + offset + 1, offset);
    ghost var q := SearchFor(s, t);
    WholeMinutes(q);
    if found {
      FirstHitUnique(q, local);
    }
    r := if found then Time(local - offset, 0, t.offset) else ZERO_TIME;
    Settle(s, t, r, found, local);
  }
}
