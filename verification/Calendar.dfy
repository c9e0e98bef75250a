/** The proleptic Gregorian calendar in a zone of fixed offset.

    A local time is a number of seconds since 00:00 on January 1 of year 1, the
    origin that Go's `time` package uses for its zero time. All the accessors
    are total on `int`: years before year 1 are years like any other. */
module Calendar {
  import opened Arithmetic

  const SECONDS_PER_MINUTE := 60
  const SECONDS_PER_HOUR := 3600
  const SECONDS_PER_DAY := 86400

  predicate IsLeap(y: int) {
    y % 4 == 0 && (y % 100 != 0 || y % 400 == 0)
  }

  function YearLength(y: int): int {
    if IsLeap(y) then 366 else 365
  }

  /** The number of days from January 1 of year 1 to January 1 of year `y`. */
  function DaysBeforeYear(y: int): int {
    var p := y - 1;
    365 * p + p / 4 - p / 100 + p / 400
  }

  /** The number of days from January 1 to the first of month `m`; 13 stands for the end of the year. */
  function DaysBeforeMonth(leap: bool, m: int): int
    requires 1 <= m <= 13
  {
    var shift := if leap && m > 2 then 1 else 0;
    shift + [0, 31, 59, 90, 120, 151, 181, 212, 243, 273, 304, 334, 365][m - 1]
  }

  /** The year of day number `d`, by the 400, 100, 4 and 1 year cycles. */
  function YearOfDay(d: int): int {
    var n400, r400 := d / 146097, d % 146097;
    var n100 := if r400 / 36524 == 4 then 3 else r400 / 36524;
    var r100 := r400 - 36524 * n100;
    var n4, r4 := r100 / 1461, r100 % 1461;
    var n1 := if r4 / 365 == 4 then 3 else r4 / 365;
    400 * n400 + 100 * n100 + 4 * n4 + n1 + 1
  }

  /** The month that day `n` of a year (counted from zero) falls in. */
  function MonthOfYearDay(leap: bool, n: int): int {
    if n < DaysBeforeMonth(leap, 2) then 1
    else if n < DaysBeforeMonth(leap, 3) then 2
    else if n < DaysBeforeMonth(leap, 4) then 3
    else if n < DaysBeforeMonth(leap, 5) then 4
    else if n < DaysBeforeMonth(leap, 6) then 5
    else if n < DaysBeforeMonth(leap, 7) then 6
    else if n < DaysBeforeMonth(leap, 8) then 7
    else if n < DaysBeforeMonth(leap, 9) then 8
    else if n < DaysBeforeMonth(leap, 10) then 9
    else if n < DaysBeforeMonth(leap, 11) then 10
    else if n < DaysBeforeMonth(leap, 12) then 11
    else 12
  }

  function DayNumber(u: int): int { u / SECONDS_PER_DAY }
  function Year(u: int): int { YearOfDay(DayNumber(u)) }
  function YearDay(u: int): int { DayNumber(u) - DaysBeforeYear(Year(u)) }
  function Month(u: int): (m: int)
    ensures 1 <= m <= 12
  {
    MonthOfYearDay(IsLeap(Year(u)), YearDay(u))
  }
  function Day(u: int): int { YearDay(u) - DaysBeforeMonth(IsLeap(Year(u)), Month(u)) + 1 }

  /** Sunday is 0; January 1 of year 1 was a Monday. */
  function Weekday(u: int): int { (DayNumber(u) + 1) % 7 }
  function Hour(u: int): int { u / SECONDS_PER_HOUR % 24 }
  function Minute(u: int): int { u / SECONDS_PER_MINUTE % 60 }
  function Second(u: int): int { u % SECONDS_PER_MINUTE }

  /** The number of the first day of month `m` of year `y`; month 13 is January of the next year. */
  function FirstDay(y: int, m: int): int
    requires 1 <= m <= 13
  {
    DaysBeforeYear(y) + DaysBeforeMonth(IsLeap(y), m)
  }

  function YearStart(y: int): int { SECONDS_PER_DAY * DaysBeforeYear(y) }
  function MonthStart(u: int): int { SECONDS_PER_DAY * FirstDay(Year(u), Month(u)) }
  function NextMonthStart(u: int): int { SECONDS_PER_DAY * FirstDay(Year(u), Month(u) + 1) }
  function DayStart(u: int): int { u - u % SECONDS_PER_DAY }
  function HourStart(u: int): int { u - u % SECONDS_PER_HOUR }
  function MinuteStart(u: int): int { u - u % SECONDS_PER_MINUTE }

  /** Go's `AddDate(0, 1, 0)`: the same day and time of the next month, where a
      day past the end of that month spills over into the one after it. */
  function AddMonth(u: int): int {
    NextMonthStart(u) + (u - MonthStart(u))
  }

  // ----- Years -----

  lemma YearStep(y: int)
    ensures DaysBeforeYear(y + 1) == DaysBeforeYear(y) + YearLength(y)
    ensures DaysBeforeYear(y) < DaysBeforeYear(y + 1)
  {
    QuotientStep(y, 4);
    QuotientStep(y, 100);
    QuotientStep(y, 400);
    NestedRemainder(y, 4, 25);
    NestedRemainder(y, 100, 4);
  }

  lemma {:induction false} YearsMonotone(y: int, z: int)
    requires y <= z
    ensures DaysBeforeYear(y) <= DaysBeforeYear(z)
    decreases z - y
  {
    if y < z {
      YearsMonotone(y, z - 1);
      YearStep(z - 1);
    }
  }

  /** `YearOfDay` inverts `DaysBeforeYear`: every day lies in exactly the year computed for it. */
  lemma YearOfDayBounds(d: int)
    ensures DaysBeforeYear(YearOfDay(d)) <= d < DaysBeforeYear(YearOfDay(d) + 1)
  {
    var n400, r400 := d / 146097, d % 146097;
    var n100 := if r400 / 36524 == 4 then 3 else r400 / 36524;
    var r100 := r400 - 36524 * n100;
    var n4, r4 := r100 / 1461, r100 % 1461;
    var n1 := if r4 / 365 == 4 then 3 else r4 / 365;
    var p := 400 * n400 + 100 * n100 + 4 * n4 + n1;
    CycleCounts(n400, n100, n4, n1);
    assert YearOfDay(d) == p + 1;
    assert DaysBeforeYear(p + 1) == 146097 * n400 + 36524 * n100 + 1461 * n4 + 365 * n1;
    YearStep(p + 1);
    if n1 == 3 {
      CycleLeap(n400, n100, n4);
    }
  }

  lemma CycleCounts(a: int, b: int, c: int, e: int)
    requires 0 <= b <= 3 && 0 <= c <= 24 && 0 <= e <= 3
    ensures var p := 400 * a + 100 * b + 4 * c + e;
      p / 4 == 100 * a + 25 * b + c && p / 100 == 4 * a + b && p / 400 == a
  {
  }

  lemma CycleLeap(a: int, b: int, c: int)
    requires 0 <= b <= 3 && 0 <= c <= 24
    ensures IsLeap(400 * a + 100 * b + 4 * c + 4) <==> c != 24 || b == 3
  {
    var y := 400 * a + 100 * b + 4 * c + 4;
    QuotientUnique(y, 4, 100 * a + 25 * b + c + 1, 0);
    if c == 24 {
      QuotientUnique(y, 100, 4 * a + b + 1, 0);
      if b == 3 {
        QuotientUnique(y, 400, a + 1, 0);
      } else {
        QuotientUnique(y, 400, a, 100 * b + 100);
      }
    } else {
      QuotientUnique(y, 100, 4 * a + b, 4 * c + 4);
    }
  }

  lemma YearUnique(d: int, y: int)
    requires DaysBeforeYear(y) <= d < DaysBeforeYear(y + 1)
    ensures YearOfDay(d) == y
  {
    hide *;
    var z := YearOfDay(d);
    YearOfDayBounds(d);
    if z < y {
      YearsMonotone(z + 1, y);
    } else if y < z {
      YearsMonotone(y + 1, z);
    }
  }

  lemma YearMonotone(u: int, v: int)
    requires u <= v
    ensures Year(u) <= Year(v)
  {
    YearOfDayBounds(DayNumber(u));
    YearOfDayBounds(DayNumber(v));
    if Year(v) < Year(u) {
      YearsMonotone(Year(v) + 1, Year(u));
      assert false;
    }
  }

  /** Being past year `y` is a comparison with the first second after it. */
  lemma YearAfter(u: int, y: int)
    ensures Year(u) > y <==> u >= YearStart(y + 1)
  {
    YearOfDayBounds(DayNumber(u));
    if Year(u) > y {
      YearsMonotone(y + 1, Year(u));
    } else {
      YearsMonotone(Year(u) + 1, y + 1);
    }
  }

  // ----- Months -----

  lemma MonthBounds(leap: bool, n: int)
    requires 0 <= n < (if leap then 366 else 365)
    ensures DaysBeforeMonth(leap, MonthOfYearDay(leap, n)) <= n < DaysBeforeMonth(leap, MonthOfYearDay(leap, n) + 1)
  {
  }

  lemma MonthUnique(leap: bool, n: int, m: int)
    requires 1 <= m <= 12
    requires DaysBeforeMonth(leap, m) <= n < DaysBeforeMonth(leap, m + 1)
    ensures MonthOfYearDay(leap, n) == m
  {
  }

  /** A day within month `m` of year `y` has that year and month. */
  lemma DayFields(u: int, y: int, m: int)
    requires 1 <= m <= 12
    requires FirstDay(y, m) <= DayNumber(u) < FirstDay(y, m + 1)
    ensures Year(u) == y && Month(u) == m && Day(u) == DayNumber(u) - FirstDay(y, m) + 1
  {
    YearStep(y);
    YearUnique(DayNumber(u), y);
    MonthUnique(IsLeap(y), YearDay(u), m);
  }

  /** Every second lies in its own month, and the months tile the line. */
  lemma MonthBlock(u: int)
    ensures MonthStart(u) <= u < NextMonthStart(u)
    ensures FirstDay(Year(u), Month(u)) <= DayNumber(u) < FirstDay(Year(u), Month(u) + 1)
    ensures 1 <= Day(u) <= 31
  {
    YearOfDayBounds(DayNumber(u));
    YearStep(Year(u));
    MonthBounds(IsLeap(Year(u)), YearDay(u));
  }

  lemma SameMonth(u: int, v: int)
    requires MonthStart(u) <= v < NextMonthStart(u)
    ensures Year(v) == Year(u) && Month(v) == Month(u)
  {
    DayFields(v, Year(u), Month(u));
  }

  /** The second after a month is midnight on the first of the month after it. */
  lemma NextMonth(u: int)
    ensures var w := NextMonthStart(u);
      && Month(w) == (if Month(u) == 12 then 1 else Month(u) + 1)
      && Year(w) == (if Month(u) == 12 then Year(u) + 1 else Year(u))
      && Day(w) == 1 && MonthStart(w) == w && DayStart(w) == w
  {
    var w := NextMonthStart(u);
    var y := if Month(u) == 12 then Year(u) + 1 else Year(u);
    var m := if Month(u) == 12 then 1 else Month(u) + 1;
    YearStep(Year(u));
    assert FirstDay(Year(u), Month(u) + 1) == FirstDay(y, m);
    DayFields(w, y, m);
  }

  // ----- Days -----

  lemma SameDay(u: int, v: int)
    requires DayStart(u) <= v < DayStart(u) + SECONDS_PER_DAY
    ensures DayNumber(v) == DayNumber(u) && DayStart(v) == DayStart(u)
    ensures Year(v) == Year(u) && Month(v) == Month(u) && Day(v) == Day(u) && Weekday(v) == Weekday(u)
    ensures MonthStart(v) == MonthStart(u) && NextMonthStart(v) == NextMonthStart(u)
  {
    QuotientUnique(v, SECONDS_PER_DAY, u / SECONDS_PER_DAY, v - DayStart(u));
  }

  /** The first day of a month begins where the month does, and only that day does. */
  lemma FirstOfMonth(u: int)
    ensures Day(u) == 1 <==> DayStart(u) == MonthStart(u)
    ensures MonthStart(u) <= DayStart(u)
  {
    MonthBlock(u);
    assert DayStart(u) == SECONDS_PER_DAY * DayNumber(u);
  }

  /** A day that is not the first of its month shares month and year with the day before it. */
  lemma DayBefore(u: int)
    requires Day(u) != 1
    ensures Month(u - SECONDS_PER_DAY) == Month(u) && Year(u - SECONDS_PER_DAY) == Year(u)
    ensures MonthStart(u - SECONDS_PER_DAY) == MonthStart(u)
  {
    MonthBlock(u);
    assert DayNumber(u - SECONDS_PER_DAY) == DayNumber(u) - 1;
    DayFields(u - SECONDS_PER_DAY, Year(u), Month(u));
  }

  // ----- Units of fixed length -----

  lemma StartBounds(u: int)
    ensures DayStart(u) <= u < DayStart(u) + SECONDS_PER_DAY
    ensures HourStart(u) <= u < HourStart(u) + SECONDS_PER_HOUR
    ensures MinuteStart(u) <= u < MinuteStart(u) + SECONDS_PER_MINUTE
    ensures MinuteStart(u) + Second(u) == u
  {
  }

  lemma SameHour(u: int, v: int)
    requires HourStart(u) <= v < HourStart(u) + SECONDS_PER_HOUR
    ensures Hour(v) == Hour(u) && HourStart(v) == HourStart(u)
    ensures DayStart(u) <= v < DayStart(u) + SECONDS_PER_DAY
  {
    var h := u / SECONDS_PER_HOUR;
    QuotientUnique(v, SECONDS_PER_HOUR, h, v - HourStart(u));
    NestedRemainder(u, SECONDS_PER_HOUR, 24);
  }

  lemma SameMinute(u: int, v: int)
    requires MinuteStart(u) <= v < MinuteStart(u) + SECONDS_PER_MINUTE
    ensures Minute(v) == Minute(u) && MinuteStart(v) == MinuteStart(u)
    ensures HourStart(u) <= v < HourStart(u) + SECONDS_PER_HOUR
  {
    var m := u / SECONDS_PER_MINUTE;
    QuotientUnique(v, SECONDS_PER_MINUTE, m, v - MinuteStart(u));
    NestedRemainder(u, SECONDS_PER_MINUTE, 60);
  }

  /** The start of a day is the start of an hour, and that of an hour the start of a minute. */
  lemma StartsNest(w: int)
    ensures w == DayStart(w) <==> w == HourStart(w) && Hour(w) == 0
    ensures w == HourStart(w) <==> w == MinuteStart(w) && Minute(w) == 0
  {
    NestedRemainder(w, SECONDS_PER_HOUR, 24);
    NestedRemainder(w, SECONDS_PER_MINUTE, 60);
  }

  lemma NextStarts(u: int)
    ensures var w := DayStart(u) + SECONDS_PER_DAY; w == DayStart(w)
    ensures var w := HourStart(u) + SECONDS_PER_HOUR; w == HourStart(w)
    ensures var w := MinuteStart(u) + SECONDS_PER_MINUTE; w == MinuteStart(w)
    ensures MinuteStart(MinuteStart(u)) == MinuteStart(u)
  {
    QuotientUnique(DayStart(u) + SECONDS_PER_DAY, SECONDS_PER_DAY, u / SECONDS_PER_DAY + 1, 0);
    QuotientUnique(HourStart(u) + SECONDS_PER_HOUR, SECONDS_PER_HOUR, u / SECONDS_PER_HOUR + 1, 0);
    QuotientUnique(MinuteStart(u) + SECONDS_PER_MINUTE, SECONDS_PER_MINUTE, u / SECONDS_PER_MINUTE + 1, 0);
    QuotientUnique(MinuteStart(u), SECONDS_PER_MINUTE, u / SECONDS_PER_MINUTE, 0);
  }

  lemma WithinMinute(v: int, k: int)
    requires v == MinuteStart(v) && 0 <= k < SECONDS_PER_MINUTE
    ensures MinuteStart(v + k) == v && Second(v + k) == k
  {
    QuotientUnique(v + k, SECONDS_PER_MINUTE, v / SECONDS_PER_MINUTE, k);
  }

  // ----- What the accessors say -----

  /** Thirty days hath September. */
  function LengthOfMonth(y: int, m: int): int {
    if m == 4 || m == 6 || m == 9 || m == 11 then 30
    else if m != 2 then 31
    else if y % 400 == 0 || (y % 4 == 0 && y % 100 != 0) then 29
    else 28
  }

  lemma MonthLengths(u: int)
    ensures NextMonthStart(u) - MonthStart(u) == SECONDS_PER_DAY * LengthOfMonth(Year(u), Month(u))
    ensures 1 <= Day(u) <= LengthOfMonth(Year(u), Month(u))
    ensures DayStart(u) == MonthStart(u) + SECONDS_PER_DAY * (Day(u) - 1)
  {
    hide Year, Month, DaysBeforeYear, DaysBeforeMonth, LengthOfMonth, DayNumber;
    MonthBlock(u);
    TableLengths(Year(u), Month(u));
    DayWithin(u);
  }

  lemma TableLengths(y: int, m: int)
    requires 1 <= m <= 12
    ensures DaysBeforeMonth(IsLeap(y), m + 1) - DaysBeforeMonth(IsLeap(y), m) == LengthOfMonth(y, m)
  {
    NestedRemainder(y, 4, 100);
  }

  lemma DayWithin(u: int)
    ensures DayStart(u) == SECONDS_PER_DAY * DayNumber(u)
  {
  }

  /** The date of the next day: the months and years follow each other, and the week goes on. */
  lemma DateAdvances(u: int)
    ensures var v, last := u + SECONDS_PER_DAY, LengthOfMonth(Year(u), Month(u));
      && (Day(u) < last ==> Year(v) == Year(u) && Month(v) == Month(u) && Day(v) == Day(u) + 1)
      && (Day(u) == last && Month(u) < 12 ==> Year(v) == Year(u) && Month(v) == Month(u) + 1 && Day(v) == 1)
      && (Day(u) == last && Month(u) == 12 ==> Year(v) == Year(u) + 1 && Month(v) == 1 && Day(v) == 1)
      && Weekday(v) == (if Weekday(u) == 6 then 0 else Weekday(u) + 1)
  {
    hide Year, Month, Weekday, DaysBeforeYear, DaysBeforeMonth, DayNumber, YearLength;
    var v, y, m := u + SECONDS_PER_DAY, Year(u), Month(u);
    MonthBlock(u);
    TableLengths(y, m);
    WeekGoesOn(u);
    if Day(u) < LengthOfMonth(y, m) {
      DayFields(v, y, m);
    } else if m < 12 {
      TableLengths(y, m + 1);
      DayFields(v, y, m + 1);
    } else {
      YearEnds(y);
      DayFields(v, y + 1, 1);
    }
  }

  lemma YearEnds(y: int)
    ensures FirstDay(y, 13) == FirstDay(y + 1, 1) < FirstDay(y + 1, 2)
  {
    YearStep(y);
  }

  lemma WeekGoesOn(u: int)
    ensures DayNumber(u + SECONDS_PER_DAY) == DayNumber(u) + 1
    ensures Weekday(u + SECONDS_PER_DAY) == (if Weekday(u) == 6 then 0 else Weekday(u) + 1)
  {
    QuotientUnique(u + SECONDS_PER_DAY, SECONDS_PER_DAY, DayNumber(u) + 1, u % SECONDS_PER_DAY);
    var n := DayNumber(u) + 1;
    if n % 7 == 6 {
      QuotientUnique(n + 1, 7, n / 7 + 1, 0);
    } else {
      QuotientUnique(n + 1, 7, n / 7, n % 7 + 1);
    }
  }

  /** Where the count of the days begins: the zero time is Monday, January 1 of year 1, and the Unix epoch is Thursday,
      January 1, 1970. */
  lemma Epochs()
    ensures Year(0) == 1 && Month(0) == 1 && Day(0) == 1 && Weekday(0) == 1
    ensures var unix := 62_135_596_800;
      Year(unix) == 1970 && Month(unix) == 1 && Day(unix) == 1 && Weekday(unix) == 4
  {
    hide Year, Month, Day, Weekday;
    NewYear(0, 1);
    NewYear(62_135_596_800, 1970);
  }

  lemma NewYear(u: int, y: int)
    requires u == YearStart(y)
    ensures Year(u) == y && Month(u) == 1 && Day(u) == 1 && Weekday(u) == (DaysBeforeYear(y) + 1) % 7
  {
    hide Year, Month, Day;
    QuotientUnique(u, SECONDS_PER_DAY, DaysBeforeYear(y), 0);
    DayFields(u, y, 1);
  }

  /** Hour, minute and second are those of the time of the day. */
  lemma TimeOfDay(u: int)
    ensures 0 <= Hour(u) < 24 && 0 <= Minute(u) < 60 && 0 <= Second(u) < 60
    ensures u == DayStart(u) + SECONDS_PER_HOUR * Hour(u) + SECONDS_PER_MINUTE * Minute(u) + Second(u)
  {
    NestedRemainder(u, SECONDS_PER_HOUR, 24);
    NestedRemainder(u, SECONDS_PER_MINUTE, 60);
  }
}
