/** Cron field expressions: comma-separated ranges parsed into bit sets. */
module CronParser {
  import opened Arithmetic
  import opened Bits
  import opened Calendar
  import opened CronSpec
  import opened Texts

  /** The values a field may take, and the names some of them have. */
  datatype Bounds = Bounds(min: nat, max: nat, names: map<string, nat>)

  const MONTH_NAMES := map[
    "jan" := 1, "feb" := 2, "mar" := 3, "apr" := 4, "may" := 5, "jun" := 6, "jul" := 7, "aug" := 8, "sep" := 9,
    "oct" := 10, "nov" := 11, "dec" := 12]
  const WEEKDAY_NAMES := map["sun" := 0, "mon" := 1, "tue" := 2, "wed" := 3, "thu" := 4, "fri" := 5, "sat" := 6]

  const SECONDS := Bounds(0, 59, map[])
  const MINUTES := Bounds(0, 59, map[])
  const HOURS := Bounds(0, 23, map[])
  const DOM := Bounds(1, 31, map[])
  const MONTHS := Bounds(1, 12, MONTH_NAMES)
  const DOW := Bounds(0, 6, WEEKDAY_NAMES)

  /** One element of a field: every `step`-th value from `low` to `high`; `star` if it is an unstepped wildcard. */
  datatype Range = Range(low: nat, high: nat, step: nat, star: bool) {
    predicate Covers(i: int) {
      low <= i <= high && step > 0 && (i - low) % step == 0
    }
  }

  datatype Result<T> = Ok(value: T) | Err(error: string)

  // ----- What a field means -----

  predicate IsWildcard(s: string) { s == "*" || s == "?" }

  function ParseNumber(s: string): Option<nat> {
    match Atoi(s)
    case Some(n) => if n < 0 then None else Some(n)
    case None => None
  }

  function ParseValue(s: string, b: Bounds): Option<nat> {
    if ToLower(s) in b.names then Some(b.names[ToLower(s)]) else ParseNumber(s)
  }

  /** The range that the text `low[-high][/step]` denotes, if it is one that fits the field. */
  function Meaning(expr: string, b: Bounds): Option<Range> {
    var parts := Split(expr, '/');
    var ends := Split(parts[0], '-');
    var wild := IsWildcard(ends[0]);
    var step := if |parts| == 1 then Some(1) else ParseNumber(parts[1]);
    var low := if wild then Some(b.min) else ParseValue(ends[0], b);
    var high :=
      if wild || (|parts| == 2 && |ends| == 1) then Some(b.max)
      else if |ends| == 1 then low
      else ParseValue(ends[1], b);
    if |parts| > 2 || (!wild && |ends| > 2) || step.None? || low.None? || high.None? then None
    else if b.min <= low.value <= high.value <= b.max && step.value > 0
    then Some(Range(low.value, high.value, step.value, wild && step.value == 1))
    else None
  }

  /** The nonempty pieces between commas. */
  function Elements(field: string): seq<string> {
    NonEmpty(Split(field, ','))
  }

  ghost predicate Accepts(field: string, b: Bounds) {
    forall e | e in Elements(field) :: Meaning(e, b).Some?
  }

  ghost predicate CoveredBy(i: int, expr: string, b: Bounds) {
    Meaning(expr, b).Some? && Meaning(expr, b).value.Covers(i)
  }

  ghost predicate IsStar(expr: string, b: Bounds) {
    Meaning(expr, b).Some? && Meaning(expr, b).value.star
  }

  /** Bit `i` below 63 says that an element covers `i`, and bit 63 that one is an unstepped wildcard. */
  ghost predicate Represents(bits: Word, exprs: seq<string>, b: Bounds) {
    && (forall i | 0 <= i < 63 :: i in bits <==> exists e :: e in exprs && CoveredBy(i, e, b))
    && (63 in bits <==> exists e :: e in exprs && IsStar(e, b))
  }

  // ----- Parsing -----

  /** The bits from `min` to `max` in steps of `step`: by shifts for step one, else one by one. */
  method GetBits(min: nat, max: nat, step: nat) returns (bits: Word)
    requires step > 0 && max < 63
    ensures forall i :: i in bits <==> Range(min, max, step, false).Covers(i)
  {
    if step == 1 {
      bits := ShiftForm(min, max);
      ShiftFormBits(min, max);
    } else {
      ghost var range := Range(min, max, step, false);
      bits := {};
      var i := min;
      while i <= max
        invariant min <= i && (i - min) % step == 0
        invariant forall k :: k in bits <==> range.Covers(k) && k < i
        decreases max + step - i
      {
        ghost var before := bits;
        bits := Or(bits, Shl({0}, i));
        forall k
          ensures k in bits <==> range.Covers(k) && k < i + step
        {
          NextMultiple(min, step, i, k);
        }
        StepOn(min, step, i);
        i := i + step;
      }
    }
  }

  function ShiftForm(min: nat, max: nat): Word {
    And(Not(Shl(ALL_BITS, max + 1)), Shl(ALL_BITS, min))
  }

  /** The shift form sets exactly the bits that the loop form sets at step one. */
  lemma ShiftFormBits(min: nat, max: nat)
    requires max < 63
    ensures forall i :: i in ShiftForm(min, max) <==> Range(min, max, 1, false).Covers(i)
  {
  }

  /** No multiple of the step lies strictly between one and the next. */
  lemma NextMultiple(min: nat, step: nat, i: int, k: int)
    requires step > 0 && min <= i && (i - min) % step == 0
    ensures min <= k < i + step && (k - min) % step == 0 <==> (min <= k < i && (k - min) % step == 0) || k == i
  {
    if i < k < i + step {
      QuotientUnique(k - min, step, (i - min) / step, k - i);
    }
  }

  lemma StepOn(min: nat, step: nat, i: int)
    requires step > 0 && (i - min) % step == 0
    ensures (i + step - min) % step == 0
  {
    QuotientUnique(i + step - min, step, (i - min) / step + 1, 0);
  }

  /** One element of a field. */
  method GetRange(expr: string, b: Bounds) returns (res: Result<Word>)
    requires b.max < 63
    ensures res.Ok? <==> Meaning(expr, b).Some?
    ensures res.Ok? ==> forall i | 0 <= i < 63 :: i in res.value <==> CoveredBy(i, expr, b)
    ensures res.Ok? ==> (63 in res.value <==> IsStar(expr, b))
  {
    var start, end, step: nat := 0, 0, 0;
    var rangeAndStep := Split(expr, '/');
    var lowAndHigh := Split(rangeAndStep[0], '-');
    var singleDigit := |lowAndHigh| == 1;

    var extra: Word := {};
    if IsWildcard(lowAndHigh[0]) {
      start := b.min;
      end := b.max;
      extra := STAR_BIT;
    } else {
      match ParseValue(lowAndHigh[0], b) {
        case None => return Err("failed to parse number");
        case Some(n) => start := n;
      }
      if |lowAndHigh| == 1 {
        end := start;
      } else if |lowAndHigh| == 2 {
        match ParseValue(lowAndHigh[1], b) {
          case None => return Err("failed to parse number");
          case Some(n) => end := n;
        }
      } else {
        return Err("too many hyphens: " + expr);
      }
    }

    if |rangeAndStep| == 1 {
      step := 1;
    } else if |rangeAndStep| == 2 {
      match ParseNumber(rangeAndStep[1]) {
        case None => return Err("failed to parse number");
        case Some(n) => step := n;
      }
      // "N/step" means "N-max/step".
      if singleDigit {
        end := b.max;
      }
      if step > 1 {
        extra := {};
      }
    } else {
      return Err("too many slashes: " + expr);
    }

    if start < b.min {
      return Err("beginning of range below minimum: " + expr);
    }
    if end > b.max {
      return Err("end of range above maximum: " + expr);
    }
    if start > end {
      return Err("beginning of range after end: " + expr);
    }
    if step == 0 {
      return Err("step cannot be zero: " + expr);
    }

    assert Meaning(expr, b) == Some(Range(start, end, step, extra != {}));
    var bits := GetBits(start, end, step);
    forall i | 0 <= i < 63
      ensures i in Or(bits, extra) <==> CoveredBy(i, expr, b)
    {
      assert Range(start, end, step, false).Covers(i) == Range(start, end, step, extra != {}).Covers(i);
    }
    return Ok(Or(bits, extra));
  }

  /** A whole field: it is accepted exactly when each of its elements is, and then its bits say which
      values the elements cover; no bit below 63 lies outside the bounds of the field. */
  method GetField(field: string, b: Bounds) returns (res: Result<Word>)
    requires b.max < 63
    ensures res.Ok? <==> Accepts(field, b)
    ensures res.Ok? ==> Represents(res.value, Elements(field), b)
    ensures res.Ok? ==> forall i | i in res.value && i != 63 :: b.min <= i <= b.max
  {
    hide Meaning, Split, NonEmpty;
    var bits: Word := {};
    var ranges := Elements(field);
    var k := 0;
    while k < |ranges|
      invariant 0 <= k <= |ranges|
      invariant forall e | e in ranges[..k] :: Meaning(e, b).Some?
      invariant Represents(bits, ranges[..k], b)
    {
      var bit := GetRange(ranges[k], b);
      if bit.Err? {
        assert ranges[k] in Elements(field);
        return Err(bit.error);
      }
      Union(bits, bit.value, ranges[..k], ranges[k], b);
      assert ranges[..k + 1] == ranges[..k] + [ranges[k]];
      bits := Or(bits, bit.value);
      k := k + 1;
    }
    assert ranges[..k] == ranges;
    InBounds(bits, ranges, b);
    return Ok(bits);
  }

  lemma InBounds(bits: Word, exprs: seq<string>, b: Bounds)
    requires Represents(bits, exprs, b)
    ensures forall i | i in bits && i != 63 :: b.min <= i <= b.max
  {
    forall i | i in bits && i != 63
      ensures b.min <= i <= b.max
    {
      var e :| e in exprs && CoveredBy(i, e, b);
    }
  }

  lemma Union(bits: Word, bit: Word, exprs: seq<string>, expr: string, b: Bounds)
    requires Represents(bits, exprs, b)
    requires forall i | 0 <= i < 63 :: i in bit <==> CoveredBy(i, expr, b)
    requires 63 in bit <==> IsStar(expr, b)
    ensures Represents(Or(bits, bit), exprs + [expr], b)
  {
    hide CoveredBy, IsStar;
    var all := exprs + [expr];
    assert forall e :: e in all <==> e in exprs || e == expr;
  }

  // ----- The day rule -----

  /** Some element of the field covers the value. */
  ghost predicate Covered(i: int, field: string, b: Bounds) {
    exists e :: e in Elements(field) && CoveredBy(i, e, b)
  }

  /** Some element of the field is an unstepped wildcard. */
  ghost predicate Starred(field: string, b: Bounds) {
    exists e :: e in Elements(field) && IsStar(e, b)
  }

  /** What the bits of the day fields say of a day. */
  lemma DayBits(s: SpecSchedule, u: int, domField: string, dowField: string)
    requires Represents(s.dom, Elements(domField), DOM) && Represents(s.dow, Elements(dowField), DOW)
    ensures Has(s.dom, Day(u)) <==> Covered(Day(u), domField, DOM)
    ensures Has(s.dow, Weekday(u)) <==> Covered(Weekday(u), dowField, DOW)
    ensures HasStar(s.dom) <==> Starred(domField, DOM)
    ensures HasStar(s.dow) <==> Starred(dowField, DOW)
  {
    hide Elements, CoveredBy, IsStar, Day, Weekday;
    MonthBlock(u);
    WeekdayRange(u);
    HasIs(s.dom, Day(u));
    HasIs(s.dow, Weekday(u));
    HasStarIs(s.dom);
    HasStarIs(s.dow);
  }

  /** When neither day field holds an unstepped wildcard, a day that fits either of them will do. */
  lemma RestrictedDaysCombine(s: SpecSchedule, u: int, domField: string, dowField: string)
    requires Represents(s.dom, Elements(domField), DOM) && Represents(s.dow, Elements(dowField), DOW)
    requires forall e | e in Elements(domField) :: !IsStar(e, DOM)
    requires forall e | e in Elements(dowField) :: !IsStar(e, DOW)
    ensures DayMatches(s, u) <==>
      || (exists e :: e in Elements(domField) && CoveredBy(Day(u), e, DOM))
      || (exists e :: e in Elements(dowField) && CoveredBy(Weekday(u), e, DOW))
  {
    hide Elements, CoveredBy, IsStar, Day, Weekday, Has, HasStar;
    DayBits(s, u, domField, dowField);
  }

  /** When either day field holds an unstepped wildcard, a day must fit both of them. */
  lemma StarredDaysAgree(s: SpecSchedule, u: int, domField: string, dowField: string)
    requires Represents(s.dom, Elements(domField), DOM) && Represents(s.dow, Elements(dowField), DOW)
    requires (exists e :: e in Elements(domField) && IsStar(e, DOM)) ||
      (exists e :: e in Elements(dowField) && IsStar(e, DOW))
    ensures DayMatches(s, u) <==>
      && (exists e :: e in Elements(domField) && CoveredBy(Day(u), e, DOM))
      && (exists e :: e in Elements(dowField) && CoveredBy(Weekday(u), e, DOW))
  {
    hide Elements, CoveredBy, IsStar, Day, Weekday, Has, HasStar;
    DayBits(s, u, domField, dowField);
  }

  /** A day-of-month field that is a bare star leaves the day to the day of the week. */
  lemma StarDefersToWeekday(s: SpecSchedule, u: int, dowField: string)
    requires Represents(s.dom, Elements("*"), DOM) && Represents(s.dow, Elements(dowField), DOW)
    ensures DayMatches(s, u) <==> exists e :: e in Elements(dowField) && CoveredBy(Weekday(u), e, DOW)
  {
    hide Elements, Day, Weekday, Meaning, DayMatches;
    StarMeans(DOM);
    MonthBlock(u);
    assert "*" in Elements("*") && CoveredBy(Day(u), "*", DOM);
    StarredDaysAgree(s, u, "*", dowField);
  }

  /** A day-of-week field that is a bare star leaves the day to the day of the month. */
  lemma StarDefersToDay(s: SpecSchedule, u: int, domField: string)
    requires Represents(s.dom, Elements(domField), DOM) && Represents(s.dow, Elements("*"), DOW)
    ensures DayMatches(s, u) <==> exists e :: e in Elements(domField) && CoveredBy(Day(u), e, DOM)
  {
    hide Elements, Day, Weekday, Meaning, DayMatches;
    StarMeans(DOW);
    WeekdayRange(u);
    assert "*" in Elements("*") && CoveredBy(Weekday(u), "*", DOW);
    StarredDaysAgree(s, u, domField, "*");
  }

  lemma WeekdayRange(u: int)
    ensures 0 <= Weekday(u) < 7
  {
  }

  lemma StarMeans(b: Bounds)
    requires b.min <= b.max
    ensures Elements("*") == ["*"] && Meaning("*", b) == Some(Range(b.min, b.max, 1, true))
  {
    SplitWithout("*", '/');
    SplitWithout("*", '-');
    SplitWithout("*", ',');
    assert NonEmpty(["*"]) == ["*"];
  }
}
