/** Cron specifications as a whole: what the texts of elements and fields mean, and the activations they describe. */
module CronFields {
  import opened Bits
  import opened Calendar
  import opened CronParser
  import opened CronSpec
  import opened Texts

  // ----- Elements -----

  /** A field whose values fit the word and whose names do not begin with a digit. */
  ghost predicate Ordinary(b: Bounds) {
    b.min <= b.max < 63 && forall name | name in b.names :: name != "" && !IsDigit(name[0])
  }

  lemma FieldsAreOrdinary()
    ensures Ordinary(SECONDS) && Ordinary(MINUTES) && Ordinary(HOURS) && Ordinary(DOM) && Ordinary(MONTHS)
    ensures Ordinary(DOW)
  {
  }

  lemma {:induction false} ToLowerDigits(s: string)
    requires AllDigits(s)
    ensures ToLower(s) == s
  {
    if s != "" {
      assert s[0] in s;
      ToLowerDigits(s[1..]);
    }
  }

  /** A number reads back as itself, if it fits in 64 bits, and is no name. */
  lemma NumberReads(n: nat, b: Bounds)
    requires Ordinary(b)
    ensures ParseNumber(NatText(n)) == if n <= 0x7FFF_FFFF_FFFF_FFFF then Some(n) else None
    ensures ParseValue(NatText(n), b) == ParseNumber(NatText(n))
  {
    var t := NatText(n);
    assert t[0] in t;
    ToLowerDigits(t);
    DecimalOfText(n);
  }

  lemma NumberSplits(n: nat)
    ensures '/' !in NatText(n) && '-' !in NatText(n) && ',' !in NatText(n) && !IsWildcard(NatText(n))
    ensures Split(NatText(n), '/') == [NatText(n)] && Split(NatText(n), '-') == [NatText(n)]
  {
    var t := NatText(n);
    assert t[0] in t;
    SplitWithout(t, '/');
    SplitWithout(t, '-');
  }

  lemma TwoParts(a: string, c: char, b: string)
    requires c !in a && c !in b
    ensures Split(a + [c] + b, c) == [a, b]
  {
    SplitConcat(a, c, b);
    SplitWithout(a, c);
    SplitWithout(b, c);
  }

  /** The parts that `Meaning` looks at. */
  lemma MeaningOf(expr: string, b: Bounds, parts: seq<string>, ends: seq<string>)
    requires Split(expr, '/') == parts && Split(parts[0], '-') == ends && 1 <= |parts| <= 2 && 1 <= |ends| <= 2
    ensures var wild := IsWildcard(ends[0]);
      var step := if |parts| == 1 then Some(1) else ParseNumber(parts[1]);
      var low := if wild then Some(b.min) else ParseValue(ends[0], b);
      var high := if wild || (|parts| == 2 && |ends| == 1) then Some(b.max)
                  else if |ends| == 1 then low else ParseValue(ends[1], b);
      Meaning(expr, b) ==
        if step.None? || low.None? || high.None? then None
        else if b.min <= low.value <= high.value <= b.max && step.value > 0
        then Some(Range(low.value, high.value, step.value, wild && step.value == 1))
        else None
  {
    hide Split, ParseNumber, ParseValue;
  }

  /** `n` covers n. */
  lemma NumberCovers(n: nat, b: Bounds)
    requires Ordinary(b)
    ensures Meaning(NatText(n), b).Some? <==> b.min <= n <= b.max
    ensures forall i :: CoveredBy(i, NatText(n), b) <==> b.min <= n <= b.max && i == n
    ensures !IsStar(NatText(n), b)
  {
    hide Split, ParseNumber, ParseValue, NatText, IsWildcard, Meaning;
    var t := NatText(n);
    NumberReads(n, b);
    NumberSplits(n);
    MeaningOf(t, b, [t], [t]);
  }

  /** `lo-hi` covers the numbers from lo to hi. */
  lemma RangeCovers(lo: nat, hi: nat, b: Bounds)
    requires Ordinary(b)
    ensures var t := NatText(lo) + "-" + NatText(hi);
      && (Meaning(t, b).Some? <==> b.min <= lo <= hi <= b.max)
      && (forall i :: CoveredBy(i, t, b) <==> b.min <= lo <= hi <= b.max && lo <= i <= hi)
      && !IsStar(t, b)
  {
    hide Split, ParseNumber, ParseValue, NatText, IsWildcard, Meaning;
    var x, y := NatText(lo), NatText(hi);
    var t := x + "-" + y;
    NumberReads(lo, b);
    NumberReads(hi, b);
    NumberSplits(lo);
    NumberSplits(hi);
    TwoParts(x, '-', y);
    SplitWithout(t, '/');
    MeaningOf(t, b, [t], [x, y]);
  }

  /** `lo-hi/k` covers every k-th of them, from lo on. */
  lemma RangeStepCovers(lo: nat, hi: nat, k: nat, b: Bounds)
    requires Ordinary(b) && k <= 0x7FFF_FFFF_FFFF_FFFF
    ensures var t := NatText(lo) + "-" + NatText(hi) + "/" + NatText(k);
      && (Meaning(t, b).Some? <==> b.min <= lo <= hi <= b.max && k > 0)
      && (forall i :: CoveredBy(i, t, b) <==>
            b.min <= lo <= hi <= b.max && k > 0 && lo <= i <= hi && (i - lo) % k == 0)
      && !IsStar(t, b)
  {
    hide Split, ParseNumber, ParseValue, NatText, IsWildcard, Meaning;
    var x, y, z := NatText(lo), NatText(hi), NatText(k);
    NumberReads(lo, b);
    NumberReads(hi, b);
    NumberReads(k, b);
    NumberSplits(lo);
    NumberSplits(hi);
    NumberSplits(k);
    TwoParts(x, '-', y);
    TwoParts(x + "-" + y, '/', z);
    MeaningOf(x + "-" + y + "/" + z, b, [x + "-" + y, z], [x, y]);
  }

  /** `n/k` covers every k-th number from n to the end of the field. */
  lemma FromStepCovers(n: nat, k: nat, b: Bounds)
    requires Ordinary(b) && k <= 0x7FFF_FFFF_FFFF_FFFF
    ensures var t := NatText(n) + "/" + NatText(k);
      && (Meaning(t, b).Some? <==> b.min <= n <= b.max && k > 0)
      && (forall i :: CoveredBy(i, t, b) <==> b.min <= n && k > 0 && n <= i <= b.max && (i - n) % k == 0)
      && !IsStar(t, b)
  {
    hide Split, ParseNumber, ParseValue, NatText, IsWildcard, Meaning;
    var x, z := NatText(n), NatText(k);
    NumberReads(n, b);
    NumberReads(k, b);
    NumberSplits(n);
    NumberSplits(k);
    TwoParts(x, '/', z);
    MeaningOf(x + "/" + z, b, [x, z], [x]);
  }

  // A wildcard with a step covers every k-th value of the field, from its least on; it is a star only at step one.
  lemma StarStepCovers(wild: string, k: nat, b: Bounds)
    requires Ordinary(b) && k <= 0x7FFF_FFFF_FFFF_FFFF && (wild == "*" || wild == "?")
    ensures var t := wild + "/" + NatText(k);
      && (Meaning(t, b).Some? <==> k > 0)
      && (forall i :: CoveredBy(i, t, b) <==> k > 0 && b.min <= i <= b.max && (i - b.min) % k == 0)
      && (IsStar(t, b) <==> k == 1)
  {
    hide Split, ParseNumber, ParseValue, NatText, Meaning;
    var z := NatText(k);
    NumberReads(k, b);
    NumberSplits(k);
    TwoParts(wild, '/', z);
    SplitWithout(wild, '-');
    MeaningOf(wild + "/" + z, b, [wild, z], [wild]);
  }

  /** A bare wildcard covers the whole field. */
  lemma StarCovers(wild: string, b: Bounds)
    requires Ordinary(b) && (wild == "*" || wild == "?")
    ensures Meaning(wild, b).Some? && IsStar(wild, b) && forall i :: CoveredBy(i, wild, b) <==> b.min <= i <= b.max
  {
    hide Split, ParseNumber, ParseValue, Meaning;
    SplitWithout(wild, '/');
    SplitWithout(wild, '-');
    MeaningOf(wild, b, [wild], [wild]);
  }

  // ----- Names -----

  const MONTHS_IN_ORDER :=
    ["jan", "feb", "mar", "apr", "may", "jun", "jul", "aug", "sep", "oct", "nov", "dec"]
  const WEEKDAYS_IN_ORDER := ["sun", "mon", "tue", "wed", "thu", "fri", "sat"]

  predicate AllLetters(s: string) {
    forall c | c in s :: 'a' <= c <= 'z'
  }

  lemma {:induction false} OnlyLetters(name: string)
    requires AllLetters(ToLower(name))
    ensures '/' !in name && '-' !in name && '*' !in name && '?' !in name && ',' !in name
  {
    if name != "" {
      var low := ToLower(name);
      assert low[0] in low && low[1..] == ToLower(name[1..]);
      assert forall c | c in low[1..] :: c in low;
      OnlyLetters(name[1..]);
      assert forall c :: c in name <==> c == name[0] || c in name[1..];
    }
  }

  /** A name, in capitals or not, covers the value it stands for. */
  lemma NameCovers(name: string, b: Bounds)
    requires Ordinary(b) && AllLetters(ToLower(name)) && ToLower(name) in b.names
    requires b.min <= b.names[ToLower(name)] <= b.max
    ensures forall i :: CoveredBy(i, name, b) <==> i == b.names[ToLower(name)]
    ensures !IsStar(name, b)
  {
    hide Split, ToLower, Meaning;
    OnlyLetters(name);
    SplitWithout(name, '/');
    SplitWithout(name, '-');
    MeaningOf(name, b, [name], [name]);
  }

  /** The name is written in small letters or capitals. */
  predicate Spells(name: string, low: string) {
    && |name| == |low| && AllLetters(low)
    && forall i | 0 <= i < |name| :: name[i] == low[i] || (low[i] in low && name[i] == low[i] - 'a' + 'A')
  }

  lemma {:induction false} SpellsLower(name: string, low: string)
    requires Spells(name, low)
    ensures ToLower(name) == low
  {
    if name != "" {
      assert low[0] in low;
      assert forall c | c in low[1..] :: c in low;
      assert forall i | 0 <= i < |name| - 1 :: name[1..][i] == name[i + 1] && low[1..][i] == low[i + 1];
      SpellsLower(name[1..], low[1..]);
      assert [low[0]] + low[1..] == low;
    }
  }

  /** The twelve months count from January, ... */
  lemma MonthNames(k: nat, name: string)
    requires 1 <= k <= 12 && Spells(name, MONTHS_IN_ORDER[k - 1])
    ensures forall i :: CoveredBy(i, name, MONTHS) <==> i == k
  {
    hide CoveredBy, ToLower;
    FieldsAreOrdinary();
    SpellsLower(name, MONTHS_IN_ORDER[k - 1]);
    NameCovers(name, MONTHS);
  }

  /** ... and the seven days of the week from Sunday. */
  lemma WeekdayNames(k: nat, name: string)
    requires k <= 6 && Spells(name, WEEKDAYS_IN_ORDER[k])
    ensures forall i :: CoveredBy(i, name, DOW) <==> i == k
  {
    hide CoveredBy, ToLower;
    FieldsAreOrdinary();
    SpellsLower(name, WEEKDAYS_IN_ORDER[k]);
    NameCovers(name, DOW);
  }

  // ----- Fields -----

  lemma {:induction false} NonEmptyConcat(a: seq<string>, b: seq<string>)
    ensures NonEmpty(a + b) == NonEmpty(a) + NonEmpty(b)
  {
    if a == [] {
      assert a + b == b;
    } else {
      NonEmptyConcat(a[1..], b);
      Peel(a, b);
      if a[0] != "" {
        Associates([a[0]], NonEmpty(a[1..]), NonEmpty(b));
      }
    }
  }

  /** The elements of a field are the texts between its commas; empty ones are passed over. */
  lemma ElementsAre(a: string, b: string)
    ensures Elements(a + "," + b) == Elements(a) + Elements(b)
    ensures ',' !in a && a != "" ==> Elements(a) == [a]
    ensures Elements("") == []
  {
    hide Split;
    SplitConcat(a, ',', b);
    NonEmptyConcat(Split(a, ','), Split(b, ','));
    SplitNothing(',');
    assert NonEmpty([""]) == [];
    if ',' !in a && a != "" {
      SplitWithout(a, ',');
      assert NonEmpty([a]) == [a];
    }
  }

  /** A field of one number, and a field that is a star. */
  lemma OneElement(n: nat, b: Bounds)
    requires Ordinary(b)
    ensures b.min <= n <= b.max ==> Accepts(NatText(n), b)
    ensures forall i :: Covered(i, NatText(n), b) <==> b.min <= n <= b.max && i == n
    ensures !Starred(NatText(n), b)
    ensures Accepts("*", b) && Starred("*", b) && forall i :: Covered(i, "*", b) <==> b.min <= i <= b.max
  {
    hide Elements, CoveredBy, IsStar, Meaning, NatText;
    NumberSplits(n);
    ElementsAre(NatText(n), "");
    ElementsAre("*", "");
    NumberCovers(n, b);
    StarCovers("*", b);
    assert NatText(n) in Elements(NatText(n)) && "*" in Elements("*");
  }

  // ----- Whole specifications -----

  /** Which fields a specification has. */
  datatype Options = Options(second: bool, secondOptional: bool, minute: bool, hour: bool, dom: bool, month: bool,
                             dow: bool, dowOptional: bool)

  /** The fields of the server's own specifications. */
  const STANDARD := Options(false, false, true, true, true, true, true, false)

  function Places(o: Options): seq<bool> {
    [o.second || o.secondOptional, o.minute, o.hour, o.dom, o.month, o.dow || o.dowOptional]
  }

  const DEFAULTS := ["0", "0", "0", "*", "*", "*"]

  function Count(places: seq<bool>): nat {
    if places == [] then 0 else Count(places[..|places| - 1]) + if places[|places| - 1] then 1 else 0
  }

  /** The places that are asked for. */
  function Asked(places: seq<bool>): set<nat> { set i: nat | i < |places| && places[i] }

  lemma {:induction false} CountIs(places: seq<bool>)
    ensures Count(places) == |Asked(places)|
  {
    if places != [] {
      var n := |places| - 1;
      CountIs(places[..n]);
      assert Asked(places) == Asked(places[..n]) + if places[n] then {n} else {};
    }
  }

  lemma CountStep(places: seq<bool>, i: nat)
    requires i < |places|
    ensures Count(places[..i + 1]) == Count(places[..i]) + if places[i] then 1 else 0
  {
    assert places[..i + 1][..i] == places[..i];
  }

  lemma {:induction false} CountGrows(places: seq<bool>, i: nat)
    requires i <= |places|
    ensures Count(places[..i]) <= Count(places)
    decreases |places| - i
  {
    if i == |places| {
      assert places[..i] == places;
    } else {
      CountGrows(places, i + 1);
      CountStep(places, i);
    }
  }

  /** Fills in the fields that are left out. The number of fields must be that of the places asked for, or one less if
      one of them is optional; the fields given keep their order. */
  method NormalizeFields(fields: seq<string>, o: Options) returns (r: Result<seq<string>>)
    ensures var places :=
        [o.second || o.secondOptional, o.minute, o.hour, o.dom, o.month, o.dow || o.dowOptional];
      && (r.Ok? <==> && !(o.secondOptional && o.dowOptional)
                     && (|fields| == Count(places) ||
                         ((o.secondOptional || o.dowOptional) && |fields| == Count(places) - 1)))
      && (r.Ok? ==>
            var filled := if |fields| == Count(places) then fields else if o.dowOptional then fields + ["*"]
                          else ["0"] + fields;
            && |r.value| == 6 && |filled| == Count(places)
            && forall i | 0 <= i < 6 ::
                 if places[i] then Count(places[..i]) < |filled| && r.value[i] == filled[Count(places[..i])]
                 else r.value[i] == ["0", "0", "0", "*", "*", "*"][i])
  {
    hide Count;
    var places := Places(o);
    if o.secondOptional && o.dowOptional {
      return Err("multiple optionals may not be configured");
    }
    var optionals: int := if o.secondOptional || o.dowOptional then 1 else 0;
    var max := CountPlaces(places);
    var min: int := max - optionals;
    if |fields| < min || |fields| > max {
      return Err("incorrect number of fields");
    }
    var given := fields;
    if min < max && |fields| == min {
      given := if o.dowOptional then fields + [DEFAULTS[5]] else [DEFAULTS[0]] + fields;
    }
    var n := 0;
    var expanded := new string[6](i requires 0 <= i < 6 => DEFAULTS[i]);
    NonePlaced(places);
    for i := 0 to 6
      invariant n == Count(places[..i]) <= |given| == max && expanded.Length == 6
      invariant forall j | 0 <= j < i && places[j] ::
        Count(places[..j]) < max && expanded[j] == given[Count(places[..j])]
      invariant forall j | 0 <= j < 6 :: j >= i || !places[j] ==> expanded[j] == DEFAULTS[j]
    {
      CountStep(places, i);
      CountGrows(places, i + 1);
      if places[i] {
        expanded[i] := given[n];
        n := n + 1;
      }
    }
    return Ok(expanded[..]);
  }

  lemma NonePlaced(places: seq<bool>)
    ensures Count(places[..0]) == 0
  {
  }

  method CountPlaces(places: seq<bool>) returns (n: nat)
    ensures n == Count(places)
  {
    n := 0;
    for i := 0 to |places|
      invariant n == Count(places[..i])
    {
      CountStep(places, i);
      if places[i] {
        n := n + 1;
      }
    }
    assert places[..|places|] == places;
  }

  /** The schedule holds what the six fields say. */
  ghost predicate Reads(s: SpecSchedule, f: seq<string>)
    requires |f| == 6
  {
    && Represents(s.second, Elements(f[0]), SECONDS) && Represents(s.minute, Elements(f[1]), MINUTES)
    && Represents(s.hour, Elements(f[2]), HOURS) && Represents(s.dom, Elements(f[3]), DOM)
    && Represents(s.month, Elements(f[4]), MONTHS) && Represents(s.dow, Elements(f[5]), DOW)
  }

  ghost predicate AllAccepted(f: seq<string>)
    requires |f| == 6
  {
    && Accepts(f[0], SECONDS) && Accepts(f[1], MINUTES) && Accepts(f[2], HOURS)
    && Accepts(f[3], DOM) && Accepts(f[4], MONTHS) && Accepts(f[5], DOW)
  }

  /** Parses six fields; the first that is not accepted decides the error. */
  method ParseFields(f: seq<string>, location: Location) returns (r: Result<SpecSchedule>)
    requires |f| == 6
    ensures r.Ok? <==> AllAccepted(f)
    ensures r.Ok? ==> Reads(r.value, f) && r.value.location == location
  {
    hide Accepts, Represents;
    var second := GetField(f[0], SECONDS);
    if second.Err? { return Err(second.error); }
    var minute := GetField(f[1], MINUTES);
    if minute.Err? { return Err(minute.error); }
    var hour := GetField(f[2], HOURS);
    if hour.Err? { return Err(hour.error); }
    var dom := GetField(f[3], DOM);
    if dom.Err? { return Err(dom.error); }
    var month := GetField(f[4], MONTHS);
    if month.Err? { return Err(month.error); }
    var dow := GetField(f[5], DOW);
    if dow.Err? { return Err(dow.error); }
    r := Ok(SpecSchedule(second.value, minute.value, hour.value, dom.value, month.value, dow.value, location));
  }

  /** A second that the texts of six fields describe. */
  ghost predicate Described(f: seq<string>, u: int)
    requires |f| == 6
  {
    && Covered(Second(u), f[0], SECONDS) && Covered(Minute(u), f[1], MINUTES) && Covered(Hour(u), f[2], HOURS)
    && Covered(Month(u), f[4], MONTHS)
    && var day, weekday := Covered(Day(u), f[3], DOM), Covered(Weekday(u), f[5], DOW);
       if Starred(f[3], DOM) || Starred(f[5], DOW) then day && weekday else day || weekday
  }

  lemma BitIs(bits: Word, field: string, b: Bounds, i: int)
    requires Represents(bits, Elements(field), b) && 0 <= i < 63
    ensures Has(bits, i) <==> Covered(i, field, b)
  {
    HasIs(bits, i);
  }

  /** A schedule matches the seconds that the texts it was read from describe. */
  lemma MatchesDescribed(s: SpecSchedule, f: seq<string>, u: int)
    requires |f| == 6 && Reads(s, f)
    ensures Matches(s, u) <==> Described(f, u)
  {
    hide Has, HasStar, Covered, Starred, Represents, Day, Month, Weekday, Hour, Minute, Second, Elements;
    TimeOfDay(u);
    BitIs(s.second, f[0], SECONDS, Second(u));
    BitIs(s.minute, f[1], MINUTES, Minute(u));
    BitIs(s.hour, f[2], HOURS, Hour(u));
    BitIs(s.month, f[4], MONTHS, Month(u));
    DayBits(s, u, f[3], f[5]);
  }

  /** From the texts of the fields to the next activation: it is the first second after `t` that they describe, or the
      zero time if they describe none up to the end of the fifth year after that of the next second. */
  lemma NextDescribed(s: SpecSchedule, f: seq<string>, t: Time, offset: int, r: Time)
    requires |f| == 6 && Reads(s, f) && IsNextActivation(s, t, r) && t.sec >= 0
    requires s.location == Fixed(offset) || (s.location == Local && t.offset == offset)
    ensures var last := Year(t.sec + 1 + offset) + 5;
      if r == ZERO_TIME then forall u | u > t.sec + offset && Year(u) <= last :: !Described(f, u)
      else
        && r.sec > t.sec && r.nanos == 0 && r.offset == t.offset
        && Described(f, r.sec + offset) && Year(r.sec + offset) <= last
        && forall u | t.sec + offset < u < r.sec + offset :: !Described(f, u)
  {
    hide Matches, Described, Reads, Year;
    var q := SearchFor(s, t);
    assert q == Search(s, t.sec + offset + 1, offset, Year(t.sec + offset + 1) + 5);
    assert t.sec + offset + 1 == t.sec + 1 + offset;
    forall u
      ensures Matches(s, u) <==> Described(f, u)
    {
      MatchesDescribed(s, f, u);
    }
    if u :| InWindow(q, u) && Matches(s, u) {
      var v := LeastMatch(q, u);
      assert r == Time(v - offset, 0, t.offset);
    } else {
      forall u | u > t.sec + offset && Year(u) <= q.limit
        ensures !Described(f, u)
      {
        assert InWindow(q, u);
      }
    }
  }

  // ----- Common specifications -----

  /** `m h d * *` means at h:m on day d of every month, ... */
  lemma OnDayOfMonth(m: nat, h: nat, d: nat, u: int)
    requires m <= 59 && h <= 23 && 1 <= d <= 31
    ensures var f := ["0", NatText(m), NatText(h), NatText(d), "*", "*"];
      AllAccepted(f) && (Described(f, u) <==> Day(u) == d && Hour(u) == h && Minute(u) == m && Second(u) == 0)
  {
    hide Covered, Starred, Accepts, Day, Month, Weekday, Hour, Minute, Second, NatText;
    Numbers(m, h);
    FieldsAreOrdinary();
    OneElement(d, DOM);
    OneElement(0, MONTHS);
    OneElement(0, DOW);
    WeekdayRange(u);
  }

  lemma Numbers(m: nat, h: nat)
    requires m <= 59 && h <= 23
    ensures Accepts("0", SECONDS) && forall i :: Covered(i, "0", SECONDS) <==> i == 0
    ensures Accepts(NatText(m), MINUTES) && forall i :: Covered(i, NatText(m), MINUTES) <==> i == m
    ensures Accepts(NatText(h), HOURS) && forall i :: Covered(i, NatText(h), HOURS) <==> i == h
  {
    hide Covered, Starred, Accepts;
    FieldsAreOrdinary();
    assert NatText(0) == "0";
    OneElement(0, SECONDS);
    OneElement(m, MINUTES);
    OneElement(h, HOURS);
  }

  /** ... `m h * * w` at h:m on weekday w of every week, ... */
  lemma OnWeekday(m: nat, h: nat, w: nat, u: int)
    requires m <= 59 && h <= 23 && w <= 6
    ensures var f := ["0", NatText(m), NatText(h), "*", "*", NatText(w)];
      AllAccepted(f) && (Described(f, u) <==> Weekday(u) == w && Hour(u) == h && Minute(u) == m && Second(u) == 0)
  {
    hide Covered, Starred, Accepts, Day, Month, Weekday, Hour, Minute, Second, NatText;
    Numbers(m, h);
    FieldsAreOrdinary();
    OneElement(0, DOM);
    OneElement(0, MONTHS);
    OneElement(w, DOW);
    MonthBlock(u);
  }

  /** ... and `m h d * w` at h:m on every day that is either. */
  lemma OnEither(m: nat, h: nat, d: nat, w: nat, u: int)
    requires m <= 59 && h <= 23 && 1 <= d <= 31 && w <= 6
    ensures var f := ["0", NatText(m), NatText(h), NatText(d), "*", NatText(w)];
      && AllAccepted(f)
      && (Described(f, u) <==> (Day(u) == d || Weekday(u) == w) && Hour(u) == h && Minute(u) == m && Second(u) == 0)
  {
    hide Covered, Starred, Accepts, Day, Month, Weekday, Hour, Minute, Second, NatText;
    Numbers(m, h);
    FieldsAreOrdinary();
    OneElement(d, DOM);
    OneElement(0, MONTHS);
    OneElement(w, DOW);
  }

  // ----- Descriptors -----

  /** Every value of a field, as a wildcard. */
  function All(b: Bounds): Word { Or(ShiftForm(b.min, b.max), STAR_BIT) }

  function Only(i: nat): Word { Shl({0}, i) }

  /** The schedules that have names of their own; those of `@every` are constant delays. */
  function ParseDescriptor(name: string, location: Location): Option<SpecSchedule> {
    var s := SpecSchedule(Only(SECONDS.min), Only(MINUTES.min), Only(HOURS.min), Only(DOM.min), Only(MONTHS.min),
                          All(DOW), location);
    if name == "@yearly" || name == "@annually" then Some(s)
    else if name == "@monthly" then Some(s.(month := All(MONTHS)))
    else if name == "@weekly" then Some(s.(dom := All(DOM), month := All(MONTHS), dow := Only(DOW.min)))
    else if name == "@daily" || name == "@midnight" then Some(s.(dom := All(DOM), month := All(MONTHS)))
    else if name == "@hourly" then Some(s.(hour := All(HOURS), dom := All(DOM), month := All(MONTHS)))
    else None
  }

  lemma OnlyIs(k: nat, i: int)
    requires k < 63 && 0 <= i < 63
    ensures (Has(Only(k), i) <==> i == k) && !HasStar(Only(k))
  {
    HasIs(Only(k), i);
    HasStarIs(Only(k));
  }

  lemma AllIs(b: Bounds, i: int)
    requires b.max < 63 && 0 <= i < 63
    ensures (Has(All(b), i) <==> b.min <= i <= b.max) && HasStar(All(b))
  {
    HasIs(All(b), i);
    HasStarIs(All(b));
    ShiftFormBits(b.min, b.max);
    assert i in ShiftForm(b.min, b.max) <==> Range(b.min, b.max, 1, false).Covers(i);
  }

  /** What the names promise: the start of every year, month, week from Sunday, day or hour. */
  lemma DescriptorMeans(name: string, location: Location, u: int)
    ensures ParseDescriptor(name, location).Some? <==>
      name in {"@yearly", "@annually", "@monthly", "@weekly", "@daily", "@midnight", "@hourly"}
    ensures ParseDescriptor(name, location).Some? ==>
      var s := ParseDescriptor(name, location).value;
      && s.location == location
      && (Matches(s, u) <==>
            && Second(u) == 0 && Minute(u) == 0
            && (name != "@hourly" ==> Hour(u) == 0)
            && (name == "@weekly" ==> Weekday(u) == 0)
            && (name in {"@yearly", "@annually", "@monthly"} ==> Day(u) == 1)
            && (name in {"@yearly", "@annually"} ==> Month(u) == 1))
  {
    hide Has, HasStar, All, Only, Day, Month, Weekday, Hour, Minute, Second;
    TimeOfDay(u);
    MonthBlock(u);
    WeekdayRange(u);
    OnlyIs(0, Second(u));
    OnlyIs(0, Minute(u));
    OnlyIs(0, Hour(u));
    OnlyIs(0, Weekday(u));
    OnlyIs(1, Day(u));
    OnlyIs(1, Month(u));
    AllIs(HOURS, Hour(u));
    AllIs(DOM, Day(u));
    AllIs(MONTHS, Month(u));
    AllIs(DOW, Weekday(u));
  }
}
