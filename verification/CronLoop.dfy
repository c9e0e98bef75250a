/** The cron run loop: entries ordered by next activation, events that change them, and runs of events. */
module CronLoop {
  import opened Texts

  /** An instant in nanoseconds. */
  type Instant = int

  /** The next activation after an instant; none is the zero time. */
  type Schedule = Instant -> Option<Instant>

  /** What a schedule promises: an activation later than the given time. */
  ghost predicate Lawful(s: Schedule) {
    forall t :: s(t).Some? ==> t < s(t).value
  }

  datatype Entry = Entry(id: nat, schedule: Schedule, next: Option<Instant>, prev: Option<Instant>)

  /** A job that was started: whose, for which activation, and when. */
  datatype Start = Started(id: nat, at: Instant, now: Instant)

  datatype State = State(entries: seq<Entry>, running: bool, nextID: nat, clock: Instant, log: seq<Start>,
                         removed: set<nat>)

  // ----- Order -----

  /** The comparison the entries are sorted by: zero times last. */
  function Compare(a: Option<Instant>, b: Option<Instant>): int {
    if a.None? && b.None? then 0
    else if a.None? then 1
    else if b.None? then -1
    else if a.value < b.value then -1
    else if b.value < a.value then 1
    else 0
  }

  predicate Sorted(es: seq<Entry>) {
    forall i, j | 0 <= i < j < |es| :: Compare(es[i].next, es[j].next) <= 0
  }

  /** Any result of sorting: the order of entries with equal times is left open. */
  ghost predicate SortOf(es: seq<Entry>, r: seq<Entry>) {
    Sorted(r) && multiset(r) == multiset(es)
  }

  ghost predicate DistinctIds(es: seq<Entry>) {
    forall i, j | 0 <= i < j < |es| :: es[i].id != es[j].id
  }

  lemma SplitLast(es: seq<Entry>)
    requires es != []
    ensures multiset(es) == multiset(es[..|es| - 1]) + multiset{es[|es| - 1]}
  {
    assert es == es[..|es| - 1] + [es[|es| - 1]];
  }

  lemma {:induction false} DistinctOnce(es: seq<Entry>, e: Entry)
    requires DistinctIds(es)
    ensures multiset(es)[e] <= 1
  {
    if es != [] {
      var n := |es| - 1;
      SplitLast(es);
      DistinctOnce(es[..n], e);
      if es[n] == e {
        assert e !in es[..n];
        assert e !in multiset(es[..n]);
      }
    }
  }

  lemma TwiceInSequence(es: seq<Entry>, i: nat, j: nat)
    requires i < j < |es| && es[i] == es[j]
    ensures multiset(es)[es[i]] >= 2
  {
    assert es == es[..j] + es[j..];
    assert es[..j][i] == es[i] && es[j..][0] == es[j];
    assert es[i] in multiset(es[..j]) && es[i] in multiset(es[j..]);
  }

  lemma SameMembers(es: seq<Entry>, r: seq<Entry>)
    requires multiset(r) == multiset(es)
    ensures |r| == |es| && forall e :: e in r <==> e in es
  {
    assert |multiset(r)| == |r| && |multiset(es)| == |es|;
    forall e
      ensures e in r <==> e in es
    {
      assert e in r <==> e in multiset(r);
      assert e in es <==> e in multiset(es);
    }
  }

  /** Sorting keeps ids distinct. */
  lemma SortedIds(es: seq<Entry>, r: seq<Entry>)
    requires DistinctIds(es) && multiset(r) == multiset(es)
    ensures DistinctIds(r)
  {
    SameMembers(es, r);
    forall i, j | 0 <= i < j < |r|
      ensures r[i].id != r[j].id
    {
      if r[i] == r[j] {
        TwiceInSequence(r, i, j);
        DistinctOnce(es, r[i]);
      } else {
        assert r[i] in es && r[j] in es;
      }
    }
  }

  // ----- What events do to entries -----

  predicate Due(e: Entry, now: Instant) { e.next.Some? && e.next.value <= now }

  function Fire(e: Entry, now: Instant): Entry { e.(prev := e.next, next := e.schedule(now)) }

  function Rescheduled(e: Entry, now: Instant): Entry { e.(next := e.schedule(now)) }

  function RescheduleAll(es: seq<Entry>, now: Instant): seq<Entry> {
    seq(|es|, i requires 0 <= i < |es| => Rescheduled(es[i], now))
  }

  function Without(es: seq<Entry>, id: nat): seq<Entry> {
    if es == [] then []
    else
      var front, last := es[..|es| - 1], es[|es| - 1];
      if last.id != id then Without(front, id) + [last] else Without(front, id)
  }

  /** All entries that are due, wherever they stand, fired. */
  function FireAll(es: seq<Entry>, now: Instant): seq<Entry> {
    seq(|es|, i requires 0 <= i < |es| => if Due(es[i], now) then Fire(es[i], now) else es[i])
  }

  function StartOf(e: Entry, now: Instant): Start
    requires Due(e, now)
  {
    Started(e.id, e.next.value, now)
  }

  /** One start for each entry that is due, wherever it stands. */
  function DueStarts(es: seq<Entry>, now: Instant): seq<Start> {
    if es == [] then []
    else
      var front, last := es[..|es| - 1], es[|es| - 1];
      DueStarts(front, now) + (if Due(last, now) then [StartOf(last, now)] else [])
  }

  /** In sorted entries nothing is due after the first entry that is not. */
  lemma NoneDueAfter(es: seq<Entry>, now: Instant, i: nat)
    requires Sorted(es) && i < |es| && !Due(es[i], now)
    ensures forall j | i <= j < |es| :: !Due(es[j], now)
  {
    forall j | i < j < |es|
      ensures !Due(es[j], now)
    {
      assert Compare(es[i].next, es[j].next) <= 0;
    }
  }

  lemma {:induction false} NoMoreStarts(es: seq<Entry>, now: Instant, i: nat)
    requires i <= |es| && forall j | i <= j < |es| :: !Due(es[j], now)
    ensures DueStarts(es, now) == DueStarts(es[..i], now)
    decreases |es| - i
  {
    if i == |es| {
      assert es[..i] == es;
    } else {
      NoMoreStarts(es, now, i + 1);
      assert es[..i + 1][..i] == es[..i];
    }
  }

  // ----- Steps -----

  datatype Event =
    | Schedule(schedule: Schedule)
    | Remove(id: nat)
    | Start
    | Stop
    | Wake
    | Snapshot

  ghost predicate Init(s: State) {
    s.entries == [] && !s.running && s.nextID == 0 && s.log == [] && s.removed == {}
  }

  ghost predicate Scheduled(s: State, schedule: Schedule, now: Instant, s': State) {
    var id := s.nextID + 1;
    && s' == s.(entries := s'.entries, nextID := id, clock := now)
    && if s.running then SortOf(s.entries + [Entry(id, schedule, schedule(now), None)], s'.entries)
       else s'.entries == s.entries + [Entry(id, schedule, None, None)]
  }

  ghost predicate Removed(s: State, id: nat, now: Instant, s': State) {
    && s' == s.(entries := s'.entries, clock := now, removed := s.removed + if id <= s.nextID then {id} else {})
    && if s.running then SortOf(Without(s.entries, id), s'.entries) else s'.entries == Without(s.entries, id)
  }

  ghost predicate Begun(s: State, now: Instant, s': State) {
    if s.running then s' == s.(clock := now)
    else
      && s' == s.(entries := s'.entries, running := true, clock := now)
      && SortOf(RescheduleAll(s.entries, now), s'.entries)
  }

  ghost predicate Woken(s: State, now: Instant, s': State) {
    && s.running && s' == s.(entries := s'.entries, clock := now, log := s.log + DueStarts(s.entries, now))
    && SortOf(FireAll(s.entries, now), s'.entries)
  }

  /** One event at the time `now`; the clock never goes back. */
  ghost predicate Step(s: State, e: Event, now: Instant, s': State) {
    && s.clock <= now
    && match e
       case Schedule(schedule) => Lawful(schedule) && Scheduled(s, schedule, now, s')
       case Remove(id) => Removed(s, id, now, s')
       case Start => Begun(s, now, s')
       case Stop => s' == s.(running := false, clock := now)
       case Wake => Woken(s, now, s')
       case Snapshot => s' == s.(clock := now)
  }

  // ----- The invariant -----

  ghost predicate EntryOk(s: State, e: Entry) {
    && 1 <= e.id <= s.nextID && e.id !in s.removed && Lawful(e.schedule)
    && (e.prev.Some? ==> e.prev.value <= s.clock)
    && (e.prev.Some? && e.next.Some? ==> e.prev.value < e.next.value)
  }

  /** A start in the log was not early, and is not later than what its entry remembers. */
  ghost predicate StartOk(s: State, x: Start) {
    && x.id <= s.nextID && x.at <= x.now <= s.clock
    && forall e | e in s.entries && e.id == x.id :: e.prev.Some? && x.at <= e.prev.value
  }

  ghost predicate Increasing(log: seq<Start>) {
    forall i, j | 0 <= i < j < |log| && log[i].id == log[j].id :: log[i].at < log[j].at
  }

  ghost predicate Inv(s: State) {
    && DistinctIds(s.entries)
    && (s.running ==> Sorted(s.entries))
    && (forall id | id in s.removed :: id <= s.nextID)
    && (forall e | e in s.entries :: EntryOk(s, e))
    && (forall x | x in s.log :: StartOk(s, x))
    && Increasing(s.log)
  }

  lemma InitOk(s: State)
    requires Init(s)
    ensures Inv(s)
  {
  }

  lemma {:induction false} WithoutIs(es: seq<Entry>, id: nat)
    ensures forall e :: e in Without(es, id) <==> e in es && e.id != id
    ensures DistinctIds(es) ==> DistinctIds(Without(es, id))
    ensures |Without(es, id)| <= |es|
  {
    if es != [] {
      var n := |es| - 1;
      WithoutIs(es[..n], id);
      assert forall e :: e in es <==> e in es[..n] || e == es[n];
      if DistinctIds(es) {
        assert forall e | e in es[..n] :: e.id != es[n].id;
      }
    }
  }

  /** The starts of a wake: one for each entry that is due and no other, none twice. */
  lemma {:induction false} DueStartsIs(es: seq<Entry>, now: Instant)
    ensures forall e | e in es && Due(e, now) :: StartOf(e, now) in DueStarts(es, now)
    ensures forall x | x in DueStarts(es, now) :: exists e :: e in es && Due(e, now) && x == StartOf(e, now)
    ensures DistinctIds(es) ==>
      forall i, j | 0 <= i < j < |DueStarts(es, now)| :: DueStarts(es, now)[i].id != DueStarts(es, now)[j].id
  {
    if es != [] {
      var n := |es| - 1;
      var front := es[..n];
      DueStartsIs(front, now);
      assert forall e :: e in es <==> e in front || e == es[n];
      if DistinctIds(es) {
        forall x | x in DueStarts(front, now)
          ensures x.id != es[n].id
        {
          var e :| e in front && Due(e, now) && x == StartOf(e, now);
        }
      }
    }
  }

  function Fired(e: Entry, now: Instant): Entry { if Due(e, now) then Fire(e, now) else e }

  lemma FireAllIs(es: seq<Entry>, now: Instant)
    ensures |FireAll(es, now)| == |es|
    ensures forall e | e in es :: Fired(e, now) in FireAll(es, now)
    ensures forall f | f in FireAll(es, now) :: exists e :: e in es && f == Fired(e, now)
    ensures DistinctIds(es) ==> DistinctIds(FireAll(es, now))
  {
    var r := FireAll(es, now);
    assert forall i | 0 <= i < |es| :: r[i] == Fired(es[i], now);
    forall e | e in es
      ensures Fired(e, now) in r
    {
      var i :| 0 <= i < |es| && es[i] == e;
      assert r[i] == Fired(e, now);
    }
    forall f | f in r
      ensures exists e :: e in es && f == Fired(e, now)
    {
      var i :| 0 <= i < |r| && r[i] == f;
      assert es[i] in es;
    }
  }

  lemma RescheduleAllIs(es: seq<Entry>, now: Instant)
    ensures |RescheduleAll(es, now)| == |es|
    ensures forall e | e in es :: Rescheduled(e, now) in RescheduleAll(es, now)
    ensures forall f | f in RescheduleAll(es, now) :: exists e :: e in es && f == Rescheduled(e, now)
    ensures DistinctIds(es) ==> DistinctIds(RescheduleAll(es, now))
  {
    var r := RescheduleAll(es, now);
    assert forall i | 0 <= i < |es| :: r[i] == Rescheduled(es[i], now);
    forall e | e in es
      ensures Rescheduled(e, now) in r
    {
      var i :| 0 <= i < |es| && es[i] == e;
      assert r[i] == Rescheduled(e, now);
    }
    forall f | f in r
      ensures exists e :: e in es && f == Rescheduled(e, now)
    {
      var i :| 0 <= i < |r| && r[i] == f;
      assert es[i] in es;
    }
  }

  // ----- Each step keeps the invariant -----

  lemma ScheduleKeeps(s: State, schedule: Schedule, now: Instant, s': State)
    requires Inv(s) && s.clock <= now && Lawful(schedule) && Scheduled(s, schedule, now, s')
    ensures Inv(s')
  {
    hide Sorted, Increasing, Lawful;
    var added := Entry(s.nextID + 1, schedule, if s.running then schedule(now) else None, None);
    var es := s.entries + [added];
    assert forall e | e in s.entries :: EntryOk(s, e);
    forall i, j | 0 <= i < j < |es|
      ensures es[i].id != es[j].id
    {
      assert es[i] == s.entries[i] && EntryOk(s, es[i]);
    }
    if s.running {
      SameMembers(es, s'.entries);
      SortedIds(es, s'.entries);
    }
    assert forall e | e in s'.entries :: e in s.entries || e == added;
    assert forall x | x in s.log :: StartOk(s, x);
  }

  lemma RemoveKeeps(s: State, id: nat, now: Instant, s': State)
    requires Inv(s) && s.clock <= now && Removed(s, id, now, s')
    ensures Inv(s')
  {
    hide Sorted, Increasing, Lawful, Without;
    var es := Without(s.entries, id);
    WithoutIs(s.entries, id);
    if s.running {
      SameMembers(es, s'.entries);
      SortedIds(es, s'.entries);
    }
    assert forall e | e in s'.entries :: e in s.entries && e.id != id && EntryOk(s, e);
    assert forall x | x in s.log :: StartOk(s, x);
  }

  lemma StartKeeps(s: State, now: Instant, s': State)
    requires Inv(s) && s.clock <= now && Begun(s, now, s')
    ensures Inv(s')
  {
    hide Sorted, Increasing, RescheduleAll;
    if !s.running {
      var es := RescheduleAll(s.entries, now);
      RescheduleAllIs(s.entries, now);
      SameMembers(es, s'.entries);
      SortedIds(es, s'.entries);
      forall f | f in s'.entries
        ensures EntryOk(s', f)
      {
        var e :| e in s.entries && f == Rescheduled(e, now);
        assert EntryOk(s, e);
      }
      forall x | x in s.log
        ensures StartOk(s', x)
      {
        assert StartOk(s, x);
        forall f | f in s'.entries && f.id == x.id
          ensures f.prev.Some? && x.at <= f.prev.value
        {
          var e :| e in s.entries && f == Rescheduled(e, now);
        }
      }
    }
  }

  lemma FiredOk(s: State, e: Entry, now: Instant, s': State)
    requires EntryOk(s, e) && s.clock <= now && s'.clock == now && s'.nextID == s.nextID && s'.removed == s.removed
    ensures EntryOk(s', Fired(e, now)) && !Due(Fired(e, now), now)
    ensures forall x | StartOk(s, x) && e in s.entries && e.id == x.id ::
      Fired(e, now).prev.Some? && x.at <= Fired(e, now).prev.value
    ensures forall x | StartOk(s, x) && e in s.entries && e.id == x.id && Due(e, now) :: x.at < e.next.value
  {
  }

  lemma WakeKeeps(s: State, now: Instant, s': State)
    requires Inv(s) && s.clock <= now && Woken(s, now, s')
    ensures Inv(s')
    ensures forall e | e in s'.entries :: !Due(e, now)
  {
    hide Sorted, Increasing, FireAll, DueStarts, Lawful, EntryOk, StartOk;
    FireAllIs(s.entries, now);
    SameMembers(FireAll(s.entries, now), s'.entries);
    SortedIds(FireAll(s.entries, now), s'.entries);
    forall f | f in s'.entries
      ensures EntryOk(s', f) && !Due(f, now)
    {
      var e :| e in s.entries && f == Fired(e, now);
      FiredOk(s, e, now, s');
    }
    forall x | x in s'.log
      ensures StartOk(s', x)
    {
      if x in s.log {
        OldStartOk(s, x, now, s');
      } else {
        assert x in DueStarts(s.entries, now);
        NewStartOk(s, x, now, s');
      }
    }
    WakeIncreases(s, now);
  }

  lemma OldStartOk(s: State, x: Start, now: Instant, s': State)
    requires Inv(s) && s.clock <= now && Woken(s, now, s') && x in s.log
    ensures StartOk(s', x)
  {
    hide Sorted, Increasing, FireAll, DueStarts, Lawful;
    assert StartOk(s, x);
    FireAllIs(s.entries, now);
    SameMembers(FireAll(s.entries, now), s'.entries);
    forall f | f in s'.entries && f.id == x.id
      ensures f.prev.Some? && x.at <= f.prev.value
    {
      var e :| e in s.entries && f == Fired(e, now);
      assert EntryOk(s, e);
      FiredOk(s, e, now, s');
    }
  }

  lemma NewStartOk(s: State, x: Start, now: Instant, s': State)
    requires Inv(s) && s.clock <= now && Woken(s, now, s') && x in DueStarts(s.entries, now)
    ensures StartOk(s', x)
  {
    hide Sorted, Increasing, FireAll, DueStarts, Lawful;
    DueStartsIs(s.entries, now);
    var d :| d in s.entries && Due(d, now) && x == StartOf(d, now);
    assert EntryOk(s, d);
    FireAllIs(s.entries, now);
    SameMembers(FireAll(s.entries, now), s'.entries);
    forall f | f in s'.entries && f.id == x.id
      ensures f.prev.Some? && x.at <= f.prev.value
    {
      var e :| e in s.entries && f == Fired(e, now);
      assert e == d;
    }
  }

  /** A wake starts each job for a later activation than any before. */
  lemma WakeIncreases(s: State, now: Instant)
    requires Inv(s) && s.clock <= now
    ensures Increasing(s.log + DueStarts(s.entries, now))
  {
    hide Sorted, DueStarts, Lawful;
    var starts := DueStarts(s.entries, now);
    var log := s.log + starts;
    DueStartsIs(s.entries, now);
    forall i, j | 0 <= i < j < |log| && log[i].id == log[j].id
      ensures log[i].at < log[j].at
    {
      if j >= |s.log| {
        assert log[j] == starts[j - |s.log|] && log[j] in starts;
        var e :| e in s.entries && Due(e, now) && log[j] == StartOf(e, now);
        assert EntryOk(s, e);
        if i < |s.log| {
          assert log[i] in s.log;
          assert StartOk(s, log[i]);
        }
      }
    }
  }

  lemma StepKeeps(s: State, e: Event, now: Instant, s': State)
    requires Inv(s) && Step(s, e, now, s')
    ensures Inv(s')
  {
    hide Sorted, Increasing, DistinctIds, Lawful, Scheduled, Removed, Begun, Woken;
    match e
    case Schedule(schedule) => ScheduleKeeps(s, schedule, now, s');
    case Remove(id) => RemoveKeeps(s, id, now, s');
    case Start => StartKeeps(s, now, s');
    case Wake => WakeKeeps(s, now, s');
    case _ =>
      assert forall x | x in s.entries :: EntryOk(s, x);
      assert forall x | x in s.log :: StartOk(s, x);
  }

  // ----- What each event does -----

  /** A new entry waits for its first activation after now, if the loop runs; the others stay as they are. */
  lemma AddExact(s: State, schedule: Schedule, now: Instant, s': State)
    requires Step(s, Schedule(schedule), now, s')
    ensures s'.running == s.running && s'.log == s.log && s'.nextID == s.nextID + 1
    ensures |s'.entries| == |s.entries| + 1
    ensures var added := Entry(s'.nextID, schedule, if s.running then schedule(now) else None, None);
      forall e :: e in s'.entries <==> e in s.entries || e == added
  {
    hide Sorted, Lawful;
    if s.running {
      SameMembers(s.entries + [Entry(s.nextID + 1, schedule, schedule(now), None)], s'.entries);
    }
  }

  /** Exactly the entry with the id leaves. */
  lemma RemoveExact(s: State, id: nat, now: Instant, s': State)
    requires Step(s, Remove(id), now, s')
    ensures s'.running == s.running && s'.log == s.log && s'.nextID == s.nextID
    ensures forall e :: e in s'.entries <==> e in s.entries && e.id != id
  {
    hide Sorted, Without;
    WithoutIs(s.entries, id);
    if s.running {
      SameMembers(Without(s.entries, id), s'.entries);
    }
  }

  /** When the loop starts, every entry waits for its first activation after now, and the timer is set to the earliest
      of them, or to none exactly if there is none. Nothing happens if the loop runs. */
  lemma StartExact(s: State, now: Instant, s': State)
    requires Step(s, Start, now, s')
    ensures s'.running && s'.log == s.log && s'.nextID == s.nextID && |s'.entries| == |s.entries|
    ensures s.running ==> s'.entries == s.entries
    ensures !s.running ==>
      && (forall e | e in s.entries :: e.(next := e.schedule(now)) in s'.entries)
      && (forall f | f in s'.entries :: exists e :: e in s.entries && f == e.(next := e.schedule(now)))
    ensures !s.running ==> TimerIsEarliest(s.entries, now, SleepUntil(s'.entries))
  {
    hide RescheduleAll, SleepUntil, Sorted;
    if !s.running {
      RescheduleAllIs(s.entries, now);
      SameMembers(RescheduleAll(s.entries, now), s'.entries);
      SleepsUntilEarliest(s'.entries);
      EarliestOfAll(s.entries, now, s'.entries, SleepUntil(s'.entries));
    }
  }

  /** The earliest activation after now that the schedule of any entry gives. */
  ghost predicate TimerIsEarliest(es: seq<Entry>, now: Instant, timer: Option<Instant>) {
    if timer.None? then forall e | e in es :: e.schedule(now).None?
    else
      && (exists e :: e in es && e.schedule(now) == timer)
      && forall e | e in es && e.schedule(now).Some? :: timer.value <= e.schedule(now).value
  }

  lemma EarliestOfAll(es: seq<Entry>, now: Instant, fs: seq<Entry>, timer: Option<Instant>)
    requires forall e | e in es :: e.(next := e.schedule(now)) in fs
    requires forall f | f in fs :: exists e :: e in es && f == e.(next := e.schedule(now))
    requires timer.None? <==> forall f | f in fs :: f.next.None?
    requires timer.Some? ==> exists f :: f in fs && f.next == timer
    requires timer.Some? ==> forall f | f in fs && f.next.Some? :: timer.value <= f.next.value
    ensures TimerIsEarliest(es, now, timer)
  {
    forall e | e in es
      ensures e.schedule(now).Some? ==> timer.Some? && timer.value <= e.schedule(now).value
    {
      assert e.(next := e.schedule(now)) in fs;
    }
    if timer.Some? {
      var f :| f in fs && f.next == timer;
      var e :| e in es && f == e.(next := e.schedule(now));
      assert e.schedule(now) == timer;
    }
  }

  /** Stopping and taking a snapshot leave entries and starts alone. */
  lemma QuietExact(s: State, e: Event, now: Instant, s': State)
    requires Step(s, e, now, s') && (e.Stop? || e.Snapshot?)
    ensures s'.entries == s.entries && s'.log == s.log && s'.nextID == s.nextID
    ensures s'.running == (if e.Stop? then false else s.running)
  {
  }

  /** At a wake each entry whose activation is not after now starts exactly once, for that activation, and no other
      does. It remembers the activation and waits for the first one after now; the other entries stay as they are, and
      afterwards no activation is left that is not after now. */
  lemma WakeExact(s: State, now: Instant, s': State)
    requires Inv(s) && Step(s, Wake, now, s')
    ensures s.running && s'.running && s'.nextID == s.nextID
    ensures s.log <= s'.log && |s'.entries| == |s.entries|
    ensures var starts := s'.log[|s.log|..];
      && (forall e | e in s.entries && e.next.Some? && e.next.value <= now ::
            Started(e.id, e.next.value, now) in starts)
      && (forall x | x in starts ::
            x.now == now && x.at <= now && exists e :: e in s.entries && e.id == x.id && e.next == Some(x.at))
      && (forall i, j | 0 <= i < j < |starts| :: starts[i].id != starts[j].id)
    ensures forall e | e in s'.entries :: e.next.Some? ==> e.next.value > now
    ensures forall e | e in s.entries && e.next.Some? && e.next.value <= now ::
      e.(prev := e.next, next := e.schedule(now)) in s'.entries
    ensures forall e | e in s.entries && !(e.next.Some? && e.next.value <= now) :: e in s'.entries
    ensures forall f | f in s'.entries ::
      exists e :: e in s.entries &&
        f == if e.next.Some? && e.next.value <= now then e.(prev := e.next, next := e.schedule(now)) else e
  {
    hide Sorted, Increasing, FireAll, DueStarts, Lawful, EntryOk, StartOk;
    WakeKeeps(s, now, s');
    DueStartsIs(s.entries, now);
    FireAllIs(s.entries, now);
    SameMembers(FireAll(s.entries, now), s'.entries);
    var starts := DueStarts(s.entries, now);
    assert s'.log[|s.log|..] == starts;
    forall x | x in starts
      ensures x.now == now && x.at <= now && exists e :: e in s.entries && e.id == x.id && e.next == Some(x.at)
    {
      var e :| e in s.entries && Due(e, now) && x == StartOf(e, now);
      assert e.id == x.id && e.next == Some(x.at);
    }
    assert forall e | e in s.entries :: Fired(e, now) in s'.entries;
  }

  // ----- Runs -----

  datatype Happening = Happening(event: Event, now: Instant)

  ghost predicate IsRun(states: seq<State>, events: seq<Happening>) {
    && |states| == |events| + 1 && Init(states[0])
    && forall i | 0 <= i < |events| :: Step(states[i], events[i].event, events[i].now, states[i + 1])
  }

  /** In every run ids are distinct, no removed entry is left, each previous activation is before the next one, no job
      starts early, and the activations for which an entry starts increase, across stops and restarts. */
  lemma {:induction false} RunSafe(states: seq<State>, events: seq<Happening>, i: nat)
    requires IsRun(states, events) && i < |states|
    ensures Inv(states[i])
  {
    hide Inv, Step, Init;
    if i == 0 {
      InitOk(states[0]);
    } else {
      RunSafe(states, events, i - 1);
      StepKeeps(states[i - 1], events[i - 1].event, events[i - 1].now, states[i]);
    }
  }

  ghost predicate Later(s: State, s': State) {
    s.nextID <= s'.nextID && s.log <= s'.log && s.removed <= s'.removed && s.clock <= s'.clock
  }

  lemma StepLater(s: State, e: Event, now: Instant, s': State)
    requires Step(s, e, now, s')
    ensures Later(s, s')
    ensures e.Schedule? ==> s'.nextID == s.nextID + 1
    ensures e.Remove? && e.id <= s.nextID ==> e.id in s'.removed
  {
    hide SortOf, Without, RescheduleAll, FireAll, DueStarts, Lawful;
  }

  lemma {:induction false} RunLater(states: seq<State>, events: seq<Happening>, i: nat, j: nat)
    requires IsRun(states, events) && i <= j < |states|
    ensures Later(states[i], states[j])
    decreases j
  {
    hide Step, Init;
    if i < j {
      RunLater(states, events, i, j - 1);
      StepLater(states[j - 1], events[j - 1].event, events[j - 1].now, states[j]);
    }
  }

  /** The id given to an entry is new, and never given again. */
  lemma IdsNeverReused(states: seq<State>, events: seq<Happening>, i: nat, j: nat)
    requires IsRun(states, events) && i < j < |events| && events[i].event.Schedule? && events[j].event.Schedule?
    ensures states[i + 1].nextID != states[j + 1].nextID
    ensures forall e | e in states[i].entries :: e.id != states[i + 1].nextID
  {
    hide Step, Init;
    RunLater(states, events, i + 1, j);
    StepLater(states[i], events[i].event, events[i].now, states[i + 1]);
    StepLater(states[j], events[j].event, events[j].now, states[j + 1]);
    RunSafe(states, events, i);
    assert forall e | e in states[i].entries :: EntryOk(states[i], e);
  }

  lemma StartsAreListed(s: State, e: Event, now: Instant, s': State)
    requires Inv(s) && Step(s, e, now, s')
    ensures s.log <= s'.log
    ensures forall k | |s.log| <= k < |s'.log| :: s'.log[k].id !in s.removed
  {
    hide SortOf, Without, RescheduleAll, FireAll, DueStarts, Lawful;
    if e.Wake? {
      DueStartsIs(s.entries, now);
      forall k | |s.log| <= k < |s'.log|
        ensures s'.log[k].id !in s.removed
      {
        assert s'.log[k] == DueStarts(s.entries, now)[k - |s.log|] && s'.log[k] in DueStarts(s.entries, now);
        var d :| d in s.entries && Due(d, now) && s'.log[k] == StartOf(d, now);
        assert EntryOk(s, d);
      }
    }
  }

  /** Once an entry is removed it never starts again and never comes back, whatever happens later. */
  lemma {:induction false} RemovedNeverStarts(states: seq<State>, events: seq<Happening>, i: nat, j: nat)
    requires IsRun(states, events) && i < |events| && i < j < |states|
    requires events[i].event.Remove? && events[i].event.id <= states[i].nextID
    ensures var id := events[i].event.id;
      && |states[i].log| <= |states[j].log|
      && (forall k | |states[i].log| <= k < |states[j].log| :: states[j].log[k].id != id)
      && (forall e | e in states[j].entries :: e.id != id)
    decreases j
  {
    hide Step, Init;
    var id := events[i].event.id;
    RunSafe(states, events, j);
    RunLater(states, events, i + 1, j);
    StepLater(states[i], events[i].event, events[i].now, states[i + 1]);
    assert forall e | e in states[j].entries :: EntryOk(states[j], e);
    if j == i + 1 {
      RemoveStartsNothing(states[i], id, events[i].now, states[j]);
    } else {
      RemovedNeverStarts(states, events, i, j - 1);
      RunSafe(states, events, j - 1);
      RunLater(states, events, i + 1, j - 1);
      StartsAreListed(states[j - 1], events[j - 1].event, events[j - 1].now, states[j]);
    }
  }

  lemma RemoveStartsNothing(s: State, id: nat, now: Instant, s': State)
    requires Step(s, Remove(id), now, s')
    ensures s'.log == s.log
  {
  }

  // ----- The timer -----

  /** How long the loop sleeps: until the activation of the first entry, or for good. */
  function SleepUntil(es: seq<Entry>): Option<Instant> {
    if es == [] then None else es[0].next
  }

  /** That is the earliest activation of any entry, and none exactly if no entry has one. */
  lemma SleepsUntilEarliest(es: seq<Entry>)
    requires Sorted(es)
    ensures SleepUntil(es).None? <==> forall e | e in es :: e.next.None?
    ensures SleepUntil(es).Some? ==>
      (exists e :: e in es && e.next == SleepUntil(es)) &&
      forall e | e in es && e.next.Some? :: SleepUntil(es).value <= e.next.value
  {
    forall i | 0 < i < |es|
      ensures Compare(es[0].next, es[i].next) <= 0
    {
    }
    if es != [] {
      assert es[0] in es;
    }
  }

  /** A wake at the very time the loop slept for starts jobs for that activation only, and each goes on to wait for the
      activation that its schedule gives after it: none is passed over. */
  lemma PunctualWake(s: State, now: Instant, s': State)
    requires Inv(s) && Step(s, Wake, now, s') && SleepUntil(s.entries) == Some(now)
    ensures forall x | x in s'.log[|s.log|..] :: x.at == now
    ensures exists e :: e in s.entries && Due(e, now)
    ensures forall e | e in s.entries && Due(e, now) ::
      e.next == Some(now) && e.(prev := Some(now), next := e.schedule(now)) in s'.entries
  {
    hide Inv, Step, SleepUntil, Sorted;
    assert Sorted(s.entries) by { SortedWhileRunning(s, now, s'); }
    SleepsUntilEarliest(s.entries);
    var first :| first in s.entries && first.next == SleepUntil(s.entries);
    assert Due(first, now);
    forall e | e in s.entries && Due(e, now)
      ensures e.next == Some(now) && e.(prev := Some(now), next := e.schedule(now)) in s'.entries
    {
      WakeExact(s, now, s');
    }
    assert s.log <= s'.log by { WakeExact(s, now, s'); }
    forall x | x in s'.log[|s.log|..]
      ensures x.at == now
    {
      WakeExact(s, now, s');
      var e :| e in s.entries && e.id == x.id && e.next == Some(x.at);
    }
  }

  lemma SortedWhileRunning(s: State, now: Instant, s': State)
    requires Inv(s) && Step(s, Wake, now, s')
    ensures Sorted(s.entries)
  {
  }

  // ----- What entries wait for and remember -----

  /** The event makes the entry with the id wait for the first activation after it. */
  ghost predicate Refreshes(s: State, e: Event, now: Instant, id: nat) {
    || (e.Start? && !s.running)
    || (e.Schedule? && id == s.nextID + 1)
    || (e.Wake? && exists x :: x in s.entries && x.id == id && x.next.Some? && x.next.value <= now)
  }

  /** When the entry with the id was last made to wait, before state `i`. */
  ghost function Since(states: seq<State>, events: seq<Happening>, i: nat, id: nat): Instant
    requires |states| == |events| + 1 && i < |states|
  {
    if i == 0 then states[0].clock
    else if Refreshes(states[i - 1], events[i - 1].event, events[i - 1].now, id) then events[i - 1].now
    else Since(states, events, i - 1, id)
  }

  lemma NextStep(s: State, ev: Event, now: Instant, s': State, f: Entry)
    requires Inv(s) && Step(s, ev, now, s') && s'.running && f in s'.entries
    ensures if Refreshes(s, ev, now, f.id) then f.next == f.schedule(now)
            else s.running && exists e :: e in s.entries && e == f.(prev := e.prev)
  {
    hide Step, Inv;
    match ev
    case Schedule(schedule) =>
      AddExact(s, schedule, now, s');
      IdIsNew(s);
      if f in s.entries {
        assert f == f.(prev := f.prev);
      }
    case Remove(id) =>
      RemoveExact(s, id, now, s');
      assert f == f.(prev := f.prev);
    case Start =>
      StartExact(s, now, s');
      if s.running {
        assert f == f.(prev := f.prev);
      }
    case Wake =>
      WakeExact(s, now, s');
      var e :| e in s.entries &&
        f == if e.next.Some? && e.next.value <= now then e.(prev := e.next, next := e.schedule(now)) else e;
      OneById(s, e);
      assert !(e.next.Some? && e.next.value <= now) ==> e == f.(prev := e.prev);
    case Stop => QuietExact(s, ev, now, s');
    case Snapshot =>
      QuietExact(s, ev, now, s');
      assert f == f.(prev := f.prev);
  }

  lemma OneById(s: State, e: Entry)
    requires Inv(s) && e in s.entries
    ensures forall x | x in s.entries && x.id == e.id :: x == e
  {
  }

  /** While the loop runs, every entry waits for the first activation after the last time it was made to wait: when the
      loop started, when the entry was added, or when it last ran. */
  lemma {:induction false} WaitsForNext(states: seq<State>, events: seq<Happening>, i: nat, e: Entry)
    requires IsRun(states, events) && i < |states| && states[i].running && e in states[i].entries
    ensures e.next == e.schedule(Since(states, events, i, e.id))
  {
    hide Step, Inv, Refreshes;
    if i == 0 {
      assert false;
    } else {
      var s, h := states[i - 1], events[i - 1];
      RunSafe(states, events, i - 1);
      NextStep(s, h.event, h.now, states[i], e);
      if !Refreshes(s, h.event, h.now, e.id) {
        var x :| x in s.entries && x == e.(prev := x.prev);
        WaitsForNext(states, events, i - 1, x);
      }
    }
  }

  /** So every job starts for the activation that its schedule gives after that time: none is made up or passed over. */
  lemma StartsAreScheduled(states: seq<State>, events: seq<Happening>, j: nat, x: Start)
    requires IsRun(states, events) && j < |events| && events[j].event.Wake?
    requires |states[j].log| <= |states[j + 1].log| && x in states[j + 1].log[|states[j].log|..]
    ensures exists e ::
      e in states[j].entries && e.id == x.id && e.schedule(Since(states, events, j, x.id)) == Some(x.at)
  {
    hide Step, Inv, Since;
    RunSafe(states, events, j);
    WakeExact(states[j], events[j].now, states[j + 1]);
    var e :| e in states[j].entries && e.id == x.id && e.next == Some(x.at);
    WaitsForNext(states, events, j, e);
  }

  /** The activation for which the entry with the id last started. */
  function LastStart(log: seq<Start>, id: nat): Option<Instant> {
    if log == [] then None
    else
      var n := |log| - 1;
      if log[n].id == id then Some(log[n].at) else LastStart(log[..n], id)
  }

  lemma {:induction false} NeverStarted(log: seq<Start>, id: nat)
    requires forall x | x in log :: x.id != id
    ensures LastStart(log, id) == None
  {
    if log != [] {
      NeverStarted(log[..|log| - 1], id);
    }
  }

  lemma {:induction false} LastOfMore(log: seq<Start>, starts: seq<Start>, id: nat)
    ensures (forall x | x in starts :: x.id != id) ==> LastStart(log + starts, id) == LastStart(log, id)
    ensures forall x | x in starts && x.id == id &&
        (forall i, j | 0 <= i < j < |starts| :: starts[i].id != starts[j].id) ::
      LastStart(log + starts, id) == Some(x.at)
    decreases |starts|
  {
    if starts == [] {
      assert log + starts == log;
    } else {
      var n := |starts| - 1;
      assert (log + starts)[..|log| + n] == log + starts[..n];
      LastOfMore(log, starts[..n], id);
      assert forall x :: x in starts <==> x in starts[..n] || x == starts[n];
    }
  }

  /** What an entry has as its previous activation is the one for which it last started. */
  lemma {:induction false} PrevIsLastStart(states: seq<State>, events: seq<Happening>, i: nat, e: Entry)
    requires IsRun(states, events) && i < |states| && e in states[i].entries
    ensures e.prev == LastStart(states[i].log, e.id)
  {
    hide Step, Inv, LastStart;
    if i == 0 {
      assert false;
    } else {
      var s, h, s' := states[i - 1], events[i - 1], states[i];
      RunSafe(states, events, i - 1);
      forall x | x in s.entries
        ensures x.prev == LastStart(s.log, x.id)
      {
        PrevIsLastStart(states, events, i - 1, x);
      }
      PrevStep(s, h.event, h.now, s', e);
    }
  }

  lemma PrevStep(s: State, ev: Event, now: Instant, s': State, f: Entry)
    requires Inv(s) && Step(s, ev, now, s') && f in s'.entries
    requires forall e | e in s.entries :: e.prev == LastStart(s.log, e.id)
    ensures f.prev == LastStart(s'.log, f.id)
  {
    hide Step, Inv, LastStart;
    match ev
    case Schedule(schedule) =>
      AddExact(s, schedule, now, s');
      NewId(s);
    case Remove(id) => RemoveExact(s, id, now, s');
    case Start => StartExact(s, now, s');
    case Wake => PrevAtWake(s, now, s', f);
    case _ => QuietExact(s, ev, now, s');
  }

  lemma PrevAtWake(s: State, now: Instant, s': State, f: Entry)
    requires Inv(s) && Step(s, Wake, now, s') && f in s'.entries
    requires forall e | e in s.entries :: e.prev == LastStart(s.log, e.id)
    ensures f.prev == LastStart(s'.log, f.id)
  {
    hide Step, Inv, LastStart;
    WakeExact(s, now, s');
    var e :| e in s.entries &&
      f == if e.next.Some? && e.next.value <= now then e.(prev := e.next, next := e.schedule(now)) else e;
    var starts := s'.log[|s.log|..];
    assert s'.log == s.log + starts;
    LastOfMore(s.log, starts, e.id);
    OneById(s, e);
    if e.next.Some? && e.next.value <= now {
      assert Started(e.id, e.next.value, now) in starts;
    } else {
      forall x | x in starts
        ensures x.id != e.id
      {
        var y :| y in s.entries && y.id == x.id && y.next == Some(x.at);
      }
    }
  }

  lemma NewId(s: State)
    requires Inv(s)
    ensures LastStart(s.log, s.nextID + 1) == None
  {
    assert forall x | x in s.log :: StartOk(s, x);
    NeverStarted(s.log, s.nextID + 1);
  }

  // ----- The runner -----

  class Cron {
    var entries: seq<Entry>
    var running: bool
    var nextID: nat
    var clock: Instant
    var log: seq<Start>
    ghost var removed: set<nat>

    ghost function Value(): State
      reads this
    {
      State(entries, running, nextID, clock, log, removed)
    }

    constructor (now: Instant)
      ensures Init(Value()) && clock == now
    {
      entries, running, nextID, clock, log, removed := [], false, 0, now, [], {};
    }

    method ScheduleJob(schedule: Schedule, now: Instant) returns (id: nat)
      requires Inv(Value()) && clock <= now && Lawful(schedule)
      modifies this
      ensures Inv(Value()) && Step(old(Value()), Schedule(schedule), now, Value())
      ensures id == nextID && forall e | e in old(entries) :: e.id != id
      ensures Entry(id, schedule, if running then schedule(now) else None, None) in entries
    {
      hide Inv, Lawful, SortOf;
      ghost var before := Value();
      nextID, clock := nextID + 1, now;
      id := nextID;
      if !running {
        entries := entries + [Entry(id, schedule, None, None)];
      } else {
        entries := entries + [Entry(id, schedule, schedule(now), None)];
        entries := Sort(entries);
      }
      ScheduleKeeps(before, schedule, now, Value());
      AddExact(before, schedule, now, Value());
      IdIsNew(before);
    }

    method Remove(id: nat, now: Instant)
      requires Inv(Value()) && clock <= now
      modifies this
      ensures Inv(Value()) && Step(old(Value()), Event.Remove(id), now, Value())
    {
      hide Inv, SortOf, Without;
      ghost var before := Value();
      clock, removed := now, removed + if id <= nextID then {id} else {};
      RemoveEntry(id);
      if running {
        entries := Sort(entries);
      }
      RemoveKeeps(before, id, now, Value());
    }

    method RemoveEntry(id: nat)
      modifies this`entries
      ensures entries == Without(old(entries), id)
    {
      var kept: seq<Entry> := [];
      for i := 0 to |entries|
        invariant entries == old(entries) && kept == Without(entries[..i], id)
      {
        assert entries[..i + 1][..i] == entries[..i];
        if entries[i].id != id {
          kept := kept + [entries[i]];
        }
      }
      assert entries[..|entries|] == entries;
      entries := kept;
    }

    method Start(now: Instant)
      requires Inv(Value()) && clock <= now
      modifies this
      ensures Inv(Value()) && Step(old(Value()), Event.Start, now, Value())
      ensures running && |entries| == |old(entries)|
      ensures old(running) ==> entries == old(entries)
      ensures !old(running) ==> forall e | e in old(entries) :: e.(next := e.schedule(now)) in entries
      ensures !old(running) ==> TimerIsEarliest(old(entries), now, SleepUntil(entries))
    {
      hide Inv, SortOf;
      ghost var before := Value();
      clock := now;
      if !running {
        running := true;
        for i := 0 to |entries|
          invariant |entries| == |old(entries)| && Value() == before.(entries := entries, running := true, clock := now)
          invariant forall j | 0 <= j < i :: entries[j] == Rescheduled(old(entries)[j], now)
          invariant forall j | i <= j < |entries| :: entries[j] == old(entries)[j]
        {
          entries := entries[i := entries[i].(next := entries[i].schedule(now))];
        }
        assert entries == RescheduleAll(old(entries), now);
        entries := Sort(entries);
      }
      StartKeeps(before, now, Value());
      StartExact(before, now, Value());
    }

    method Stop(now: Instant)
      requires Inv(Value()) && clock <= now
      modifies this
      ensures Inv(Value()) && Step(old(Value()), Event.Stop, now, Value())
    {
      hide Inv;
      ghost var before := Value();
      clock := now;
      if running {
        running := false;
      }
      StepKeeps(before, Event.Stop, now, Value());
    }

    /** The timer fires: jobs start in order up to the first entry that is not due. */
    method Wake(now: Instant)
      requires Inv(Value()) && clock <= now && running
      modifies this
      ensures Inv(Value()) && Step(old(Value()), Event.Wake, now, Value())
    {
      hide SortOf, EntryOk, StartOk, Increasing, DistinctIds, DueStarts, Sorted;
      ghost var before, es := Value(), entries;
      clock := now;
      var i := 0;
      NoStarts(es, now);
      while i < |entries|
        invariant 0 <= i <= |entries| == |es|
        invariant Value() == before.(entries := entries, clock := now, log := log)
        invariant log == before.log + DueStarts(es[..i], now)
        invariant forall j | 0 <= j < i :: entries[j] == Fired(es[j], now)
        invariant forall j | i <= j < |es| :: entries[j] == es[j]
      {
        var e := entries[i];
        if e.next.None? || e.next.value > now {
          NoneDueAfter(es, now, i);
          break;
        }
        log := log + [Started(e.id, e.next.value, now)];
        entries := entries[i := e.(prev := e.next, next := e.schedule(now))];
        MoreStarts(es, now, i);
        i := i + 1;
      }
      NoMoreStarts(es, now, i);
      assert entries == FireAll(es, now);
      entries := Sort(entries);
      WakeKeeps(before, now, Value());
    }

    method Entries() returns (es: seq<Entry>)
      ensures es == entries
    {
      es := [];
      for i := 0 to |entries|
        invariant es == entries[..i]
      {
        es := es + [entries[i]];
      }
    }
  }

  lemma IdIsNew(s: State)
    requires Inv(s)
    ensures forall e | e in s.entries :: e.id != s.nextID + 1
  {
    assert forall e | e in s.entries :: EntryOk(s, e);
  }

  lemma NoStarts(es: seq<Entry>, now: Instant)
    ensures DueStarts(es[..0], now) == []
  {
  }

  lemma MoreStarts(es: seq<Entry>, now: Instant, i: nat)
    requires i < |es| && Due(es[i], now)
    ensures DueStarts(es[..i + 1], now) == DueStarts(es[..i], now) + [StartOf(es[i], now)]
  {
    assert es[..i + 1][..i] == es[..i];
  }

  // ----- Sorting -----

  method Sort(es: seq<Entry>) returns (r: seq<Entry>)
    ensures SortOf(es, r)
  {
    r := [];
    for i := 0 to |es|
      invariant SortOf(es[..i], r)
    {
      ghost var before := r;
      r := Insert(r, es[i]);
      assert es[..i + 1] == es[..i] + [es[i]];
    }
    assert es[..|es|] == es;
  }

  method Insert(es: seq<Entry>, e: Entry) returns (r: seq<Entry>)
    requires Sorted(es)
    ensures Sorted(r) && multiset(r) == multiset(es) + multiset{e}
  {
    var i := 0;
    while i < |es| && Compare(es[i].next, e.next) <= 0
      invariant 0 <= i <= |es|
      invariant forall j | 0 <= j < i :: Compare(es[j].next, e.next) <= 0
    {
      i := i + 1;
    }
    r := es[..i] + [e] + es[i..];
    InsertedSorted(es, e, i, r);
    InsertedMembers(es, e, i, r);
  }

  lemma InsertedSorted(es: seq<Entry>, e: Entry, i: nat, r: seq<Entry>)
    requires Sorted(es) && i <= |es| && |r| == |es| + 1 && r[i] == e
    requires forall j | 0 <= j < i :: r[j] == es[j] && Compare(es[j].next, e.next) <= 0
    requires forall j | i <= j < |es| :: r[j + 1] == es[j]
    requires i < |es| ==> Compare(es[i].next, e.next) > 0
    ensures Sorted(r)
  {
    forall j | i <= j < |es|
      ensures Compare(e.next, es[j].next) <= 0
    {
      assert i < j ==> Compare(es[i].next, es[j].next) <= 0;
    }
    forall a, b | 0 <= a < b < |r|
      ensures Compare(r[a].next, r[b].next) <= 0
    {
      var c, d := if a < i then a else a - 1, if b < i then b else b - 1;
      assert a > i ==> r[a] == es[c];
      assert b > i ==> r[b] == es[d];
    }
  }

  lemma InsertedMembers(es: seq<Entry>, e: Entry, i: nat, r: seq<Entry>)
    requires i <= |es| && r == es[..i] + [e] + es[i..]
    ensures multiset(r) == multiset(es) + multiset{e}
  {
    hide Compare;
    var a, b := es[..i], es[i..];
    assert es == a + b;
  }
}
