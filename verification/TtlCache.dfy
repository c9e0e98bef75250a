/** The in-memory cache with expiry times and a bound on the number of items. */
module TtlCache {
  import opened Sets
  import opened Texts

  datatype Item<V> = Item(value: V, expiration: int, sequence: nat)

  type Items<V> = map<string, Item<V>>

  // ----- Age -----

  /** An item is older if it expires first or, expiring at the same time, was written first. */
  predicate Older<V>(a: Item<V>, b: Item<V>) {
    a.expiration < b.expiration || (a.expiration == b.expiration && a.sequence < b.sequence)
  }

  /** Every write has its own sequence number. */
  ghost predicate Numbered<V(!new)>(d: Items<V>) {
    forall j, k | j in d && k in d && j != k :: d[j].sequence != d[k].sequence
  }

  function OlderKeys<V>(d: Items<V>, key: string): set<string>
    requires key in d
  {
    set j | j in d && Older(d[j], d[key])
  }

  /** The keys of the `n` oldest items: those with fewer than `n` older ones. */
  function Oldest<V>(d: Items<V>, n: nat): set<string> {
    set k | k in d && |OlderKeys(d, k)| < n
  }

  /** A set of keys that are all older than every other key. */
  ghost predicate AllOlder<V(!new)>(d: Items<V>, r: set<string>, keys: set<string>) {
    && r <= keys <= d.Keys
    && forall j, k | j in r && k in keys && k !in r :: Older(d[j], d[k])
  }

  /** Whatever way the `n` oldest were found, they are the same. */
  lemma OldestUnique<V(!new)>(d: Items<V>, r: set<string>, n: nat)
    requires Numbered(d) && AllOlder(d, r, d.Keys) && |r| == n
    ensures r == Oldest(d, n)
  {
    forall k | k in d
      ensures k in r <==> |OlderKeys(d, k)| < n
    {
      if k in r {
        assert OlderKeys(d, k) <= r - {k};
        Smaller(OlderKeys(d, k), r - {k});
      } else {
        assert r <= OlderKeys(d, k);
        Smaller(r, OlderKeys(d, k));
      }
    }
  }

  lemma {:induction false} Smaller<T>(a: set<T>, b: set<T>)
    requires a <= b
    ensures |a| <= |b|
    decreases a
  {
    if a != {} {
      var x := Member(a);
      Smaller(a - {x}, b - {x});
    }
  }

  /** An item that expires no sooner than the others and was written last is not among the `n` oldest of more than
      `n`. */
  lemma NewestStays<V(!new)>(d: Items<V>, key: string, n: nat)
    requires key in d && n < |d|
    requires forall k | k in d && k != key :: Older(d[k], d[key])
    ensures key !in Oldest(d, n)
  {
    assert OlderKeys(d, key) == d.Keys - {key};
    assert |d.Keys| == |d|;
  }

  /** A write and an eviction leave some of the items that were there, unchanged. */
  ghost predicate PartOf<V(!new)>(d: Items<V>, w: Items<V>) {
    d.Keys <= w.Keys && forall k | k in d :: d[k] == w[k]
  }

  // ----- Runs -----

  /** What a cache holds, and the number of the last write. */
  datatype Contents<V> = Contents(data: Items<V>, sequence: nat)

  datatype Event<V> = SetEvent(key: string, value: V) | GetEvent(key: string) | DeleteEvent(key: string) | ClearEvent
                    | CleanupEvent

  function Threshold(maxItems: int): nat {
    if maxItems / 5 > 1 then maxItems / 5 else 1
  }

  /** What is left of the items after a write: all of them, or all but the oldest if there are too many. */
  function Trimmed<V>(maxItems: int, w: Items<V>): Items<V> {
    if maxItems > 0 && |w| > maxItems then w - Oldest(w, Threshold(maxItems)) else w
  }

  function Written<V>(c: Contents<V>, key: string, value: V, expiration: int): Items<V> {
    c.data[key := Item(value, expiration, c.sequence + 1)]
  }

  /** The contents after an event at the time `now`, with one TTL for all writes. */
  function Next<V>(maxItems: int, ttl: int, c: Contents<V>, e: Event<V>, now: int): Contents<V> {
    match e
    case SetEvent(key, value) => Contents(Trimmed(maxItems, Written(c, key, value, now + ttl)), c.sequence + 1)
    case GetEvent(key) =>
      if key in c.data && now > c.data[key].expiration then c.(data := c.data - {key}) else c
    case DeleteEvent(key) => c.(data := c.data - {key})
    case ClearEvent => c.(data := map[])
    case CleanupEvent => c.(data := map k | k in c.data && now <= c.data[k].expiration :: c.data[k])
  }

  datatype Timed<V> = Timed(event: Event<V>, now: int)

  function After<V>(maxItems: int, ttl: int, run: seq<Timed<V>>): Contents<V> {
    if run == [] then Contents(map[], 0)
    else
      var n := |run| - 1;
      Next(maxItems, ttl, After(maxItems, ttl, run[..n]), run[n].event, run[n].now)
  }

  /** The clock does not go back. */
  ghost predicate Forward<V(!new)>(run: seq<Timed<V>>) {
    forall i | 0 < i < |run| :: run[i - 1].now <= run[i].now
  }

  ghost predicate NoneAfter<V(!new)>(d: Items<V>, limit: int) {
    forall k | k in d :: d[k].expiration <= limit
  }

  ghost predicate WritesNumbered<V(!new)>(c: Contents<V>) {
    Numbered(c.data) && forall k | k in c.data :: c.data[k].sequence <= c.sequence
  }

  /** Writing with an expiration that no item lies after: the new item stays. */
  lemma WriteStays<V(!new)>(maxItems: int, c: Contents<V>, key: string, value: V, expiration: int)
    requires WritesNumbered(c) && NoneAfter(c.data, expiration)
    ensures var d := Trimmed(maxItems, Written(c, key, value, expiration));
      && key in d && d[key] == Item(value, expiration, c.sequence + 1) && NoneAfter(d, expiration)
      && WritesNumbered(Contents(d, c.sequence + 1))
  {
    hide Oldest;
    var w := Written(c, key, value, expiration);
    if maxItems > 0 && |w| > maxItems {
      NewestStays(w, key, Threshold(maxItems));
    }
  }

  /** In every run with one TTL and a clock that does not go back, whatever is evicted, the item just set is there. */
  lemma {:induction false} JustSetStays<V(!new)>(maxItems: int, ttl: int, run: seq<Timed<V>>)
    requires Forward(run) && run != []
    ensures var c, last := After(maxItems, ttl, run), run[|run| - 1];
      && WritesNumbered(c) && NoneAfter(c.data, last.now + ttl)
      && (last.event.SetEvent? ==>
            last.event.key in c.data && c.data[last.event.key] == Item(last.event.value, last.now + ttl, c.sequence))
  {
    hide Trimmed;
    var n := |run| - 1;
    var before, last := After(maxItems, ttl, run[..n]), run[n];
    if n > 0 {
      JustSetStays(maxItems, ttl, run[..n]);
      assert run[n - 1].now <= last.now;
    }
    if last.event.SetEvent? {
      WriteStays(maxItems, before, last.event.key, last.event.value, last.now + ttl);
    }
  }

  // ----- The cache -----

  datatype Candidate<V> = Candidate(key: string, item: Item<V>)

  /** The candidates are distinct items of the cache. */
  ghost predicate Chosen<V(!new)>(d: Items<V>, cs: seq<Candidate<V>>) {
    && (forall i | 0 <= i < |cs| :: cs[i].key in d && d[cs[i].key] == cs[i].item)
    && (forall i, j | 0 <= i < j < |cs| :: cs[i].key != cs[j].key)
  }

  ghost function Keys<V>(cs: seq<Candidate<V>>): set<string> {
    set i | 0 <= i < |cs| :: cs[i].key
  }

  lemma {:induction false} KeysCount<V(!new)>(d: Items<V>, cs: seq<Candidate<V>>)
    requires Chosen(d, cs)
    ensures |Keys(cs)| == |cs| && Keys(cs) <= d.Keys
  {
    if cs != [] {
      var n := |cs| - 1;
      var init := cs[..n];
      KeysCount(d, init);
      KeysAppend(init, cs[n]);
      assert cs == init + [cs[n]];
      assert cs[n].key !in Keys(init);
    }
  }

  lemma KeysAppend<V>(cs: seq<Candidate<V>>, c: Candidate<V>)
    ensures Keys(cs + [c]) == Keys(cs) + {c.key}
  {
    var all := cs + [c];
    forall k | k in Keys(cs) + {c.key}
      ensures k in Keys(all)
    {
      if k in Keys(cs) {
        var i :| 0 <= i < |cs| && cs[i].key == k;
        assert all[i].key == k;
      } else {
        assert all[|cs|].key == k;
      }
    }
  }

  lemma KeysReplace<V(!new)>(d: Items<V>, cs: seq<Candidate<V>>, i: nat, c: Candidate<V>)
    requires Chosen(d, cs) && i < |cs| && c.key !in Keys(cs) && c.key in d && d[c.key] == c.item
    ensures Chosen(d, cs[i := c])
    ensures Keys(cs[i := c]) == Keys(cs) - {cs[i].key} + {c.key}
  {
    var all := cs[i := c];
    forall k | 0 <= k < |cs|
      ensures cs[k].key in Keys(cs)
    {
    }
    forall k | k in Keys(cs) - {cs[i].key} + {c.key}
      ensures k in Keys(all)
    {
      if k == c.key {
        assert all[i].key == k;
      } else {
        var j :| 0 <= j < |cs| && cs[j].key == k;
        assert all[j].key == k;
      }
    }
  }

  lemma KeysNone<V>()
    ensures Keys<V>([]) == {}
  {
  }

  /** The candidates are the oldest of the items met: all of them until there are `n`. */
  ghost predicate Best<V(!new)>(d: Items<V>, cs: seq<Candidate<V>>, met: set<string>, n: nat) {
    && Chosen(d, cs)
    && AllOlder(d, Keys(cs), met)
    && |cs| == if |met| < n then |met| else n
  }

  lemma BestStart<V(!new)>(d: Items<V>, n: nat)
    ensures Best(d, [], {}, n)
  {
    KeysNone<V>();
  }

  lemma BestFacts<V(!new)>(d: Items<V>, cs: seq<Candidate<V>>, met: set<string>, n: nat)
    requires Best(d, cs, met, n)
    ensures Chosen(d, cs) && |cs| <= n
  {
  }

  lemma BestAppend<V(!new)>(d: Items<V>, cs: seq<Candidate<V>>, c: Candidate<V>, met: set<string>, n: nat)
    requires Best(d, cs, met, n) && |cs| < n
    requires c.key in d && c.key !in met && d[c.key] == c.item
    ensures Best(d, cs + [c], met + {c.key}, n)
  {
    KeysCount(d, cs);
    SameSize(Keys(cs), met);
    KeysAppend(cs, c);
    forall i | 0 <= i < |cs|
      ensures cs[i].key != c.key
    {
      assert cs[i].key in Keys(cs);
    }
  }

  lemma SameSize(a: set<string>, b: set<string>)
    requires a <= b && |a| == |b|
    ensures a == b
  {
    assert b == a + (b - a);
    assert |b - a| == 0;
  }

  lemma BestReplace<V(!new)>(d: Items<V>, cs: seq<Candidate<V>>, newest: nat, c: Candidate<V>, met: set<string>, n: nat)
    requires Numbered(d) && Best(d, cs, met, n) && |cs| == n && newest < n
    requires c.key in d && c.key !in met && d[c.key] == c.item
    requires forall i | 0 <= i < |cs| && i != newest :: Older(cs[i].item, cs[newest].item)
    requires Older(c.item, cs[newest].item)
    ensures Best(d, cs[newest := c], met + {c.key}, n)
  {
    hide Older, Numbered;
    KeysReplace(d, cs, newest, c);
    Exchange(d, cs, newest, c, met);
  }

  lemma BestKeep<V(!new)>(d: Items<V>, cs: seq<Candidate<V>>, newest: nat, c: Candidate<V>, met: set<string>, n: nat)
    requires Numbered(d) && Best(d, cs, met, n) && |cs| == n && newest < n
    requires c.key in d && c.key !in met && d[c.key] == c.item
    requires forall i | 0 <= i < |cs| && i != newest :: Older(cs[i].item, cs[newest].item)
    requires !Older(c.item, cs[newest].item)
    ensures Best(d, cs, met + {c.key}, n)
  {
    hide Older, Numbered;
    NotExchanged(d, cs, newest, c, met);
  }

  lemma BestIsOldest<V(!new)>(d: Items<V>, cs: seq<Candidate<V>>, n: nat)
    requires Numbered(d) && Best(d, cs, d.Keys, n)
    ensures Keys(cs) == Oldest(d, n) && |Keys(cs)| == |cs| && Keys(cs) <= d.Keys
    ensures |cs| == if |d| < n then |d| else n
  {
    KeysCount(d, cs);
    assert |d.Keys| == |d|;
    if |d| < n {
      SameSize(Keys(cs), d.Keys);
      AllOldest(d, n);
    } else {
      OldestUnique(d, Keys(cs), n);
    }
  }

  class Cache<V(==,!new)> {
    var data: Items<V>
    var itemCount: int
    var sequence: nat
    const maxItems: int
    const defaultTTL: int

    /** The counter counts the stored keys and every write has its own number. */
    ghost predicate Sound()
      reads this
    {
      itemCount == |data| && Numbered(data) && forall k | k in data :: data[k].sequence <= sequence
    }

    ghost predicate Valid()
      reads this
    {
      Sound() && (maxItems > 0 ==> |data| <= maxItems)
    }

    ghost function State(): Contents<V>
      reads this
    {
      Contents(data, sequence)
    }

    constructor (maxItems: int, defaultTTL: int)
      ensures Valid() && data == map[] && sequence == 0
      ensures this.maxItems == maxItems && this.defaultTTL == defaultTTL
    {
      this.data, this.itemCount, this.sequence := map[], 0, 0;
      this.maxItems, this.defaultTTL := maxItems, defaultTTL;
    }

    /** A write takes effect; if it makes the cache too large, exactly the oldest items leave. */
    method SetWithTTL(key: string, value: V, ttl: int, now: int)
      requires Valid()
      modifies this
      ensures Valid() && sequence == old(sequence) + 1
      ensures data == Trimmed(maxItems, Written(old(State()), key, value, now + ttl))
      ensures PartOf(data, Written(old(State()), key, value, now + ttl))
      ensures NoneAfter(old(data), now + ttl) ==> key in data
      ensures maxItems <= 0 || key in old(data) || |old(data)| < maxItems ==>
        data == old(data)[key := Item(value, now + ttl, old(sequence) + 1)]
      ensures maxItems > 0 && key !in old(data) && |old(data)| == maxItems ==>
        && |data| == maxItems + 1 - (if maxItems < 10 then 1 else maxItems / 5)
        && OldestLeft(old(data)[key := Item(value, now + ttl, old(sequence) + 1)], data)
    {
      hide Numbered, Oldest, PartOf, Sound, OldestLeft;
      ghost var w := Written(State(), key, value, now + ttl);
      WrittenCount(data, key, w[key]);
      Write(key, value, now + ttl);
      Evicted(w, {});
      if maxItems > 0 && itemCount > maxItems {
        ghost var r := Oldest(w, Threshold(maxItems));
        CleanupOldest();
        Evicted(w, r);
        ThresholdSmall(maxItems);
        if NoneAfter(old(data), now + ttl) {
          NewestStays(w, key, Threshold(maxItems));
        }
      }
    }

    /** The write itself: a key that is already there is not counted twice. */
    method Write(key: string, value: V, expiration: int)
      requires Valid()
      modifies this
      ensures Sound() && sequence == old(sequence) + 1
      ensures itemCount == |data| && data == Written(old(State()), key, value, expiration)
      ensures |data| <= |old(data)| + 1
      ensures forall k | k in data && k != key :: data[k].sequence < data[key].sequence
    {
      hide Numbered;
      ghost var w := Written(State(), key, value, expiration);
      WrittenCount(data, key, w[key]);
      WrittenNumbered(data, key, w[key]);
      sequence := sequence + 1;
      if key in data {
        data := data - {key};
      } else {
        itemCount := itemCount + 1;
      }
      data := data[key := Item(value, expiration, sequence)];
      assert data == w;
    }

    method Set(key: string, value: V, now: int)
      requires Valid()
      modifies this
      ensures Valid() && State() == Next(maxItems, defaultTTL, old(State()), SetEvent(key, value), now)
      ensures PartOf(data, Written(old(State()), key, value, now + defaultTTL))
      ensures NoneAfter(old(data), now + defaultTTL) ==> key in data
    {
      hide Numbered, Oldest, PartOf, Sound, NoneAfter, Trimmed, Written;
      SetWithTTL(key, value, defaultTTL, now);
    }

    /** The value under `key`, unless it has expired; an expired item is dropped. */
    method Get(key: string, now: int) returns (r: Option<V>)
      requires Valid()
      modifies this
      ensures Valid() && State() == Next(maxItems, defaultTTL, old(State()), GetEvent(key), now)
      ensures r == if key in old(data) && now <= old(data)[key].expiration then Some(old(data)[key].value) else None
      ensures forall k :: k in data <==> k in old(data) && (k == key ==> now <= old(data)[k].expiration)
      ensures forall k | k in data :: data[k] == old(data)[k]
    {
      if key !in data {
        return None;
      }
      if now > data[key].expiration {
        data := data - {key};
        RemovedCount(old(data), {key});
        itemCount := itemCount - 1;
        return None;
      }
      return Some(data[key].value);
    }

    method Delete(key: string)
      requires Valid()
      modifies this
      ensures Valid() && State() == old(State()).(data := old(data) - {key})
    {
      if key in data {
        RemovedCount(data, {key});
        data := data - {key};
        itemCount := itemCount - 1;
      }
    }

    method Clear()
      requires Valid()
      modifies this
      ensures Valid() && State() == old(State()).(data := map[])
    {
      data := map[];
      itemCount := 0;
    }

    /** Dropping the expired items, in whatever order they are met. */
    method Cleanup(now: int)
      requires Valid()
      modifies this
      ensures Valid() && State() == Next(maxItems, defaultTTL, old(State()), CleanupEvent, now)
      ensures forall k :: k in data <==> k in old(data) && now <= old(data)[k].expiration
      ensures forall k | k in data :: data[k] == old(data)[k]
    {
      hide Numbered, Next;
      ghost var d := data;
      var count := 0;
      var left := data.Keys;
      ghost var gone: set<string> := {};
      while left != {}
        invariant left <= d.Keys && gone <= d.Keys - left
        invariant data == d - gone && count == |gone|
        invariant forall k | k in d && k !in left :: k in gone <==> now > d[k].expiration
        invariant itemCount == old(itemCount) && sequence == old(sequence)
        decreases |left|
      {
        var key :| key in left;
        left := left - {key};
        if now > data[key].expiration {
          RemoveMore(d, gone, key);
          gone := gone + {key};
          data := data - {key};
          count := count + 1;
        }
      }
      RemovedCount(d, gone);
      RemovedNumbered(d, gone);
      CleanedUp(maxItems, defaultTTL, old(State()), now, gone);
      assert forall k :: k in data <==> k in d && k !in gone;
      if count > 0 {
        itemCount := itemCount - count;
      }
    }

    /** Evicting the oldest items, in whatever order the items are met: exactly the `Threshold(maxItems)` oldest
        leave. */
    method CleanupOldest()
      requires Sound()
      modifies this
      ensures Sound() && itemCount == |data| && sequence == old(sequence)
      ensures data == if |old(data)| <= maxItems then old(data) else old(data) - Oldest(old(data), Threshold(maxItems))
      ensures maxItems > 0 && |old(data)| > maxItems ==>
        |data| == |old(data)| - (if maxItems < 10 then 1 else maxItems / 5)
      ensures OldestLeft(old(data), data)
    {
      hide Numbered, Oldest, Keys, Best, Older, OldestLeft;
      ghost var before := data;
      AllStay(before);
      var threshold := Threshold(maxItems);
      if itemCount <= maxItems {
        return;
      }
      var candidates := FindOldest(threshold);
      ghost var r := Keys(candidates);
      BestIsOldest(data, candidates, threshold);
      RemovedCount(data, r);
      RemovedNumbered(data, r);
      ThresholdSmall(maxItems);
      BestLeaves(data, candidates, threshold);
      var deletedCount := DeleteAll(candidates);
      if deletedCount > 0 {
        itemCount := itemCount - deletedCount;
      }
    }

    method DeleteAll(candidates: seq<Candidate<V>>) returns (deletedCount: nat)
      modifies this`data
      ensures data == old(data) - Keys(candidates) && deletedCount == |candidates|
    {
      hide Keys;
      ghost var d := data;
      deletedCount := 0;
      KeysNone<V>();
      for i := 0 to |candidates|
        invariant data == d - Keys(candidates[..i]) && deletedCount == i
      {
        assert candidates[..i + 1] == candidates[..i] + [candidates[i]];
        KeysAppend(candidates[..i], candidates[i]);
        RemoveMore(d, Keys(candidates[..i]), candidates[i].key);
        data := data - {candidates[i].key};
        deletedCount := deletedCount + 1;
      }
      assert candidates[..|candidates|] == candidates;
    }

    /** One pass over the items that keeps the oldest ones met so far. */
    method FindOldest(threshold: nat) returns (candidates: seq<Candidate<V>>)
      requires Numbered(data) && threshold > 0
      ensures Best(data, candidates, data.Keys, threshold)
    {
      hide Numbered, Best, Older;
      candidates := [];
      var left := data.Keys;
      ghost var met: set<string> := {};
      BestStart(data, threshold);
      while left != {}
        invariant met + left == data.Keys && met !! left
        invariant Best(data, candidates, met, threshold)
        decreases |left|
      {
        var key :| key in left;
        var c := Candidate(key, data[key]);
        BestFacts(data, candidates, met, threshold);
        if |candidates| < threshold {
          BestAppend(data, candidates, c, met, threshold);
          candidates := candidates + [c];
        } else {
          var newest := NewestIndex(candidates);
          if Older(c.item, candidates[newest].item) {
            BestReplace(data, candidates, newest, c, met, threshold);
            candidates := candidates[newest := c];
          } else {
            BestKeep(data, candidates, newest, c, met, threshold);
          }
        }
        met := met + {key};
        left := left - {key};
      }
      assert met == data.Keys;
    }

    method NewestIndex(candidates: seq<Candidate<V>>) returns (newest: nat)
      requires Numbered(data) && Chosen(data, candidates) && |candidates| > 0
      ensures newest < |candidates|
      ensures forall i | 0 <= i < |candidates| && i != newest :: Older(candidates[i].item, candidates[newest].item)
    {
      newest := 0;
      for i := 1 to |candidates|
        invariant newest < i
        invariant forall j | 0 <= j < i && j != newest :: Older(candidates[j].item, candidates[newest].item)
      {
        if Older(candidates[newest].item, candidates[i].item) {
          newest := i;
        } else {
          assert candidates[i].key != candidates[newest].key;
        }
      }
    }
  }

  lemma CleanedUp<V(!new)>(maxItems: int, ttl: int, c: Contents<V>, now: int, gone: set<string>)
    requires forall k | k in c.data :: k in gone <==> now > c.data[k].expiration
    ensures Next(maxItems, ttl, c, CleanupEvent, now) == c.(data := c.data - gone)
  {
  }

  lemma ThresholdSmall(maxItems: int)
    ensures maxItems > 0 ==> Threshold(maxItems) <= maxItems
    ensures maxItems > 0 ==> Threshold(maxItems) == if maxItems < 10 then 1 else maxItems / 5
  {
  }

  /** What left expires before what stayed or, expiring at the same time, was written before it; nothing that stayed has
      changed. */
  ghost predicate OldestLeft<V(!new)>(d: Items<V>, rest: Items<V>) {
    && rest.Keys <= d.Keys && (forall k | k in rest :: rest[k] == d[k])
    && forall j, k | j in d && j !in rest && k in rest ::
         d[j].expiration < d[k].expiration || (d[j].expiration == d[k].expiration && d[j].sequence < d[k].sequence)
  }

  lemma AllStay<V(!new)>(d: Items<V>)
    ensures OldestLeft(d, d)
  {
  }

  lemma BestLeaves<V(!new)>(d: Items<V>, cs: seq<Candidate<V>>, n: nat)
    requires Best(d, cs, d.Keys, n)
    ensures OldestLeft(d, d - Keys(cs))
  {
    hide Keys;
  }

  lemma WrittenCount<V(!new)>(d: Items<V>, key: string, item: Item<V>)
    ensures |d[key := item]| == if key in d then |d| else |d| + 1
  {
    assert d[key := item].Keys == d.Keys + {key};
    assert |d.Keys| == |d| && |d[key := item].Keys| == |d[key := item]|;
    assert key in d ==> d.Keys + {key} == d.Keys;
  }

  lemma RemovedCount<V(!new)>(d: Items<V>, r: set<string>)
    requires r <= d.Keys
    ensures |d - r| == |d| - |r|
  {
    assert (d - r).Keys == d.Keys - r;
    assert |d.Keys| == |d| && |(d - r).Keys| == |d - r|;
  }

  lemma RemoveMore<V(!new)>(d: Items<V>, r: set<string>, key: string)
    ensures d - r - {key} == d - (r + {key})
  {
  }

  lemma Evicted<V(!new)>(w: Items<V>, r: set<string>)
    ensures PartOf(w - r, w) && w - {} == w
  {
  }

  lemma RemovedNumbered<V(!new)>(d: Items<V>, r: set<string>)
    requires Numbered(d)
    ensures Numbered(d - r)
  {
  }

  lemma WrittenNumbered<V(!new)>(d: Items<V>, key: string, item: Item<V>)
    requires Numbered(d) && forall k | k in d :: d[k].sequence < item.sequence
    ensures Numbered(d[key := item])
  {
  }

  lemma AllOldest<V(!new)>(d: Items<V>, n: nat)
    requires |d| <= n
    ensures Oldest(d, n) == d.Keys
  {
    forall k | k in d
      ensures |OlderKeys(d, k)| < n
    {
      assert k !in OlderKeys(d, k);
      assert OlderKeys(d, k) <= d.Keys - {k};
      Smaller(OlderKeys(d, k), d.Keys - {k});
      assert |d.Keys| == |d|;
    }
  }

  lemma Exchange<V(!new)>(d: Items<V>, cs: seq<Candidate<V>>, newest: nat, c: Candidate<V>, met: set<string>)
    requires Numbered(d) && Chosen(d, cs) && newest < |cs| && AllOlder(d, Keys(cs), met)
    requires c.key in d && c.key !in met && d[c.key] == c.item
    requires forall i | 0 <= i < |cs| && i != newest :: Older(cs[i].item, cs[newest].item)
    requires Older(c.item, cs[newest].item)
    ensures AllOlder(d, Keys(cs) - {cs[newest].key} + {c.key}, met + {c.key})
  {
    var r := Keys(cs) - {cs[newest].key} + {c.key};
    assert cs[newest].key in Keys(cs);
    forall j, k | j in r && k in met + {c.key} && k !in r
      ensures Older(d[j], d[k])
    {
      if k != cs[newest].key {
        assert Older(cs[newest].item, d[k]);
      }
      if j != c.key {
        var i :| 0 <= i < |cs| && cs[i].key == j;
      }
    }
  }

  lemma NotExchanged<V(!new)>(d: Items<V>, cs: seq<Candidate<V>>, newest: nat, c: Candidate<V>, met: set<string>)
    requires Numbered(d) && Chosen(d, cs) && newest < |cs| && AllOlder(d, Keys(cs), met)
    requires c.key in d && c.key !in met && d[c.key] == c.item
    requires forall i | 0 <= i < |cs| && i != newest :: Older(cs[i].item, cs[newest].item)
    requires !Older(c.item, cs[newest].item)
    ensures AllOlder(d, Keys(cs), met + {c.key})
  {
    assert cs[newest].key in Keys(cs) && cs[newest].key != c.key;
    assert Older(cs[newest].item, c.item);
    forall j | j in Keys(cs)
      ensures Older(d[j], c.item)
    {
      var i :| 0 <= i < |cs| && cs[i].key == j;
    }
  }
}
