/** Users and user settings in the database, with a cache in front of each table. */
module StoreCache {
  import opened Sets
  import opened Texts
  import opened TtlCache

  /** A user row; `profile` stands for every field but the number. */
  datatype User = User(id: int, profile: string)

  /** A decoded user setting. */
  datatype UserSetting = UserSetting(userId: int, key: string, value: string)

  datatype Result<T> = Ok(value: T) | Err

  /** The setting keys that have a decoder; every other name in the table is passed over. */
  const SETTING_KEYS := {"GENERAL", "SHORTCUTS", "WEBHOOKS", "REFRESH_TOKENS", "PERSONAL_ACCESS_TOKENS"}
  const UNSPECIFIED := "KEY_UNSPECIFIED"

  type UserTable = map<int, User>
  type SettingTable = map<(int, string), string>

  // ----- Cache keys -----

  function UserCacheKey(id: int): string { Itoa(id) }

  function SettingCacheKey(id: int, key: string): string { Itoa(id) + "-" + key }

  /** The enumeration value that a name in the table stands for. */
  function KeyOf(name: string): string {
    if name in SETTING_KEYS then name else UNSPECIFIED
  }

  /** These are the settings that can be stored. */
  lemma StoredKeys(key: string)
    ensures key in SETTING_KEYS <==>
      || key == "GENERAL" || key == "SHORTCUTS" || key == "WEBHOOKS" || key == "REFRESH_TOKENS"
      || key == "PERSONAL_ACCESS_TOKENS"
  {
  }

  lemma KeysHaveNoDash(name: string)
    requires name in SETTING_KEYS || name == UNSPECIFIED
    ensures '-' !in name
  {
  }

  /** Two settings never share a cache key, although negative numbers bring a dash of their own. */
  lemma SettingCacheKeyInjective(id1: int, key1: string, id2: int, key2: string)
    requires '-' !in key1 && '-' !in key2
    requires SettingCacheKey(id1, key1) == SettingCacheKey(id2, key2)
    ensures id1 == id2 && key1 == key2
  {
    var a, b := Itoa(id1), Itoa(id2);
    var s := SettingCacheKey(id1, key1);
    assert s[|a|] == '-' && s[|b|] == '-';
    assert forall i | |a| < i < |s| :: s[i] == key1[i - |a| - 1];
    assert forall i | |b| < i < |s| :: s[i] == key2[i - |b| - 1];
    assert |a| == |b|;
    assert s[|a| + 1..] == key1 && s[|b| + 1..] == key2;
    assert s[..|a|] == a && s[..|b|] == b;
    ItoaInjective(id1, id2);
  }

  // ----- Coherence -----

  datatype Codec = Codec(encode: (string, string) -> string, decode: (string, string) -> Option<string>) {
    /** What was encoded can be decoded. */
    ghost predicate Lawful() {
      forall k, v :: decode(k, encode(k, v)).Some?
    }
  }

  /** Every cached user is the row of the table under its number, live or expired. */
  ghost predicate UsersCoherent(d: Items<User>, users: UserTable) {
    forall k | k in d ::
      var u := d[k].value;
      u.id in users && users[u.id] == u && k == UserCacheKey(u.id)
  }

  /** Every cached setting is the decoded row of the table under its user and key. */
  ghost predicate SettingsCoherent(d: Items<UserSetting>, settings: SettingTable, codec: Codec) {
    forall k | k in d ::
      var s := d[k].value;
      && s.key in SETTING_KEYS && (s.userId, s.key) in settings
      && codec.decode(s.key, settings[(s.userId, s.key)]) == Some(s.value)
      && k == SettingCacheKey(s.userId, s.key)
  }

  lemma UserWritten(d: Items<User>, users: UserTable, u: User, item: Item<User>, d': Items<User>)
    requires UsersCoherent(d, users) && item.value == u
    requires PartOf(d', d[UserCacheKey(u.id) := item])
    ensures UsersCoherent(d', users[u.id := u])
  {
    forall k | k in d'
      ensures var v := d'[k].value;
        v.id in users[u.id := u] && users[u.id := u][v.id] == v && k == UserCacheKey(v.id)
    {
      if k != UserCacheKey(u.id) {
        assert d'[k] == d[k];
      }
    }
  }

  lemma SettingWritten(d: Items<UserSetting>, settings: SettingTable, codec: Codec, s: UserSetting, raw: string,
                       item: Item<UserSetting>, d': Items<UserSetting>)
    requires SettingsCoherent(d, settings, codec) && item.value == s
    requires s.key in SETTING_KEYS && codec.decode(s.key, raw) == Some(s.value)
    requires PartOf(d', d[SettingCacheKey(s.userId, s.key) := item])
    ensures SettingsCoherent(d', settings[(s.userId, s.key) := raw], codec)
  {
    forall k | k in d' && k != SettingCacheKey(s.userId, s.key)
      ensures d'[k] == d[k] && (d[k].value.userId, d[k].value.key) != (s.userId, s.key)
    {
    }
  }

  lemma UsersKept(d: Items<User>, users: UserTable, d': Items<User>)
    requires UsersCoherent(d, users) && PartOf(d', d)
    ensures UsersCoherent(d', users)
  {
  }

  lemma SettingsKept(d: Items<UserSetting>, settings: SettingTable, codec: Codec, d': Items<UserSetting>)
    requires SettingsCoherent(d, settings, codec) && PartOf(d', d)
    ensures SettingsCoherent(d', settings, codec)
  {
  }

  lemma UserRemoved(d: Items<User>, users: UserTable, id: int)
    requires UsersCoherent(d, users)
    ensures UsersCoherent(d - {UserCacheKey(id)}, users - {id})
  {
  }

  lemma SettingsRemoved(d: Items<UserSetting>, settings: SettingTable, codec: Codec, rows: set<(int, string)>,
                        dropped: set<string>)
    requires SettingsCoherent(d, settings, codec)
    requires forall k | k in rows && k in settings && k.1 in SETTING_KEYS :: SettingCacheKey(k.0, k.1) in dropped
    ensures SettingsCoherent(d - dropped, settings - rows, codec)
  {
  }

  ghost predicate TableLaw(users: UserTable) {
    forall id | id in users :: users[id].id == id
  }

  /** `list` holds the users `ids`. */
  ghost predicate UserListing(list: seq<User>, ids: set<int>, users: UserTable) {
    && ids <= users.Keys
    && (forall u | u in list :: u.id in ids && users[u.id] == u)
    && (forall id | id in ids :: users[id] in list)
  }

  lemma UserListed(list: seq<User>, ids: set<int>, users: UserTable, id: int)
    requires TableLaw(users) && UserListing(list, ids, users) && id in users
    ensures UserListing(list + [users[id]], ids + {id}, users)
  {
  }

  lemma EmptyListing(list: seq<User>, ids: set<int>, users: UserTable)
    requires UserListing(list, ids, users) && |list| == 0
    ensures ids == {}
  {
    if ids != {} {
      var id := Member(ids);
    }
  }

  /** The rows that a search by user, by key or by both selects; no key selects by user alone. */
  function Rows(settings: SettingTable, id: Option<int>, key: string): set<(int, string)> {
    set k | k in settings && (key != UNSPECIFIED ==> k.1 == key) && (id.Some? ==> k.0 == id.value)
  }

  /** `list` decodes the rows `rows` that have a decoder, each once. */
  ghost predicate Listing(list: seq<UserSetting>, rows: set<(int, string)>, settings: SettingTable, codec: Codec) {
    && rows <= settings.Keys
    && (forall s | s in list ::
          && s.key in SETTING_KEYS && (s.userId, s.key) in rows
          && codec.decode(s.key, settings[(s.userId, s.key)]) == Some(s.value))
    && (forall k | k in rows && k.1 in SETTING_KEYS :: exists s :: s in list && s.userId == k.0 && s.key == k.1)
    && (forall i, j | 0 <= i < j < |list| :: (list[i].userId, list[i].key) != (list[j].userId, list[j].key))
  }

  ghost predicate Decodable(rows: set<(int, string)>, settings: SettingTable, codec: Codec) {
    forall k | k in rows && k in settings && k.1 in SETTING_KEYS :: codec.decode(k.1, settings[k]).Some?
  }

  lemma AllDropped(list: seq<UserSetting>, rows: set<(int, string)>, settings: SettingTable, codec: Codec,
                   keys: seq<string>)
    requires Listing(list, rows, settings, codec) && |keys| == |list|
    requires forall j | 0 <= j < |list| :: keys[j] == SettingCacheKey(list[j].userId, list[j].key)
    ensures forall k | k in rows && k in settings && k.1 in SETTING_KEYS :: SettingCacheKey(k.0, k.1) in Elements(keys)
  {
    forall k | k in rows && k in settings && k.1 in SETTING_KEYS
      ensures SettingCacheKey(k.0, k.1) in Elements(keys)
    {
      var s :| s in list && s.userId == k.0 && s.key == k.1;
      var j :| 0 <= j < |list| && list[j] == s;
      assert keys[j] == SettingCacheKey(k.0, k.1);
    }
  }

  lemma ListedOne(list: seq<UserSetting>, rows: set<(int, string)>, k: (int, string), s: UserSetting,
                  settings: SettingTable, codec: Codec)
    requires Listing(list, rows, settings, codec) && k in settings && k !in rows && k.1 in SETTING_KEYS
    requires s.userId == k.0 && s.key == k.1 && codec.decode(s.key, settings[k]) == Some(s.value)
    ensures Listing(list + [s], rows + {k}, settings, codec)
  {
    forall j | j in rows + {k} && j.1 in SETTING_KEYS
      ensures exists x :: x in list + [s] && x.userId == j.0 && x.key == j.1
    {
      if j == k {
        assert s in list + [s];
      } else {
        var x :| x in list && x.userId == j.0 && x.key == j.1;
        assert x in list + [s];
      }
    }
    forall i | 0 <= i < |list|
      ensures (list[i].userId, list[i].key) != k
    {
      assert list[i] in list;
    }
  }

  lemma ListedNone(list: seq<UserSetting>, rows: set<(int, string)>, k: (int, string), settings: SettingTable,
                   codec: Codec)
    requires Listing(list, rows, settings, codec) && k in settings && k.1 !in SETTING_KEYS
    ensures Listing(list, rows + {k}, settings, codec)
  {
  }

  /** The selected rows that have a decoder. */
  function Known(settings: SettingTable, id: Option<int>, key: string): set<(int, string)> {
    set k | k in Rows(settings, id, key) && k.1 in SETTING_KEYS
  }

  /** What a read that never looks at the cache would return: the one setting selected, nothing, or an error if there
      are several or one does not decode. */
  ghost predicate IsUncached(settings: SettingTable, codec: Codec, id: Option<int>, key: string,
                             r: Result<Option<UserSetting>>) {
    var known := Known(settings, id, key);
    if !Decodable(known, settings, codec) || (exists j, k :: j in known && k in known && j != k) then r == Err
    else if known == {} then r == Ok(None)
    else
      && r.Ok? && r.value.Some? && (r.value.value.userId, r.value.value.key) in known
      && var s := r.value.value; codec.decode(s.key, settings[(s.userId, s.key)]) == Some(s.value)
  }

  /** There is one such result. */
  lemma UncachedUnique(settings: SettingTable, codec: Codec, id: Option<int>, key: string,
                       r: Result<Option<UserSetting>>, s: Result<Option<UserSetting>>)
    requires IsUncached(settings, codec, id, key, r) && IsUncached(settings, codec, id, key, s)
    ensures r == s
  {
  }

  /** By user and key it is the decoded row, if there is one. */
  lemma UncachedByKey(settings: SettingTable, codec: Codec, id: int, key: string, r: Result<Option<UserSetting>>)
    requires IsUncached(settings, codec, Some(id), key, r) && key in SETTING_KEYS
    ensures r == if (id, key) !in settings then Ok(None)
                 else match codec.decode(key, settings[(id, key)])
                   case None => Err
                   case Some(value) => Ok(Some(UserSetting(id, key, value)))
  {
    var known := Known(settings, Some(id), key);
    assert known == if (id, key) in settings then {(id, key)} else {};
    assert (id, key) in settings ==> (id, key) in known;
  }

  /** A cached setting is the only row selected by its user and key. */
  lemma CachedIsUncached(settings: SettingTable, codec: Codec, s: UserSetting)
    requires s.key in SETTING_KEYS && (s.userId, s.key) in settings
    requires codec.decode(s.key, settings[(s.userId, s.key)]) == Some(s.value)
    ensures IsUncached(settings, codec, Some(s.userId), s.key, Ok(Some(s)))
  {
    assert Known(settings, Some(s.userId), s.key) == {(s.userId, s.key)};
  }

  /** The list of all selected settings gives that result by its length. */
  lemma ListedIsUncached(list: seq<UserSetting>, settings: SettingTable, codec: Codec, id: Option<int>, key: string)
    requires Listing(list, Rows(settings, id, key), settings, codec) &&
      Decodable(Rows(settings, id, key), settings, codec)
    ensures IsUncached(settings, codec, id, key,
                       if |list| == 0 then Ok(None) else if |list| > 1 then Err else Ok(Some(list[0])))
  {
    var known := Known(settings, id, key);
    forall i | 0 <= i < |list|
      ensures (list[i].userId, list[i].key) in known
    {
      assert list[i] in list;
    }
    if |list| > 1 {
      assert (list[0].userId, list[0].key) != (list[1].userId, list[1].key);
    } else {
      forall k | k in known
        ensures |list| == 1 && k == (list[0].userId, list[0].key)
      {
        var s :| s in list && s.userId == k.0 && s.key == k.1;
      }
    }
  }

  lemma KeysDropped(settings: SettingTable, id: int, keys: seq<string>, cacheKeys: seq<string>)
    requires forall k | k in Rows(settings, Some(id), UNSPECIFIED) :: KeyOf(k.1) in keys
    requires |cacheKeys| == |keys| && forall j | 0 <= j < |keys| :: cacheKeys[j] == SettingCacheKey(id, keys[j])
    ensures forall k | k in Rows(settings, Some(id), UNSPECIFIED) && k in settings && k.1 in SETTING_KEYS ::
      SettingCacheKey(k.0, k.1) in Elements(cacheKeys)
  {
    forall k | k in Rows(settings, Some(id), UNSPECIFIED) && k in settings && k.1 in SETTING_KEYS
      ensures SettingCacheKey(k.0, k.1) in Elements(cacheKeys)
    {
      var j :| 0 <= j < |keys| && keys[j] == k.1;
      assert cacheKeys[j] == SettingCacheKey(k.0, k.1);
    }
  }

  lemma NoneLeft(d: Items<UserSetting>, settings: SettingTable, codec: Codec, id: int, before: SettingTable)
    requires settings == before - Rows(before, Some(id), UNSPECIFIED) && SettingsCoherent(d, settings, codec)
    ensures forall k | k in d :: d[k].value.userId != id
  {
  }

  // ----- The store -----

  class Store {
    var users: UserTable
    var settings: SettingTable
    const codec: Codec
    const userCache: Cache<User>
    const settingCache: Cache<UserSetting>

    ghost predicate Valid()
      reads this, userCache, settingCache
    {
      && userCache.Valid() && settingCache.Valid()
      && codec.Lawful()
      && TableLaw(users)
      && UsersCoherent(userCache.data, users)
      && SettingsCoherent(settingCache.data, settings, codec)
    }

    constructor (users: UserTable, settings: SettingTable, codec: Codec, maxItems: int, ttl: int)
      requires codec.Lawful() && TableLaw(users)
      ensures Valid() && this.users == users && this.settings == settings && this.codec == codec
      ensures fresh(userCache) && fresh(settingCache) && userCache.State() == Contents(map[], 0)
      ensures userCache.maxItems == maxItems && userCache.defaultTTL == ttl
    {
      this.users, this.settings, this.codec := users, settings, codec;
      userCache := new Cache<User>(maxItems, ttl);
      settingCache := new Cache<UserSetting>(maxItems, ttl);
    }

    // ----- Users -----

    method CacheUser(u: User, now: int)
      requires Valid() && u.id in users && users[u.id] == u
      modifies userCache
      ensures Valid()
    {
      hide Oldest, Numbered, UsersCoherent, SettingsCoherent, PartOf, Cache.Sound, UserCacheKey;
      ghost var d := userCache.data;
      ghost var w := Written(userCache.State(), UserCacheKey(u.id), u, now + userCache.defaultTTL);
      userCache.Set(UserCacheKey(u.id), u, now);
      UserWritten(d, users, u, w[UserCacheKey(u.id)], userCache.data);
      assert users[u.id := u] == users;
    }

    /** The database gives the new row a number of its own. */
    method CreateUser(u: User, now: int)
      requires Valid() && u.id !in users
      modifies this`users, userCache
      ensures Valid() && users == old(users)[u.id := u] && UserCached(u, now)
    {
      StoreUser(u, now);
    }

    method UpdateUser(u: User, now: int) returns (found: bool)
      requires Valid()
      modifies this`users, userCache
      ensures Valid() && found == (u.id in old(users))
      ensures users == if found then old(users)[u.id := u] else old(users)
      ensures if found then UserCached(u, now) else userCache.State() == old(userCache.State())
    {
      found := u.id in users;
      if found {
        StoreUser(u, now);
      }
    }

    /** The user was put into the cache. */
    twostate predicate UserCached(u: User, now: int)
      reads this, userCache
    {
      userCache.State() ==
        Next(userCache.maxItems, userCache.defaultTTL, old(userCache.State()), SetEvent(UserCacheKey(u.id), u), now)
    }

    method StoreUser(u: User, now: int)
      requires Valid()
      modifies this`users, userCache
      ensures Valid() && users == old(users)[u.id := u] && UserCached(u, now)
    {
      hide Oldest, Numbered, UsersCoherent, SettingsCoherent, PartOf, Cache.Sound, UserCacheKey;
      ghost var d, before := userCache.data, users;
      ghost var w := Written(userCache.State(), UserCacheKey(u.id), u, now + userCache.defaultTTL);
      users := users[u.id := u];
      userCache.Set(UserCacheKey(u.id), u, now);
      UserWritten(d, before, u, w[UserCacheKey(u.id)], userCache.data);
    }

    /** What a read that never looks at the cache would find. */
    function Matching(id: Option<int>, filter: User -> bool): set<int>
      reads this`users
    {
      set i | i in users && (id.Some? ==> i == id.value) && filter(users[i])
    }

    method ListUsers(id: Option<int>, filter: User -> bool, now: int) returns (list: seq<User>)
      requires Valid()
      modifies userCache
      ensures Valid() && UserListing(list, Matching(id, filter), users)
      ensures forall u :: u in list <==>
        u.id in users && users[u.id] == u && (id.Some? ==> u.id == id.value) && filter(u)
    {
      hide UsersCoherent, SettingsCoherent, Cache.Valid, UserListing, Codec.Lawful;
      list := [];
      var left := Matching(id, filter);
      ghost var done: set<int> := {};
      NoUsers(users);
      while left != {}
        invariant left + done == Matching(id, filter)
        invariant UserListing(list, done, users)
        invariant Valid()
        decreases |left|
      {
        ghost var some := Member(left);
        var i :| i in left;
        CacheUser(users[i], now);
        UserListed(list, done, users, i);
        list := list + [users[i]];
        done := done + {i};
        left := left - {i};
      }
      assert done == Matching(id, filter);
      AllListed(list, done, users);
    }

    lemma AllListed(list: seq<User>, ids: set<int>, users: UserTable)
      requires TableLaw(users) && UserListing(list, ids, users)
      ensures forall u :: u in list <==> u.id in ids && u.id in users && users[u.id] == u
    {
    }

    lemma NoUsers(users: UserTable)
      ensures UserListing([], {}, users)
    {
    }

    predicate UserHit(id: Option<int>, now: int)
      reads userCache
    {
      && id.Some? && UserCacheKey(id.value) in userCache.data
      && now <= userCache.data[UserCacheKey(id.value)].expiration
    }

    /** A row that an uncached read could return, or nothing if there is none. */
    ghost predicate AsUncached(id: Option<int>, filter: User -> bool, r: Option<User>)
      reads this`users
    {
      if r.None? then Matching(id, filter) == {}
      else r.value.id in Matching(id, filter) && r.value == users[r.value.id]
    }

    /** A read by number alone returns the row, as an uncached read would. A cached user is returned without a look at
        the filter, so a read that filters is wrong exactly if the cache holds the user and the filter rejects the
        row. */
    method GetUser(id: Option<int>, filter: User -> bool, now: int) returns (r: Option<User>)
      requires Valid()
      modifies userCache
      ensures Valid()
      ensures old(UserHit(id, now)) ==> id.value in users && r == Some(users[id.value])
      ensures AsUncached(id, filter, r) <==> !(old(UserHit(id, now)) && !filter(users[id.value]))
      ensures id.Some? && (forall u :: filter(u)) ==>
        r == if id.value in users then Some(users[id.value]) else None
    {
      hide SettingsCoherent, Cache.Valid, Codec.Lawful, Itoa;
      if id.Some? {
        ghost var d := userCache.data;
        var cached := userCache.Get(UserCacheKey(id.value), now);
        UsersKept(d, users, userCache.data);
        if cached.Some? {
          ItoaInjective(id.value, cached.value.id);
          return cached;
        }
      }
      var list := ListUsers(id, filter, now);
      if |list| == 0 {
        EmptyListing(list, Matching(id, filter), users);
        return None;
      }
      assert list[0] in list;
      CacheUser(list[0], now);
      return Some(list[0]);
    }

    // ----- Settings -----

    method CacheSetting(s: UserSetting, now: int)
      requires Valid() && s.key in SETTING_KEYS && (s.userId, s.key) in settings
      requires codec.decode(s.key, settings[(s.userId, s.key)]) == Some(s.value)
      modifies settingCache
      ensures Valid()
    {
      hide Oldest, Numbered, UsersCoherent, SettingsCoherent, PartOf, Cache.Sound, SettingCacheKey;
      ghost var key := SettingCacheKey(s.userId, s.key);
      ghost var d, w := settingCache.data, Written(settingCache.State(), key, s, now + settingCache.defaultTTL);
      settingCache.Set(SettingCacheKey(s.userId, s.key), s, now);
      ghost var raw := settings[(s.userId, s.key)];
      SettingWritten(d, settings, codec, s, raw, w[key], settingCache.data);
      assert settings[(s.userId, s.key) := raw] == settings;
    }

    method UpsertUserSetting(id: int, key: string, value: string, now: int) returns (r: Result<UserSetting>)
      requires Valid()
      modifies this`settings, settingCache
      ensures Valid()
      ensures r == if key !in SETTING_KEYS then Err
                   else Ok(UserSetting(id, key, codec.decode(key, codec.encode(key, value)).value))
      ensures settings == if r.Ok? then old(settings)[(id, key) := codec.encode(key, value)] else old(settings)
    {
      hide Oldest, Numbered, UsersCoherent, SettingsCoherent, PartOf, Cache.Sound, SettingCacheKey;
      if key !in SETTING_KEYS {
        return Err;
      }
      var raw := codec.encode(key, value);
      ghost var before, d := settings, settingCache.data;
      settings := settings[(id, key) := raw];
      var s := UserSetting(id, key, codec.decode(key, raw).value);
      ghost var w := Written(settingCache.State(), SettingCacheKey(id, key), s, now + settingCache.defaultTTL);
      settingCache.Set(SettingCacheKey(id, key), s, now);
      SettingWritten(d, before, codec, s, raw, w[SettingCacheKey(id, key)], settingCache.data);
      return Ok(s);
    }

    /** Every row with a decoder is returned and cached, unless one fails to decode. */
    method ListUserSettings(id: Option<int>, key: string, now: int) returns (r: Result<seq<UserSetting>>)
      requires Valid()
      modifies settingCache
      ensures Valid()
      ensures r.Err? <==> !Decodable(Rows(settings, id, key), settings, codec)
      ensures r.Ok? ==> Listing(r.value, Rows(settings, id, key), settings, codec)
      ensures r.Ok? ==> forall s :: s in r.value <==>
        && s.key in SETTING_KEYS && (s.userId, s.key) in settings
        && codec.decode(s.key, settings[(s.userId, s.key)]) == Some(s.value)
        && (id.Some? ==> s.userId == id.value) && (key != UNSPECIFIED ==> s.key == key)
      ensures r.Err? <==>
        exists k ::
          && k in settings && k.1 in SETTING_KEYS && codec.decode(k.1, settings[k]).None?
          && (id.Some? ==> k.0 == id.value) && (key != UNSPECIFIED ==> k.1 == key)
    {
      hide UsersCoherent, SettingsCoherent, Cache.Valid, Codec.Lawful, Listing, TableLaw, Rows, Decodable;
      var list: seq<UserSetting> := [];
      var left := Rows(settings, id, key);
      ghost var done: set<(int, string)> := {};
      NoSettings(settings, codec);
      RowsAreKeys(settings, id, key);
      while left != {}
        invariant left + done == Rows(settings, id, key) && left !! done
        invariant Listing(list, done, settings, codec)
        invariant Decodable(done, settings, codec)
        invariant Valid()
        decreases |left|
      {
        var k :| k in left;
        if KeyOf(k.1) != UNSPECIFIED {
          var value := codec.decode(k.1, settings[k]);
          if value.None? {
            Undecodable(Rows(settings, id, key), k, settings, codec);
            RowIs(settings, id, key, k);
            return Err;
          }
          var s := UserSetting(k.0, k.1, value.value);
          CacheSetting(s, now);
          ListedOne(list, done, k, s, settings, codec);
          list := list + [s];
        } else {
          ListedNone(list, done, k, settings, codec);
        }
        DecodableMore(done, k, settings, codec);
        done := done + {k};
        left := left - {k};
      }
      assert done == Rows(settings, id, key);
      AllSettings(list, settings, codec, id, key);
      return Ok(list);
    }

    lemma AllSettings(list: seq<UserSetting>, settings: SettingTable, codec: Codec, id: Option<int>, key: string)
      requires Listing(list, Rows(settings, id, key), settings, codec)
      requires Decodable(Rows(settings, id, key), settings, codec)
      ensures forall s :: s in list <==>
        && s.key in SETTING_KEYS && (s.userId, s.key) in settings
        && codec.decode(s.key, settings[(s.userId, s.key)]) == Some(s.value)
        && (id.Some? ==> s.userId == id.value) && (key != UNSPECIFIED ==> s.key == key)
      ensures forall k | k in settings && k.1 in SETTING_KEYS &&
          (id.Some? ==> k.0 == id.value) && (key != UNSPECIFIED ==> k.1 == key) ::
        codec.decode(k.1, settings[k]).Some?
    {
      forall s: UserSetting | s.key in SETTING_KEYS && (s.userId, s.key) in Rows(settings, id, key) &&
          codec.decode(s.key, settings[(s.userId, s.key)]) == Some(s.value)
        ensures s in list
      {
        var x :| x in list && x.userId == s.userId && x.key == s.key;
        assert x == s;
      }
      forall k | k in settings && k.1 in SETTING_KEYS && (id.Some? ==> k.0 == id.value) &&
          (key != UNSPECIFIED ==> k.1 == key)
        ensures codec.decode(k.1, settings[k]).Some?
      {
        assert k in Rows(settings, id, key);
      }
    }

    lemma NoSettings(settings: SettingTable, codec: Codec)
      ensures Listing([], {}, settings, codec) && Decodable({}, settings, codec)
    {
    }

    lemma RowsAreKeys(settings: SettingTable, id: Option<int>, key: string)
      ensures Rows(settings, id, key) <= settings.Keys
    {
    }

    lemma RowIs(settings: SettingTable, id: Option<int>, key: string, k: (int, string))
      requires k in Rows(settings, id, key)
      ensures k in settings && (id.Some? ==> k.0 == id.value) && (key != UNSPECIFIED ==> k.1 == key)
    {
    }

    lemma Undecodable(rows: set<(int, string)>, k: (int, string), settings: SettingTable, codec: Codec)
      requires k in rows && k in settings && k.1 in SETTING_KEYS && codec.decode(k.1, settings[k]).None?
      ensures !Decodable(rows, settings, codec)
    {
    }

    lemma DecodableMore(rows: set<(int, string)>, k: (int, string), settings: SettingTable, codec: Codec)
      requires Decodable(rows, settings, codec) && k in settings
      requires k.1 in SETTING_KEYS ==> codec.decode(k.1, settings[k]).Some?
      ensures Decodable(rows + {k}, settings, codec)
    {
    }

    /** Every read returns what an uncached read would, by user and key, by either or by neither. */
    method GetUserSetting(id: Option<int>, key: string, now: int) returns (r: Result<Option<UserSetting>>)
      requires Valid() && (key in SETTING_KEYS || key == UNSPECIFIED)
      modifies settingCache
      ensures Valid() && IsUncached(settings, codec, id, key, r)
      ensures id.Some? && key in SETTING_KEYS ==>
        r == if (id.value, key) !in settings then Ok(None)
             else match codec.decode(key, settings[(id.value, key)])
               case None => Err
               case Some(value) => Ok(Some(UserSetting(id.value, key, value)))
    {
      hide UsersCoherent, Cache.Valid, Codec.Lawful, Listing, TableLaw, SettingCacheKey, Decodable, Rows, IsUncached;
      if id.Some? {
        ghost var d := settingCache.data;
        var cached := settingCache.Get(SettingCacheKey(id.value, key), now);
        SettingsKept(d, settings, codec, settingCache.data);
        if cached.Some? {
          KeysHaveNoDash(key);
          KeysHaveNoDash(cached.value.key);
          SettingCacheKeyInjective(id.value, key, cached.value.userId, cached.value.key);
          CachedIsUncached(settings, codec, cached.value);
          r := Ok(cached);
          ByKey(id, key, r);
          return;
        }
      }
      var list := ListUserSettings(id, key, now);
      if list.Err? {
        Undecoded(settings, codec, id, key);
        ByKey(id, key, Err);
        return Err;
      }
      ListedIsUncached(list.value, settings, codec, id, key);
      if |list.value| == 0 {
        r := Ok(None);
      } else if |list.value| > 1 {
        r := Err;
      } else {
        TheOne(list.value, settings, codec, id, key);
        CacheSetting(list.value[0], now);
        r := Ok(Some(list.value[0]));
      }
      ByKey(id, key, r);
    }

    lemma ByKey(id: Option<int>, key: string, r: Result<Option<UserSetting>>)
      requires IsUncached(settings, codec, id, key, r)
      ensures id.Some? && key in SETTING_KEYS ==>
        r == if (id.value, key) !in settings then Ok(None)
             else match codec.decode(key, settings[(id.value, key)])
               case None => Err
               case Some(value) => Ok(Some(UserSetting(id.value, key, value)))
    {
      hide IsUncached;
      if id.Some? && key in SETTING_KEYS {
        UncachedByKey(settings, codec, id.value, key, r);
      }
    }

    lemma Undecoded(settings: SettingTable, codec: Codec, id: Option<int>, key: string)
      requires !Decodable(Rows(settings, id, key), settings, codec)
      ensures IsUncached(settings, codec, id, key, Err)
    {
      assert !Decodable(Known(settings, id, key), settings, codec);
    }

    lemma TheOne(list: seq<UserSetting>, settings: SettingTable, codec: Codec, id: Option<int>, key: string)
      requires |list| == 1 && Listing(list, Rows(settings, id, key), settings, codec)
      ensures list[0].key in SETTING_KEYS && (list[0].userId, list[0].key) in settings
      ensures codec.decode(list[0].key, settings[(list[0].userId, list[0].key)]) == Some(list[0].value)
    {
      assert list[0] in list;
    }

    /** The selected rows leave the table, and nothing about them stays in the cache. */
    method DeleteUserSettings(id: Option<int>, key: string, now: int) returns (ok: bool)
      requires Valid()
      modifies this`settings, settingCache
      ensures Valid()
      ensures settings == if ok then old(settings) - Rows(old(settings), id, key) else old(settings)
      ensures ok <==> Decodable(Rows(old(settings), id, key), old(settings), codec)
      ensures forall k | k in settings :: k in old(settings) && settings[k] == old(settings)[k]
      ensures ok ==> forall k :: k in settings <==>
        k in old(settings) && !((id.Some? ==> k.0 == id.value) && (key != UNSPECIFIED ==> k.1 == key))
    {
      hide UsersCoherent, SettingsCoherent, Codec.Lawful, TableLaw, SettingCacheKey, Cache.Valid, Listing, Rows;
      var existing := ListUserSettings(id, key, now);
      if existing.Err? {
        return false;
      }
      var rows := Rows(settings, id, key);
      ghost var before, d := settings, settingCache.data;
      settings := settings - rows;
      var list := existing.value;
      var keys := seq(|list|, i requires 0 <= i < |list| => SettingCacheKey(list[i].userId, list[i].key));
      DropSettings(keys);
      AllDropped(list, rows, before, codec, keys);
      SettingsRemoved(d, before, codec, rows, Elements(keys));
      RowsRemoved(before, id, key);
      return true;
    }

    lemma RowsRemoved(before: SettingTable, id: Option<int>, key: string)
      ensures forall k :: k in before - Rows(before, id, key) <==>
        k in before && !((id.Some? ==> k.0 == id.value) && (key != UNSPECIFIED ==> k.1 == key))
    {
    }

    method DropSettings(keys: seq<string>)
      requires settingCache.Valid()
      modifies settingCache
      ensures settingCache.Valid() && settingCache.data == old(settingCache.data) - Elements(keys)
    {
      hide Cache.Valid, Elements;
      ghost var d := settingCache.data;
      NoElements<string>();
      for i := 0 to |keys|
        invariant settingCache.Valid() && settingCache.data == d - Elements(keys[..i])
      {
        settingCache.Delete(keys[i]);
        assert keys[..i + 1] == keys[..i] + [keys[i]];
        ElementsAppend(keys[..i], keys[i]);
        RemoveMore(d, Elements(keys[..i]), keys[i]);
      }
      assert keys[..|keys|] == keys;
    }

    // ----- Deleting a user -----

    /** The driver returns the setting keys of the deleted user, in any order. */
    method DriverDeleteUser(id: int) returns (keys: seq<string>)
      modifies this`users, this`settings
      ensures users == old(users) - {id}
      ensures settings == old(settings) - Rows(old(settings), Some(id), UNSPECIFIED)
      ensures forall k | k in Rows(old(settings), Some(id), UNSPECIFIED) :: KeyOf(k.1) in keys
    {
      keys := [];
      var left := Rows(settings, Some(id), UNSPECIFIED);
      ghost var all := left;
      while left != {}
        invariant left <= all
        invariant forall k | k in all && k !in left :: KeyOf(k.1) in keys
        decreases |left|
      {
        var k :| k in left;
        keys := keys + [KeyOf(k.1)];
        left := left - {k};
      }
      users := users - {id};
      settings := settings - Rows(settings, Some(id), UNSPECIFIED);
    }

    /** After a deletion neither cache holds anything of the user. */
    method DeleteUser(id: int)
      requires Valid()
      modifies this`users, this`settings, userCache, settingCache
      ensures Valid()
      ensures users == old(users) - {id}
      ensures settings == old(settings) - Rows(old(settings), Some(id), UNSPECIFIED)
      ensures forall k :: k in settings <==> k in old(settings) && k.0 != id
      ensures UserCacheKey(id) !in userCache.data
      ensures forall k | k in settingCache.data :: settingCache.data[k].value.userId != id
    {
      hide UsersCoherent, SettingsCoherent, Codec.Lawful, SettingCacheKey, UserCacheKey, Cache.Valid, Rows;
      ghost var before, beforeUsers := settings, users;
      ghost var d, du := settingCache.data, userCache.data;
      ghost var rows := Rows(settings, Some(id), UNSPECIFIED);
      var keys := DriverDeleteUser(id);
      userCache.Delete(UserCacheKey(id));
      UserRemoved(du, beforeUsers, id);
      var cacheKeys := seq(|keys|, i requires 0 <= i < |keys| => SettingCacheKey(id, keys[i]));
      DropSettings(cacheKeys);
      KeysDropped(before, id, keys, cacheKeys);
      SettingsRemoved(d, before, codec, rows, Elements(cacheKeys));
      NoneLeft(settingCache.data, settings, codec, id, before);
      RowsRemoved(before, Some(id), UNSPECIFIED);
    }

    /** Expired items may leave at any time. */
    method Expire(now: int)
      requires Valid()
      modifies userCache, settingCache
      ensures Valid()
    {
      hide UsersCoherent, SettingsCoherent, Codec.Lawful, Cache.Valid;
      ghost var d, du := settingCache.data, userCache.data;
      userCache.Cleanup(now);
      settingCache.Cleanup(now);
      UsersKept(du, users, userCache.data);
      SettingsKept(d, settings, codec, settingCache.data);
    }
  }

  /** A store at which a filtered read goes wrong: the user that was just created is found by a read whose filter
      rejects every user. */
  method RejectedUserIsFound(u: User, codec: Codec, now: int) returns (r: Option<User>)
    requires codec.Lawful()
    ensures r == Some(u)
  {
    hide Itoa, Codec.Lawful, Oldest;
    var store := new Store(map[], map[], codec, 1000, 600);
    store.CreateUser(u, now);
    ghost var w := Written(Contents(map[], 0), UserCacheKey(u.id), u, now + 600);
    WrittenCount<User>(map[], UserCacheKey(u.id), w[UserCacheKey(u.id)]);
    assert store.userCache.data == w;
    r := store.GetUser(Some(u.id), _ => false, now);
  }
}
