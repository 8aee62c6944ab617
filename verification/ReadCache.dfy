/**
 * `src/lib/api-cache.ts`: the in-process map, the optional Redis tier with its permanent
 * degradation, the read-through path and invalidation.
 *
 * Redis is an object with entries and a flag that makes every command fail; the wall clock and
 * what the loader would return are parameters.
 */
module ReadCache {
  import opened Text

  datatype Entry = Entry(value: string, expiresAt: int)

  // ---------------------------------------------------------------- keys

  datatype Scope = Stats | Analytics | Contracts | AuditLog | FeeConfig

  function ScopeText(scope: Scope): string {
    match scope
    case Stats => "stats"
    case Analytics => "analytics"
    case Contracts => "contracts"
    case AuditLog => "audit-log"
    case FeeConfig => "fee-config"
  }

  const KEY_PREFIX := "ophirpay:cache:"

  function ScopePrefix(scope: Scope): string { KEY_PREFIX + ScopeText(scope) + ":" }

  function ReadCacheKey(scope: Scope, subject: string): string { ScopePrefix(scope) + subject }

  /** The keys as they stand in both tiers. */
  lemma KeysAre(subject: string)
    ensures ReadCacheKey(Stats, subject) == "ophirpay:cache:stats:" + subject
    ensures ReadCacheKey(Analytics, subject) == "ophirpay:cache:analytics:" + subject
    ensures ReadCacheKey(Contracts, subject) == "ophirpay:cache:contracts:" + subject
    ensures ReadCacheKey(AuditLog, subject) == "ophirpay:cache:audit-log:" + subject
    ensures ReadCacheKey(FeeConfig, subject) == "ophirpay:cache:fee-config:" + subject
  {
    assert ScopePrefix(Stats) == "ophirpay:cache:stats:" && ScopePrefix(Analytics) == "ophirpay:cache:analytics:";
    assert ScopePrefix(Contracts) == "ophirpay:cache:contracts:";
    assert ScopePrefix(AuditLog) == "ophirpay:cache:audit-log:";
    assert ScopePrefix(FeeConfig) == "ophirpay:cache:fee-config:";
  }

  predicate StartsWith(s: string, prefix: string) { prefix <= s }

  /** The keys `invalidateCache(scope, subject)` is documented to drop. */
  predicate Targets(scope: Scope, subject: Option<string>, key: string) {
    match subject
    case None => StartsWith(key, ScopePrefix(scope))
    case Some(name) => key == ReadCacheKey(scope, name) || StartsWith(key, ReadCacheKey(scope, name) + ":")
  }

  lemma ScopeSeparates(a: Scope, b: Scope, rest: string)
    requires StartsWith(ScopePrefix(a) + rest, ScopePrefix(b))
    ensures a == b
  {
    var key := ScopePrefix(a) + rest;
    assert key[15] == ScopePrefix(a)[15] == ScopeText(a)[0] && key[16] == ScopePrefix(a)[16] == ScopeText(a)[1];
    assert key[15] == ScopePrefix(b)[15] == ScopeText(b)[0] && key[16] == ScopePrefix(b)[16] == ScopeText(b)[1];
  }

  lemma CommonPrefix(p: string, s: string, t: string)
    ensures StartsWith(p + s, p + t) <==> StartsWith(s, t)
    ensures p + s == p + t <==> s == t
  {
    assert (p + s)[|p|..] == s && (p + t)[|p|..] == t;
    if StartsWith(p + s, p + t) {
      assert (p + t)[|p|..] == (p + s)[..|p| + |t|][|p|..] == s[..|t|];
    }
  }

  /**
   * Invalidation never crosses scopes, and within a scope it reaches a subject only if it is the
   * named one or extends it with a colon: `user1` never touches `user10`.
   */
  lemma TargetsExactly(scope: Scope, subject: Option<string>, scope': Scope, subject': string)
    ensures Targets(scope, subject, ReadCacheKey(scope', subject')) <==>
            scope == scope' && (subject.None? || subject' == subject.value || StartsWith(subject', subject.value + ":"))
  {
    var key := ReadCacheKey(scope', subject');
    match subject {
      case None =>
        if Targets(scope, subject, key) { ScopeSeparates(scope', scope, subject'); }
      case Some(name) =>
        assert ReadCacheKey(scope, name) + ":" == ScopePrefix(scope) + (name + ":");
        if Targets(scope, subject, key) {
          assert StartsWith(key, ScopePrefix(scope));
          ScopeSeparates(scope', scope, subject');
        }
        if scope == scope' {
          CommonPrefix(ScopePrefix(scope), subject', name + ":");
          CommonPrefix(ScopePrefix(scope), subject', name);
        }
    }
  }

  // ---------------------------------------------------------------- entries

  /** L1: live up to and including its expiry time. */
  function Lookup(store: map<string, Entry>, key: string, now: int): Option<string> {
    if key in store && now <= store[key].expiresAt then Some(store[key].value) else None
  }

  /** Redis: gone at its expiry time. */
  function RedisLookup(entries: map<string, Entry>, key: string, now: int): Option<string> {
    if key in entries && now < entries[key].expiresAt then Some(entries[key].value) else None
  }

  /** L1 after a lookup: an expired entry is dropped. */
  function Pruned(store: map<string, Entry>, key: string, now: int): map<string, Entry> {
    if key in store && now > store[key].expiresAt then store - {key} else store
  }

  function Without(store: map<string, Entry>, scope: Scope, subject: Option<string>): map<string, Entry> {
    map key | key in store && !Targets(scope, subject, key) :: store[key]
  }

  function WithoutPrefix(store: map<string, Entry>, prefix: string): map<string, Entry> {
    map key | key in store && !StartsWith(key, prefix) :: store[key]
  }

  /** `JSON.stringify`, `None` when it throws, and `JSON.parse`, `None` when it throws. */
  datatype Codec<!V> = Codec(encode: V -> Option<string>, decode: string -> Option<V>)

  function Decoded<V>(codec: Codec<V>, raw: Option<string>): Option<V> {
    if raw.None? then None else codec.decode(raw.value)
  }

  datatype Read<V> = Hit(value: V) | Miss(value: V) | LoaderThrew

  class Redis {
    var entries: map<string, Entry>
    /** Every command errors. */
    var failing: bool
  }

  /** One round of SCAN: the matching keys it returned; the cursor is "0" after the last round. */
  type Round = seq<string>

  const MAX_SCAN_ITERATIONS := 10

  /** The keys found by the rounds the loop runs. */
  function Scanned(rounds: seq<Round>): set<string> {
    set i, j | 0 <= i < |rounds| && i < MAX_SCAN_ITERATIONS && 0 <= j < |rounds[i]| :: rounds[i][j]
  }

  class Cache<V> {
    var store: map<string, Entry>
    var redis: Redis?
    var redisUnavailable: bool
    /** The server behind `REDIS_URL`, if the variable is set. */
    const server: Redis?

    /** The client a Redis command would go to. */
    function Client(): Redis?
      reads this
    {
      if redis != null then redis else if redisUnavailable then null else server
    }

    /** A Redis command would be answered. */
    predicate Reaches()
      reads this, redis, server
    {
      Client() != null && !Client().failing
    }

    /** The tier-two lookup a read would make: nothing unless Redis answers. */
    function SharedLookup(key: string, now: int): Option<string>
      reads this, redis, server
    {
      if Reaches() then RedisLookup(Client().entries, key, now) else None
    }

    method MemoryGet(key: string, now: int) returns (value: Option<string>)
      modifies this`store
      ensures value == Lookup(old(store), key, now)
      ensures store == if key in old(store) && old(store)[key].expiresAt < now then old(store) - {key} else old(store)
      ensures store == Pruned(old(store), key, now)
    {
      if key !in store { return None; }
      var entry := store[key];
      if now > entry.expiresAt {
        store := store - {key};
        return None;
      }
      return Some(entry.value);
    }

    method MemorySet(key: string, value: string, ttl: int, now: int)
      modifies this`store
      ensures store == old(store)[key := Entry(value, now + ttl)]
    {
      store := store[key := Entry(value, now + ttl)];
    }

    /** `keys` is `Array.from(store.keys())`. */
    method MemoryDeleteByPrefix(prefix: string, keys: seq<string>) returns (deleted: nat)
      requires KeysOf(store, keys)
      modifies this`store
      ensures store == WithoutPrefix(old(store), prefix)
      ensures deleted == |old(store)| - |store|
    {
      deleted := 0;
      for i := 0 to |keys|
        invariant store == WithoutSome(old(store), prefix, keys[..i])
        invariant deleted == |old(store)| - |store|
      {
        assert keys[..i + 1] == keys[..i] + [keys[i]];
        WithoutSomeSnoc(old(store), prefix, keys[..i], keys[i]);
        if StartsWith(keys[i], prefix) {
          RemoveOne(store, keys[i]);
          store := store - {keys[i]};
          deleted := deleted + 1;
        }
      }
      assert keys[..|keys|] == keys;
      WithoutAll(old(store), prefix, keys);
    }

    /** Connect on first use; an absent or failing server leaves the cache on L1 for good. */
    method EnsureRedis()
      modifies this`redis, this`redisUnavailable
      ensures redis == if old(redis) != null || old(redisUnavailable) then old(redis)
                       else if server == null || server.failing then null else server
      ensures redisUnavailable == (old(redisUnavailable) || (old(redis) == null && redis == null))
    {
      if redis != null || redisUnavailable { return; }
      if server == null || server.failing {
        redisUnavailable := true;
      } else {
        redis := server;
      }
    }

    /**
     * `withRedis`, up to the command: the command goes to the client, or, if that does not answer, Redis
     * is given up for good.
     */
    method WithRedis() returns (reached: bool)
      modifies this`redis, this`redisUnavailable
      ensures reached == if old(redis) != null then !old(redis).failing
                         else !old(redisUnavailable) && server != null && !server.failing
      ensures reached ==> redis == if old(redis) != null then old(redis) else server
      ensures reached == old(Reaches())
      ensures reached ==> redis == old(Client()) && redisUnavailable == old(redisUnavailable)
      ensures !reached ==> redis == null && redisUnavailable
    {
      EnsureRedis();
      if redis == null { return false; }
      if redis.failing {
        redis, redisUnavailable := null, true;
        return false;
      }
      return true;
    }

    /** `withRedis((client) => client.get(key), null)` */
    method SharedGet(key: string, now: int) returns (value: Option<string>)
      modifies this`redis, this`redisUnavailable
      ensures value == old(SharedLookup(key, now))
      ensures if old(Reaches()) then redis == old(Client()) && redisUnavailable == old(redisUnavailable)
              else redis == null && redisUnavailable
    {
      var reached := WithRedis();
      value := if reached then RedisLookup(redis.entries, key, now) else None;
    }

    /** `withRedis((client) => client.set(key, value, "PX", ttl), null)` */
    method SharedSet(key: string, value: string, ttl: int, now: int)
      modifies this`redis, this`redisUnavailable, redis, server
      ensures if old(Reaches()) then redis == old(Client()) && redisUnavailable == old(redisUnavailable)
              else redis == null && redisUnavailable
      ensures old(Client()) != null ==>
                old(Client()).entries ==
                if old(Reaches()) then old(Client().entries)[key := Entry(value, now + ttl)] else old(Client().entries)
      ensures server != null && server != old(Client()) ==> server.entries == old(server.entries)
      ensures old(Client()) != null ==> old(Client()).failing == old(Client().failing)
      ensures server != null ==> server.failing == old(server.failing)
    {
      var reached := WithRedis();
      if reached { redis.entries := redis.entries[key := Entry(value, now + ttl)]; }
    }

    /**
     * `cachedRead`.  `loaded` is what the loader would answer, `None` when it throws; it runs only
     * on a miss.  The clauses give the answer, L1, the client, and the entries of every server.
     */
    method CachedRead(codec: Codec<V>, key: string, loaded: Option<V>, ttl: int, now: int) returns (read: Read<V>)
      modifies this`store, this`redis, this`redisUnavailable, redis, server
      ensures var local := Decoded(codec, Lookup(old(store), key, now));
              var shared := Decoded(codec, old(SharedLookup(key, now)));
              read == (if local.Some? then Hit(local.value)
                       else if shared.Some? then Hit(shared.value)
                       else if loaded.None? then LoaderThrew
                       else Miss(loaded.value))
      ensures var local := Decoded(codec, Lookup(old(store), key, now));
              store == if local.Some? || read.LoaderThrew? || codec.encode(read.value).None?
                       then Pruned(old(store), key, now)
                       else Pruned(old(store), key, now)[key := Entry(codec.encode(read.value).value, now + ttl)]
      ensures if Decoded(codec, Lookup(old(store), key, now)).Some?
              then redis == old(redis) && redisUnavailable == old(redisUnavailable)
              else if old(Reaches()) then redis == old(Client()) && redisUnavailable == old(redisUnavailable)
              else redis == null && redisUnavailable
      ensures old(Client()) != null ==>
                old(Client()).entries ==
                if read.Miss? && codec.encode(read.value).Some? && old(Reaches())
                then old(Client().entries)[key := Entry(codec.encode(read.value).value, now + ttl)]
                else old(Client().entries)
      ensures server != null && server != old(Client()) ==> server.entries == old(server.entries)
      ensures old(Client()) != null ==> old(Client()).failing == old(Client().failing)
      ensures server != null ==> server.failing == old(server.failing)
    {
      var raw := MemoryGet(key, now);
      var fromMemory := Decoded(codec, raw);
      if fromMemory.Some? { return Hit(fromMemory.value); }
      raw := SharedGet(key, now);
      var fromRedis := Decoded(codec, raw);
      if fromRedis.Some? {
        var warm := codec.encode(fromRedis.value);
        if warm.Some? { MemorySet(key, warm.value, ttl, now); }
        return Hit(fromRedis.value);
      }
      if loaded.None? { return LoaderThrew; }
      var serialized := codec.encode(loaded.value);
      if serialized.Some? {
        MemorySet(key, serialized.value, ttl, now);
        SharedSet(key, serialized.value, ttl, now);
      }
      return Miss(loaded.value);
    }

    /** The SCAN loop, at most ten rounds, over what SCAN answers. */
    method ScanDelete(client: Redis, rounds: seq<Round>)
      modifies client`entries
      ensures client.entries == old(client.entries) - Scanned(rounds)
    {
      var i := 0;
      while i < MAX_SCAN_ITERATIONS && i < |rounds|
        invariant 0 <= i <= MAX_SCAN_ITERATIONS && i <= |rounds|
        invariant client.entries == old(client.entries) - Scanned(rounds[..i])
      {
        ScannedSnoc(rounds, i);
        client.entries := client.entries - (set key | key in rounds[i]);
        i := i + 1;
      }
      ScannedStops(rounds, i);
    }

    /** The L1 half of `invalidateCache`; `keys` is `Array.from(store.keys())` as the loop finds it. */
    method InvalidateLocal(scope: Scope, subject: Option<string>, keys: seq<string>)
      requires KeysOf(Dropped(store, scope, subject), keys)
      modifies this`store
      ensures store == Without(old(store), scope, subject)
    {
      WithoutByPrefix(store, scope, subject);
      store := Dropped(store, scope, subject);
      var _ := MemoryDeleteByPrefix(ScanPrefix(scope, subject), keys);
    }

    /** The Redis half; `rounds` is what SCAN answers. */
    method InvalidateShared(scope: Scope, subject: Option<string>, rounds: seq<Round>)
      modifies this`redis, this`redisUnavailable, redis, server
      ensures if old(Reaches()) then redis == old(Client()) && redisUnavailable == old(redisUnavailable)
              else redis == null && redisUnavailable
      ensures old(Client()) != null ==>
                old(Client()).entries ==
                if old(Reaches()) then old(Client().entries) - ScannedKeys(scope, subject, rounds)
                else old(Client().entries)
      ensures server != null && server != old(Client()) ==> server.entries == old(server.entries)
      ensures old(Client()) != null ==> old(Client()).failing == old(Client().failing)
      ensures server != null ==> server.failing == old(server.failing)
    {
      var reached := WithRedis();
      if !reached { return; }
      ghost var before := redis.entries;
      if subject.Some? { redis.entries := redis.entries - {ReadCacheKey(scope, subject.value)}; }
      ghost var middle := redis.entries;
      ScanDelete(redis, rounds);
      assert middle - Scanned(rounds) == before - ScannedKeys(scope, subject, rounds);
    }

    /** `invalidateCache` */
    method InvalidateCache(scope: Scope, subject: Option<string>, keys: seq<string>, rounds: seq<Round>)
      requires KeysOf(Dropped(store, scope, subject), keys)
      modifies this`store, this`redis, this`redisUnavailable, redis, server
      ensures store == Without(old(store), scope, subject)
      ensures if old(Reaches()) then redis == old(Client()) && redisUnavailable == old(redisUnavailable)
              else redis == null && redisUnavailable
      ensures old(Client()) != null ==>
                old(Client()).entries ==
                if old(Reaches()) then old(Client().entries) - ScannedKeys(scope, subject, rounds)
                else old(Client().entries)
      ensures server != null && server != old(Client()) ==> server.entries == old(server.entries)
      ensures old(Client()) != null ==> old(Client()).failing == old(Client().failing)
      ensures server != null ==> server.failing == old(server.failing)
    {
      InvalidateLocal(scope, subject, keys);
      InvalidateShared(scope, subject, rounds);
    }
  }

  // ---------------------------------------------------------------- from one read to the next

  /** The value can be printed and read back. */
  ghost predicate Survives<V>(codec: Codec<V>, value: V) {
    codec.encode(value).Some? && codec.decode(codec.encode(value).value) == Some(value)
  }

  /** What a read answers when neither tier does. */
  function Loaded<V>(loaded: Option<V>): Read<V> { if loaded.Some? then Miss(loaded.value) else LoaderThrew }

  /**
   * A value that one process has loaded answers its own reads, up to and including ttl milliseconds
   * later, whatever the loader would answer by then; after that, without Redis, the loader is asked.
   */
  method ReadAgain<V>(codec: Codec<V>, cache: Cache<V>, key: string, value: V, other: Option<V>, ttl: nat, now: int,
                      later: int) returns (first: Read<V>, second: Read<V>)
    requires Survives(codec, value) && now <= later
    modifies cache`store, cache`redis, cache`redisUnavailable, cache.redis, cache.server
    ensures first == Miss(value) && later <= now + ttl ==> second == Hit(value)
    ensures first == Miss(value) && later > now + ttl && !old(cache.Reaches()) ==> second == Loaded(other)
  {
    first := cache.CachedRead(codec, key, Some(value), ttl, now);
    second := cache.CachedRead(codec, key, other, ttl, later);
  }

  /**
   * A value that one process has loaded and shared answers the first read of another process within
   * less than ttl milliseconds, and not from then on; and once it has answered there, it answers
   * further reads of that process for ttl milliseconds of its own.
   */
  method ReadElsewhere<V>(codec: Codec<V>, here: Cache<V>, there: Cache<V>, key: string, value: V, other: Option<V>,
                          ttl: nat, now: int, later: int, again: int)
    returns (first: Read<V>, second: Read<V>, third: Read<V>)
    requires Survives(codec, value) && now <= later <= again
    requires here != there && here.Reaches() && there.Reaches() && here.Client() == there.Client()
    requires key !in there.store
    modifies here`store, here`redis, here`redisUnavailable, here.redis, here.server
    modifies there`store, there`redis, there`redisUnavailable, there.redis, there.server
    ensures first == Miss(value) && later < now + ttl ==> second == Hit(value)
    ensures first == Miss(value) && later >= now + ttl ==> second == Loaded(other)
    ensures second == Hit(value) && again <= later + ttl ==> third == Hit(value)
  {
    first := here.CachedRead(codec, key, Some(value), ttl, now);
    second := there.CachedRead(codec, key, other, ttl, later);
    third := there.CachedRead(codec, key, other, ttl, again);
  }

  /** `keys` lists the keys of `store`, each once. */
  ghost predicate KeysOf(store: map<string, Entry>, keys: seq<string>) {
    && (forall i, j | 0 <= i < j < |keys| :: keys[i] != keys[j])
    && (forall key :: key in keys <==> key in store)
  }

  /** The store after the prefix loop has handled the keys `done`. */
  function WithoutSome(store: map<string, Entry>, prefix: string, done: seq<string>): map<string, Entry> {
    map key | key in store && !(key in done && StartsWith(key, prefix)) :: store[key]
  }

  lemma WithoutSomeSnoc(store: map<string, Entry>, prefix: string, done: seq<string>, key: string)
    requires key in store && key !in done
    ensures key in WithoutSome(store, prefix, done)
    ensures WithoutSome(store, prefix, done + [key]) ==
            var kept := WithoutSome(store, prefix, done); if StartsWith(key, prefix) then kept - {key} else kept
  {}

  lemma WithoutAll(store: map<string, Entry>, prefix: string, keys: seq<string>)
    requires forall key :: key in keys <==> key in store
    ensures WithoutSome(store, prefix, keys) == WithoutPrefix(store, prefix)
  {}

  lemma WithoutByPrefix(store: map<string, Entry>, scope: Scope, subject: Option<string>)
    ensures Without(store, scope, subject) == WithoutPrefix(Dropped(store, scope, subject), ScanPrefix(scope, subject))
  {}

  /** The store as the prefix loop finds it: the subject's own key is already gone. */
  function Dropped(store: map<string, Entry>, scope: Scope, subject: Option<string>): map<string, Entry> {
    if subject.Some? then store - {ReadCacheKey(scope, subject.value)} else store
  }

  function ScannedKeys(scope: Scope, subject: Option<string>, rounds: seq<Round>): set<string> {
    Scanned(rounds) + (if subject.Some? then {ReadCacheKey(scope, subject.value)} else {})
  }

  lemma RemoveOne(m: map<string, Entry>, key: string)
    requires key in m
    ensures |m - {key}| == |m| - 1
  {}

  lemma ScannedSnoc(rounds: seq<Round>, i: nat)
    requires i < |rounds| && i < MAX_SCAN_ITERATIONS
    ensures Scanned(rounds[..i + 1]) == Scanned(rounds[..i]) + (set key | key in rounds[i])
  {}

  lemma ScannedStops(rounds: seq<Round>, i: nat)
    requires i <= |rounds| && i <= MAX_SCAN_ITERATIONS && (i == |rounds| || i == MAX_SCAN_ITERATIONS)
    ensures Scanned(rounds[..i]) == Scanned(rounds)
  {}

  /** SCAN over the whole keyspace: every matching key, and only those, in some round. */
  predicate FullScan(entries: map<string, Entry>, prefix: string, rounds: seq<Round>) {
    && (forall i, j | 0 <= i < |rounds| && 0 <= j < |rounds[i]| :: StartsWith(rounds[i][j], prefix))
    && (forall key | key in entries && StartsWith(key, prefix) ::
          exists i | 0 <= i < |rounds| :: key in rounds[i])
  }

  function ScanPrefix(scope: Scope, subject: Option<string>): string {
    if subject.Some? then ReadCacheKey(scope, subject.value) + ":" else ScopePrefix(scope)
  }

  /**
   * The shared tier loses exactly the targeted keys if and only if no targeted key first turns up
   * after the tenth round: a scan of at most ten rounds always suffices.
   */
  lemma SharedTierExactIff(entries: map<string, Entry>, scope: Scope, subject: Option<string>, rounds: seq<Round>)
    requires FullScan(entries, ScanPrefix(scope, subject), rounds)
    ensures entries - ScannedKeys(scope, subject, rounds) == Without(entries, scope, subject) <==>
            forall key | key in entries && StartsWith(key, ScanPrefix(scope, subject)) ::
              exists i | 0 <= i < |rounds| && i < 10 :: key in rounds[i]
    ensures |rounds| <= 10 ==>
              entries - ScannedKeys(scope, subject, rounds) == Without(entries, scope, subject)
  {
    var prefix := ScanPrefix(scope, subject);
    var scanned := ScannedKeys(scope, subject, rounds);
    forall key
      ensures key in Scanned(rounds) <==> exists i | 0 <= i < |rounds| && i < MAX_SCAN_ITERATIONS :: key in rounds[i]
      ensures key in Scanned(rounds) ==> StartsWith(key, prefix)
    {
      if i :| 0 <= i < |rounds| && i < MAX_SCAN_ITERATIONS && key in rounds[i] {
        var j :| 0 <= j < |rounds[i]| && rounds[i][j] == key;
      }
      if key in Scanned(rounds) {
        var p, q :| 0 <= p < |rounds| && p < MAX_SCAN_ITERATIONS && 0 <= q < |rounds[p]| && rounds[p][q] == key;
        assert key in rounds[p];
      }
    }
    forall key ensures key in scanned ==> Targets(scope, subject, key) {}
    if entries - scanned == Without(entries, scope, subject) {
      forall key | key in entries && StartsWith(key, prefix)
        ensures exists i | 0 <= i < |rounds| && i < MAX_SCAN_ITERATIONS :: key in rounds[i]
      {
        assert Targets(scope, subject, key);
        assert key !in Without(entries, scope, subject);
        assert key in scanned;
        if subject.Some? { assert |key| > |ReadCacheKey(scope, subject.value)|; }
      }
    }
  }
}
