/**
 * How old a value served by `src/lib/api-cache.ts` can be, over all runs of any number of replicas
 * that share a Redis.  Each copy of a value carries the time its loader answered.
 *
 * A write to Redis reaches it at most `writeLag` after the load, and a replica stores what it read
 * from Redis at most `readLag` after Redis answered.
 */
module CacheStaleness {
  import opened Text
  import ReadCache

  type Replica = nat
  type Key = string

  /** A copy made from a load at `loadedAt`. */
  datatype Copy = Copy(loadedAt: int, expiresAt: int)

  /** A value read from Redis at `readAt` that will be stored in L1 and served. */
  datatype Warm = Warm(key: Key, loadedAt: int, readAt: int)

  datatype Config = Config(ttl: nat, writeLag: nat, readLag: nat)

  datatype State = State(
    now: int,
    local: map<(Replica, Key), Copy>,
    shared: map<Key, Copy>,
    writes: set<(Key, int)>,             // SETs under way, with their load times
    warms: set<(Replica, Warm)>)         // GETs answered, not yet stored

  datatype Step =
    | Tick(ms: nat)
    | ServeLocal(r: Replica, key: Key)
    | ReadShared(r: Replica, key: Key)
    | StoreWarm(r: Replica, warm: Warm)
    | LoadMiss(r: Replica, key: Key, shareIt: bool)   // the loader answers; with Redis gone nothing is sent
    | WriteShared(key: Key, loadedAt: int)
    | Invalidate(local: set<(Replica, Key)>, shared: set<Key>)
    | Lose(writes: set<(Key, int)>, warms: set<(Replica, Warm)>)

  predicate LocalHit(s: State, r: Replica, key: Key) {
    (r, key) in s.local && s.now <= s.local[(r, key)].expiresAt
  }

  predicate SharedHit(s: State, key: Key) { key in s.shared && s.now < s.shared[key].expiresAt }

  predicate Enabled(c: Config, s: State, step: Step) {
    match step
    case Tick(_) => true
    case ServeLocal(r, key) => LocalHit(s, r, key)
    case ReadShared(_, key) => SharedHit(s, key)      // memory has no copy, or one that cannot be decoded
    case StoreWarm(r, warm) => (r, warm) in s.warms && s.now <= warm.readAt + c.readLag
    case LoadMiss(r, key, _) => true
    case WriteShared(key, loadedAt) => (key, loadedAt) in s.writes && s.now <= loadedAt + c.writeLag
    case Invalidate(_, _) => true
    case Lose(_, _) => true
  }

  function Apply(c: Config, s: State, step: Step): State
    requires Enabled(c, s, step)
  {
    match step
    case Tick(ms) => s.(now := s.now + ms)
    case ServeLocal(_, _) => s
    case ReadShared(r, key) => s.(warms := s.warms + {(r, Warm(key, s.shared[key].loadedAt, s.now))})
    case StoreWarm(r, warm) =>
      s.(local := s.local[(r, warm.key) := Copy(warm.loadedAt, s.now + c.ttl)], warms := s.warms - {(r, warm)})
    case LoadMiss(r, key, shareIt) =>
      s.(local := s.local[(r, key) := Copy(s.now, s.now + c.ttl)],
         writes := if shareIt then s.writes + {(key, s.now)} else s.writes)
    case WriteShared(key, loadedAt) =>
      s.(shared := s.shared[key := Copy(loadedAt, s.now + c.ttl)], writes := s.writes - {(key, loadedAt)})
    case Invalidate(local, shared) => s.(local := s.local - local, shared := s.shared - shared)
    case Lose(writes, warms) => s.(writes := s.writes - writes, warms := s.warms - warms)
  }

  /** When the value a step serves was loaded. */
  function ServedFrom(s: State, step: Step): Option<int>
  {
    match step
    case ServeLocal(r, key) => if (r, key) in s.local then Some(s.local[(r, key)].loadedAt) else None
    case StoreWarm(_, warm) => Some(warm.loadedAt)
    case LoadMiss(_, _, _) => Some(s.now)
    case _ => None
  }

  const Initial := State(0, map[], map[], {}, {})

  ghost predicate Run(c: Config, s: State, steps: seq<Step>, t: State)
    decreases |steps|
  {
    if steps == [] then s == t
    else Enabled(c, s, steps[0]) && Run(c, Apply(c, s, steps[0]), steps[1..], t)
  }

  /** The greatest age a served value can have. */
  function Oldest(c: Config): nat { if c.ttl == 0 then 0 else 2 * c.ttl - 1 + c.writeLag + c.readLag }

  /** Copies in Redis come straight from a load; a warmed L1 copy is never written back to Redis. */
  ghost predicate Bounded(c: Config, s: State) {
    && (forall w | w in s.writes :: w.1 <= s.now)
    && (forall key | key in s.shared ::
          && s.shared[key].loadedAt <= s.now && s.shared[key].expiresAt <= s.now + c.ttl
          && s.shared[key].expiresAt <= s.shared[key].loadedAt + c.writeLag + c.ttl)
    && (forall w | w in s.warms ::
          c.ttl >= 1 && w.1.loadedAt <= w.1.readAt <= s.now && w.1.readAt < w.1.loadedAt + c.writeLag + c.ttl)
    && (forall k | k in s.local ::
          s.local[k].loadedAt <= s.now && s.local[k].expiresAt <= s.local[k].loadedAt + Oldest(c))
  }

  lemma BoundedStep(c: Config, s: State, step: Step)
    requires Bounded(c, s) && Enabled(c, s, step)
    ensures Bounded(c, Apply(c, s, step))
  {}

  /** An invalidation can come at any time; what it names is then in neither tier. */
  lemma InvalidatedIsGone(c: Config, s: State, local: set<(Replica, Key)>, shared: set<Key>, r: Replica, key: Key)
    ensures Enabled(c, s, Invalidate(local, shared))
    ensures var t := Apply(c, s, Invalidate(local, shared));
            && (LocalHit(t, r, key) <==> LocalHit(s, r, key) && (r, key) !in local)
            && (SharedHit(t, key) <==> SharedHit(s, key) && key !in shared)
            && t.now == s.now && t.writes == s.writes && t.warms == s.warms
  {}

  lemma {:induction false} BoundedRun(c: Config, s: State, steps: seq<Step>, t: State)
    requires Bounded(c, s) && Run(c, s, steps, t)
    ensures Bounded(c, t)
    decreases |steps|
  {
    if steps != [] {
      BoundedStep(c, s, steps[0]);
      BoundedRun(c, Apply(c, s, steps[0]), steps[1..], t);
    }
  }

  /** Whatever the replicas do. */
  lemma ServedAgeBound(c: Config, steps: seq<Step>, s: State, step: Step)
    requires Run(c, Initial, steps, s) && Enabled(c, s, step) && ServedFrom(s, step).Some?
    ensures 0 <= s.now - ServedFrom(s, step).value <= Oldest(c)
  {
    BoundedRun(c, Initial, steps, s);
    if step.StoreWarm? { assert (step.r, step.warm) in s.warms; }
  }

  // ---------------------------------------------------------------- without Redis

  predicate UsesRedis(step: Step) { step.ReadShared? || step.StoreWarm? || step.WriteShared? }

  predicate LocalOnly(steps: seq<Step>) { forall i | 0 <= i < |steps| :: !UsesRedis(steps[i]) }

  ghost predicate LocalBounded(c: Config, s: State) {
    && s.warms == {} && s.shared == map[]
    && (forall k | k in s.local :: s.local[k].loadedAt <= s.now && s.local[k].expiresAt == s.local[k].loadedAt + c.ttl)
  }

  lemma {:induction false} LocalBoundedRun(c: Config, s: State, steps: seq<Step>, t: State)
    requires LocalBounded(c, s) && LocalOnly(steps) && Run(c, s, steps, t)
    ensures LocalBounded(c, t)
    decreases |steps|
  {
    if steps != [] {
      assert !UsesRedis(steps[0]);
      LocalBoundedRun(c, Apply(c, s, steps[0]), steps[1..], t);
    }
  }

  /** With Redis absent or lost from the start, a served value was loaded at most one time-to-live ago. */
  lemma LocalAgeBound(c: Config, steps: seq<Step>, s: State, step: Step)
    requires Run(c, Initial, steps, s) && LocalOnly(steps)
    requires Enabled(c, s, step) && !UsesRedis(step) && ServedFrom(s, step).Some?
    ensures 0 <= s.now - ServedFrom(s, step).value <= c.ttl
  {
    LocalBoundedRun(c, Initial, steps, s);
  }

  // ---------------------------------------------------------------- which ages occur

  lemma {:induction false} RunThen(c: Config, s: State, steps: seq<Step>, m: State, step: Step)
    requires Run(c, s, steps, m) && Enabled(c, m, step)
    ensures Run(c, s, steps + [step], Apply(c, m, step))
    decreases |steps|
  {
    if steps == [] {
      assert Run(c, Apply(c, s, step), [], Apply(c, m, step));
    } else {
      assert (steps + [step])[1..] == steps[1..] + [step];
      RunThen(c, Apply(c, s, steps[0]), steps[1..], m, step);
    }
  }

  /** A run of the system leads to a state in which memory answers with a value of that age. */
  ghost predicate HitOfAge(c: Config, age: int) {
    exists steps, s, r, key ::
      Run(c, Initial, steps, s) && LocalHit(s, r, key) && s.now - s.local[(r, key)].loadedAt == age
  }

  /** Replica 0 loads at time 0, and its SET lands at `written`. */
  lemma SharedCopy(c: Config, written: nat) returns (steps: seq<Step>, s: State)
    requires written <= c.writeLag
    ensures Run(c, Initial, steps, s) && s.now == written && s.shared == map["k" := Copy(0, written + c.ttl)]
    ensures s.local == map[(0, "k") := Copy(0, c.ttl)] && s.warms == {}
  {
    steps, s := [], Initial;
    RunThen(c, Initial, steps, s, LoadMiss(0, "k", true));
    steps, s := steps + [LoadMiss(0, "k", true)], Apply(c, s, LoadMiss(0, "k", true));
    RunThen(c, Initial, steps, s, Tick(written));
    steps, s := steps + [Tick(written)], Apply(c, s, Tick(written));
    RunThen(c, Initial, steps, s, WriteShared("k", 0));
    steps, s := steps + [WriteShared("k", 0)], Apply(c, s, WriteShared("k", 0));
  }

  /** Replica 1 reads that copy at `readAt` and stores it at `stored`. */
  lemma WarmedCopy(c: Config, written: nat, readAt: nat, stored: nat) returns (steps: seq<Step>, s: State)
    requires written <= c.writeLag && written <= readAt < written + c.ttl && readAt <= stored <= readAt + c.readLag
    ensures Run(c, Initial, steps, s) && s.now == stored
    ensures (1, "k") in s.local && s.local[(1, "k")] == Copy(0, stored + c.ttl)
  {
    var warm := Warm("k", 0, readAt);
    steps, s := SharedCopy(c, written);
    RunThen(c, Initial, steps, s, Tick(readAt - written));
    steps, s := steps + [Tick(readAt - written)], Apply(c, s, Tick(readAt - written));
    RunThen(c, Initial, steps, s, ReadShared(1, "k"));
    steps, s := steps + [ReadShared(1, "k")], Apply(c, s, ReadShared(1, "k"));
    RunThen(c, Initial, steps, s, Tick(stored - readAt));
    steps, s := steps + [Tick(stored - readAt)], Apply(c, s, Tick(stored - readAt));
    RunThen(c, Initial, steps, s, StoreWarm(1, warm));
    steps, s := steps + [StoreWarm(1, warm)], Apply(c, s, StoreWarm(1, warm));
  }

  lemma HitOccurs(c: Config, age: nat)
    requires age <= Oldest(c)
    ensures HitOfAge(c, age)
  {
    var steps, s, r, wait;
    if age <= c.ttl {
      steps, s := SharedCopy(c, 0);
      r, wait := 0, age;
    } else {
      var stored := age - c.ttl;
      var written := if stored <= c.writeLag then stored else c.writeLag;
      var readAt := if stored < written + c.ttl then stored else written + c.ttl - 1;
      steps, s := WarmedCopy(c, written, readAt, stored);
      r, wait := 1, c.ttl;
    }
    RunThen(c, Initial, steps, s, Tick(wait));
    assert LocalHit(Apply(c, s, Tick(wait)), r, "k");
  }

  /**
   * The ages at which memory can answer are exactly those up to `Oldest(c)`: with Redis, and even
   * without any lag, up to 2·ttl − 1, not only up to ttl.
   */
  lemma HitAgesAre(c: Config, age: int)
    ensures HitOfAge(c, age) <==> 0 <= age <= Oldest(c)
  {
    if 0 <= age <= Oldest(c) { HitOccurs(c, age); }
    if steps, s, r, key :|
        Run(c, Initial, steps, s) && LocalHit(s, r, key) && s.now - s.local[(r, key)].loadedAt == age {
      ServedAgeBound(c, steps, s, ServeLocal(r, key));
    }
  }

  // ---------------------------------------------------------------- when is one ttl enough?

  /** If nothing happens but time, everything memory answers with is at most one ttl old. */
  ghost predicate HitsWithinTtl(c: Config, s: State) {
    forall ms: nat, r, key ::
      LocalHit(Apply(c, s, Tick(ms)), r, key) ==> s.now + ms - s.local[(r, key)].loadedAt <= c.ttl
  }

  /** So it is at every point of the run, and what the steps of the run serve is no older either. */
  ghost predicate ServesWithinTtl(c: Config, s: State, steps: seq<Step>, t: State)
    requires Run(c, s, steps, t)
    decreases |steps|
  {
    && HitsWithinTtl(c, s)
    && (steps != [] ==>
          && (ServedFrom(s, steps[0]).Some? ==> s.now - ServedFrom(s, steps[0]).value <= c.ttl)
          && ServesWithinTtl(c, Apply(c, s, steps[0]), steps[1..], t))
  }

  /** No live copy outlives its load by more than one ttl. */
  ghost predicate NoneOutlives(c: Config, s: State) {
    forall k | k in s.local && s.now <= s.local[k].expiresAt :: s.local[k].expiresAt <= s.local[k].loadedAt + c.ttl
  }

  /** No step of the run warms memory with a value that was loaded earlier. */
  ghost predicate WarmsAtOnce(c: Config, s: State, steps: seq<Step>, t: State)
    requires Run(c, s, steps, t)
    decreases |steps|
  {
    steps != [] ==>
      && (steps[0].StoreWarm? ==> s.now <= steps[0].warm.loadedAt)
      && WarmsAtOnce(c, Apply(c, s, steps[0]), steps[1..], t)
  }

  lemma HitsWithinTtlIff(c: Config, s: State)
    ensures HitsWithinTtl(c, s) <==> NoneOutlives(c, s)
  {
    if k :| k in s.local && s.now <= s.local[k].expiresAt && s.local[k].expiresAt > s.local[k].loadedAt + c.ttl {
      assert LocalHit(Apply(c, s, Tick(s.local[k].expiresAt - s.now)), k.0, k.1);
    }
  }

  lemma NoneOutlivesStep(c: Config, s: State, step: Step)
    requires NoneOutlives(c, s) && Enabled(c, s, step)
    ensures NoneOutlives(c, Apply(c, s, step)) <==> (step.StoreWarm? ==> s.now <= step.warm.loadedAt)
    ensures NoneOutlives(c, Apply(c, s, step)) && ServedFrom(s, step).Some? ==>
              s.now - ServedFrom(s, step).value <= c.ttl
  {
    var t := Apply(c, s, step);
    if step.StoreWarm? { assert t.local[(step.r, step.warm.key)] == Copy(step.warm.loadedAt, s.now + c.ttl); }
  }

  /**
   * The exact condition, in every run, for serving nothing older than one ttl: nothing live outlives its
   * load by more at the start, and no replica warms its memory with a value loaded earlier.
   */
  lemma {:induction false} WithinTtlIff(c: Config, s: State, steps: seq<Step>, t: State)
    requires Run(c, s, steps, t)
    ensures ServesWithinTtl(c, s, steps, t) <==> NoneOutlives(c, s) && WarmsAtOnce(c, s, steps, t)
    decreases |steps|
  {
    HitsWithinTtlIff(c, s);
    if steps != [] && NoneOutlives(c, s) {
      NoneOutlivesStep(c, s, steps[0]);
      WithinTtlIff(c, Apply(c, s, steps[0]), steps[1..], t);
    }
  }

  /**
   * After a replica has warmed its memory, waiting yields a hit older than one ttl exactly when time
   * had passed since the load.
   */
  lemma WarmOutlivesIff(c: Config, s: State, r: Replica, warm: Warm)
    requires Enabled(c, s, StoreWarm(r, warm))
    ensures var t := Apply(c, s, StoreWarm(r, warm));
            (exists ms: nat :: LocalHit(Apply(c, t, Tick(ms)), r, warm.key) && t.now + ms - warm.loadedAt > c.ttl)
            <==> s.now > warm.loadedAt
  {
    var t := Apply(c, s, StoreWarm(r, warm));
    assert t.local[(r, warm.key)] == Copy(warm.loadedAt, s.now + c.ttl);
    if s.now > warm.loadedAt { assert LocalHit(Apply(c, t, Tick(c.ttl)), r, warm.key); }
  }

  // ---------------------------------------------------------------- the code of one read

  /** Every entry of the replica's memory, and of Redis, is a copy the state knows. */
  ghost predicate Holds(s: State, r: Replica, store: map<string, ReadCache.Entry>) {
    forall key | key in store :: (r, key) in s.local && s.local[(r, key)].expiresAt == store[key].expiresAt
  }

  ghost predicate HoldsShared(s: State, entries: map<string, ReadCache.Entry>) {
    forall key | key in entries :: key in s.shared && s.shared[key].expiresAt == entries[key].expiresAt
  }

  /** A hit in Redis, and the store of the warmed value if it can be printed again. */
  lemma WarmedRead(c: Config, s: State, r: Replica, key: Key, printed: bool) returns (steps: seq<Step>, t: State)
    requires SharedHit(s, key)
    ensures Run(c, s, steps, t) && steps != [] && steps[0] == ReadShared(r, key)
    ensures t == s.(local := t.local, warms := t.warms) && t.warms <= s.warms
    ensures t.local == if printed then s.local[(r, key) := Copy(s.shared[key].loadedAt, s.now + c.ttl)] else s.local
  {
    var warm := Warm(key, s.shared[key].loadedAt, s.now);
    var first, second := ReadShared(r, key), if printed then StoreWarm(r, warm) else Lose({}, {(r, warm)});
    var m := Apply(c, s, first);
    steps, t := [first], m;
    RunThen(c, s, [], s, first);
    assert [] + [first] == steps;
    RunThen(c, s, steps, m, second);
    steps, t := steps + [second], Apply(c, m, second);
  }

  /** A load, and the SET that shares it. */
  lemma LoadedRead(c: Config, s: State, r: Replica, key: Key, shareIt: bool) returns (steps: seq<Step>, t: State)
    ensures Run(c, s, steps, t) && steps != [] && steps[0] == LoadMiss(r, key, shareIt)
    ensures t == s.(local := t.local, shared := t.shared, writes := t.writes) && t.writes <= s.writes
    ensures t.local == s.local[(r, key) := Copy(s.now, s.now + c.ttl)]
    ensures t.shared == if shareIt then s.shared[key := Copy(s.now, s.now + c.ttl)] else s.shared
  {
    var first := LoadMiss(r, key, shareIt);
    var m := Apply(c, s, first);
    steps, t := [first], m;
    RunThen(c, s, [], s, first);
    assert [] + [first] == steps;
    if shareIt {
      RunThen(c, s, steps, m, WriteShared(key, s.now));
      steps, t := steps + [WriteShared(key, s.now)], Apply(c, m, WriteShared(key, s.now));
    }
  }

  /**
   * `cachedRead`, when nothing interrupts it, takes steps of this protocol: a hit in memory, a hit in
   * Redis that warms memory, or a load that is shared if Redis answers.
   */
  method UninterruptedRead<V>(c: Config, ghost s: State, ghost r: Replica, cache: ReadCache.Cache<V>,
                              codec: ReadCache.Codec<V>, key: string, loaded: Option<V>, now: int)
    returns (read: ReadCache.Read<V>, ghost steps: seq<Step>, ghost t: State)
    requires now == s.now && Holds(s, r, cache.store)
    requires cache.Client() != null ==> HoldsShared(s, cache.Client().entries)
    modifies cache`store, cache`redis, cache`redisUnavailable, cache.redis, cache.server
    ensures Run(c, s, steps, t) && t.now == s.now && t.warms <= s.warms && t.writes <= s.writes
    ensures Holds(t, r, cache.store)
    ensures old(cache.Client()) != null ==> HoldsShared(t, old(cache.Client()).entries)
    ensures read.Hit? ==> steps != [] && (steps[0] == ServeLocal(r, key) || steps[0] == ReadShared(r, key))
    ensures read.Miss? && codec.encode(read.value).Some? ==>
              steps != [] && steps[0] == LoadMiss(r, key, old(cache.Reaches()))
  {
    ghost var local := ReadCache.Decoded(codec, ReadCache.Lookup(cache.store, key, now));
    ghost var reached := cache.Reaches();
    read := cache.CachedRead(codec, key, loaded, c.ttl, now);
    steps, t := [], s;
    if read.Hit? && local.Some? {
      steps := [ServeLocal(r, key)];
      assert steps[1..] == [];
    } else if read.Hit? {
      steps, t := WarmedRead(c, s, r, key, codec.encode(read.value).Some?);
    } else if read.Miss? && codec.encode(read.value).Some? {
      steps, t := LoadedRead(c, s, r, key, reached);
    }
  }
}
