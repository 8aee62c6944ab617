/**
 * What `src/lib/api-cache.ts` promises a reader: with one process on L1, reads answer what the
 * loader would answer now, provided mutations invalidate what they change and no loader is in
 * flight across them.  Loads take time, so a read is two steps: the lookup that starts the loader,
 * and the write-back when it resolves.
 */
module CacheFreshness {
  import opened Text
  import opened ReadCache

  /** A loader that has read `value` and has not resolved yet. */
  datatype Load<V> = Load(key: string, value: V)

  datatype State<V> = State(
    now: int,
    store: map<string, Entry>,
    source: map<string, V>,              // what each key's loader would answer now
    loads: map<nat, Load<V>>)

  datatype Step<V> =
    | Tick(ms: nat)
    | StartRead(id: nat, key: string)      // serves a hit, or starts the loader
    | Resolve(id: nat, ttl: nat)         // the loader's value is cached and served
    | Fail(id: nat)                      // the loader throws: nothing is cached
    | Mutate(changes: map<string, V>, scope: Scope, subject: Option<string>)

  function Cached<V>(codec: Codec<V>, s: State<V>, key: string): Option<V> {
    Decoded(codec, ReadCache.Lookup(s.store, key, s.now))
  }

  predicate Enabled<V>(codec: Codec<V>, s: State<V>, step: Step<V>) {
    match step
    case Tick(_) => true
    case StartRead(id, key) => id !in s.loads && key in s.source
    case Resolve(id, _) => id in s.loads
    case Fail(id) => id in s.loads
    case Mutate(changes, scope, subject) => forall key | key in changes :: Targets(scope, subject, key)
  }

  function Store<V>(codec: Codec<V>, s: State<V>, key: string, value: V, ttl: nat): map<string, Entry> {
    var text := codec.encode(value);
    if text.Some? then s.store[key := Entry(text.value, s.now + ttl)] else s.store
  }

  function Apply<V>(codec: Codec<V>, s: State<V>, step: Step<V>): State<V>
    requires Enabled(codec, s, step)
  {
    match step
    case Tick(ms) => s.(now := s.now + ms)
    case StartRead(id, key) =>
      if Cached(codec, s, key).Some? then s
      else s.(store := Pruned(s.store, key, s.now), loads := s.loads[id := Load(key, s.source[key])])
    case Resolve(id, ttl) =>
      var load := s.loads[id];
      s.(store := Store(codec, s, load.key, load.value, ttl), loads := s.loads - {id})
    case Fail(id) => s.(loads := s.loads - {id})
    case Mutate(changes, scope, subject) =>
      s.(source := s.source + changes, store := Without(s.store, scope, subject))
  }

  /** The value a step serves, and for which key. */
  function Served<V>(codec: Codec<V>, s: State<V>, step: Step<V>): Option<(string, V)>
    requires Enabled(codec, s, step)
  {
    match step
    case StartRead(_, key) => if Cached(codec, s, key).Some? then Some((key, Cached(codec, s, key).value)) else None
    case Resolve(id, _) => Some((s.loads[id].key, s.loads[id].value))
    case _ => None
  }

  /** The guard: no loader in flight holds a value this mutation replaces. */
  ghost predicate Quiet<V>(s: State<V>, changes: map<string, V>) {
    forall id | id in s.loads && s.loads[id].key in changes :: changes[s.loads[id].key] == s.loads[id].value
  }

  /** Whatever `JSON.stringify` prints, `JSON.parse` reads back. */
  ghost predicate RoundTrips<V(!new)>(codec: Codec<V>) {
    forall v: V :: codec.encode(v).Some? ==> codec.decode(codec.encode(v).value) == Some(v)
  }

  ghost predicate Run<V>(codec: Codec<V>, s: State<V>, steps: seq<Step<V>>, t: State<V>)
    decreases |steps|
  {
    if steps == [] then s == t
    else
      && Enabled(codec, s, steps[0])
      && (steps[0].Mutate? ==> Quiet(s, steps[0].changes))
      && Run(codec, Apply(codec, s, steps[0]), steps[1..], t)
  }

  /** Everything cached or in flight is what the loader would answer now. */
  ghost predicate Fresh<V>(codec: Codec<V>, s: State<V>) {
    && (forall key | key in s.store ::
          && key in s.source
          && (codec.decode(s.store[key].value).Some? ==> codec.decode(s.store[key].value) == Some(s.source[key])))
    && (forall id | id in s.loads ::
          s.loads[id].key in s.source && s.loads[id].value == s.source[s.loads[id].key])
  }

  lemma FreshStep<V(!new)>(codec: Codec<V>, s: State<V>, step: Step<V>)
    requires RoundTrips(codec) && Fresh(codec, s) && Enabled(codec, s, step)
    requires step.Mutate? ==> Quiet(s, step.changes)
    ensures Fresh(codec, Apply(codec, s, step))
  {}

  lemma {:induction false} FreshRun<V(!new)>(codec: Codec<V>, s: State<V>, steps: seq<Step<V>>, t: State<V>)
    requires RoundTrips(codec) && Fresh(codec, s) && Run(codec, s, steps, t)
    ensures Fresh(codec, t)
    decreases |steps|
  {
    if steps != [] {
      FreshStep(codec, s, steps[0]);
      FreshRun(codec, Apply(codec, s, steps[0]), steps[1..], t);
    }
  }

  /**
   * Refinement: from an empty cache, after any run of overlapping reads, ticks, failures and quiet
   * mutations, a read serves what the loader would answer at that moment, hit or miss.
   */
  lemma ReadsAreCurrent<V(!new)>(codec: Codec<V>, source: map<string, V>, steps: seq<Step<V>>, s: State<V>,
                                 step: Step<V>)
    requires RoundTrips(codec) && Run(codec, State(0, map[], source, map[]), steps, s)
    requires Enabled(codec, s, step) && Served(codec, s, step).Some?
    ensures var (key, value) := Served(codec, s, step).value;
            key in s.source && value == s.source[key]
  {
    FreshRun(codec, State(0, map[], source, map[]), steps, s);
  }

  /** What a load has cached answers for exactly ttl milliseconds, when nothing else happens. */
  lemma CachedForItsTtl<V(!new)>(codec: Codec<V>, s: State<V>, id: nat, ttl: nat, ms: nat)
    requires RoundTrips(codec) && id in s.loads && codec.encode(s.loads[id].value).Some?
    ensures var t := Apply(codec, Apply(codec, s, Resolve(id, ttl)), Tick(ms));
            Cached(codec, t, s.loads[id].key) == if ms <= ttl then Some(s.loads[id].value) else None
  {}

  // ---------------------------------------------------------------- the code of one read

  /** A read that nothing interrupts: its lookup and, unless that is a hit, the end of its load. */
  function ReadSteps<V>(codec: Codec<V>, s: State<V>, id: nat, key: string, loads: bool, ttl: nat): seq<Step<V>> {
    if Cached(codec, s, key).Some? then [StartRead(id, key)]
    else [StartRead(id, key), if loads then Resolve(id, ttl) else Fail(id)]
  }

  ghost function AfterRead<V>(codec: Codec<V>, s: State<V>, id: nat, key: string, loads: bool, ttl: nat): (t: State<V>)
    requires Enabled(codec, s, StartRead(id, key))
    ensures Run(codec, s, ReadSteps(codec, s, id, key, loads, ttl), t)
  {
    var steps := ReadSteps(codec, s, id, key, loads, ttl);
    var started := Apply(codec, s, steps[0]);
    if |steps| == 1 then started
    else
      assert Run(codec, Apply(codec, started, steps[1]), [], Apply(codec, started, steps[1]));
      Apply(codec, started, steps[1])
  }

  /** `cachedRead` in a process without Redis takes these steps and returns what they serve. */
  method UninterruptedRead<V>(cache: Cache<V>, codec: Codec<V>, ghost s: State<V>, ghost id: nat, key: string,
                              loaded: Option<V>, ttl: nat, now: int) returns (read: Read<V>)
    requires !cache.Reaches() && cache.store == s.store && now == s.now
    requires Enabled(codec, s, StartRead(id, key)) && (loaded.Some? ==> loaded.value == s.source[key])
    modifies cache`store, cache`redis, cache`redisUnavailable, cache.redis, cache.server
    ensures var t := AfterRead(codec, s, id, key, loaded.Some?, ttl);
            cache.store == t.store && t.loads == s.loads && t.source == s.source
    ensures var first := StartRead(id, key);
            read == (if Served(codec, s, first).Some? then Hit(Served(codec, s, first).value.1)
                     else if loaded.None? then LoaderThrew
                     else Miss(Served(codec, Apply(codec, s, first), Resolve(id, ttl)).value.1))
  {
    read := cache.CachedRead(codec, key, loaded, ttl, now);
  }

  // ---------------------------------------------------------------- the guard is exact

  /** Every value served in a continuation whose mutations are quiet is what the loader would answer then. */
  ghost predicate ServesCurrent<V(!new)>(codec: Codec<V>, s: State<V>) {
    forall steps, t, step | Run(codec, s, steps, t) && Enabled(codec, t, step) && Served(codec, t, step).Some? ::
      var (key, value) := Served(codec, t, step).value; key in t.source && value == t.source[key]
  }

  /** A mutation leaves every reader served correctly if and only if it is quiet. */
  lemma ServesCurrentIffQuiet<V(!new)>(codec: Codec<V>, s: State<V>, mutation: Step<V>)
    requires RoundTrips(codec) && Fresh(codec, s) && mutation.Mutate? && Enabled(codec, s, mutation)
    ensures ServesCurrent(codec, Apply(codec, s, mutation)) <==> Quiet(s, mutation.changes)
  {
    var after := Apply(codec, s, mutation);
    if Quiet(s, mutation.changes) {
      FreshStep(codec, s, mutation);
      forall steps, t, step | Run(codec, after, steps, t) && Enabled(codec, t, step) && Served(codec, t, step).Some?
        ensures var (key, value) := Served(codec, t, step).value; key in t.source && value == t.source[key]
      {
        FreshRun(codec, after, steps, t);
      }
    } else {
      var id :| id in s.loads && s.loads[id].key in mutation.changes
                && mutation.changes[s.loads[id].key] != s.loads[id].value;
      var key := s.loads[id].key;
      assert after.loads[id] == s.loads[id] && after.source[key] == mutation.changes[key];
      assert Run(codec, after, [], after) && Enabled(codec, after, Resolve(id, 0));
      assert Served(codec, after, Resolve(id, 0)) == Some((key, s.loads[id].value));
    }
  }

  /** Every later cache hit, in such a continuation, is current. */
  ghost predicate HitsCurrent<V(!new)>(codec: Codec<V>, s: State<V>) {
    forall steps, t, key | Run(codec, s, steps, t) && key in t.source && Cached(codec, t, key).Some? ::
      Cached(codec, t, key) == Some(t.source[key])
  }

  /** No loader in flight will cache a value this mutation replaces. */
  ghost predicate WritesNothingStale<V>(codec: Codec<V>, s: State<V>, changes: map<string, V>) {
    forall id | id in s.loads && s.loads[id].key in changes && codec.encode(s.loads[id].value).Some? ::
      changes[s.loads[id].key] == s.loads[id].value
  }

  ghost predicate StoreFresh<V>(codec: Codec<V>, s: State<V>) {
    && (forall key | key in s.store ::
          && key in s.source
          && (codec.decode(s.store[key].value).Some? ==> codec.decode(s.store[key].value) == Some(s.source[key])))
    && (forall id | id in s.loads ::
          s.loads[id].key in s.source
          && (codec.encode(s.loads[id].value).Some? ==> s.loads[id].value == s.source[s.loads[id].key]))
  }

  lemma StoreFreshStep<V(!new)>(codec: Codec<V>, s: State<V>, step: Step<V>)
    requires RoundTrips(codec) && StoreFresh(codec, s) && Enabled(codec, s, step)
    requires step.Mutate? ==> WritesNothingStale(codec, s, step.changes)
    ensures StoreFresh(codec, Apply(codec, s, step))
  {}

  lemma {:induction false} StoreFreshRun<V(!new)>(codec: Codec<V>, s: State<V>, steps: seq<Step<V>>, t: State<V>)
    requires RoundTrips(codec) && StoreFresh(codec, s) && Run(codec, s, steps, t)
    ensures StoreFresh(codec, t)
    decreases |steps|
  {
    if steps != [] {
      StoreFreshStep(codec, s, steps[0]);
      StoreFreshRun(codec, Apply(codec, s, steps[0]), steps[1..], t);
    }
  }

  /** A load that resolves after the mutation puts its old value back, and the next read hits it. */
  lemma StaleWriteBack<V(!new)>(codec: Codec<V>, s: State<V>, id: nat)
    requires RoundTrips(codec) && id in s.loads && codec.encode(s.loads[id].value).Some?
    ensures var t := Apply(codec, s, Resolve(id, 0));
            && Run(codec, s, [Resolve(id, 0)], t)
            && t.source == s.source && Cached(codec, t, s.loads[id].key) == Some(s.loads[id].value)
  {
    var steps: seq<Step<V>> := [Resolve(id, 0)];
    assert steps[1..] == [];
    assert Run(codec, Apply(codec, s, steps[0]), steps[1..], Apply(codec, s, steps[0]));
  }

  /**
   * For readers who come after the mutation: no cache hit is ever stale, if and only if no loader in
   * flight will cache a value the mutation replaces.
   */
  lemma HitsCurrentIff<V(!new)>(codec: Codec<V>, s: State<V>, mutation: Step<V>)
    requires RoundTrips(codec) && Fresh(codec, s) && mutation.Mutate? && Enabled(codec, s, mutation)
    ensures HitsCurrent(codec, Apply(codec, s, mutation)) <==> WritesNothingStale(codec, s, mutation.changes)
  {
    var after := Apply(codec, s, mutation);
    if WritesNothingStale(codec, s, mutation.changes) {
      StoreFreshStep(codec, s, mutation);
      forall steps, t, key | Run(codec, after, steps, t) && key in t.source && Cached(codec, t, key).Some?
        ensures Cached(codec, t, key) == Some(t.source[key])
      {
        StoreFreshRun(codec, after, steps, t);
      }
    } else {
      var id :| id in s.loads && s.loads[id].key in mutation.changes && codec.encode(s.loads[id].value).Some?
                && mutation.changes[s.loads[id].key] != s.loads[id].value;
      assert after.loads[id] == s.loads[id] && after.source[s.loads[id].key] == mutation.changes[s.loads[id].key];
      StaleWriteBack(codec, after, id);
    }
  }
}
