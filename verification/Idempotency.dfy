/**
 * `withIdempotency` of `src/lib/api-route.ts` over the claim protocol of `src/lib/idempotency.ts`,
 * for the requests that share one `(userId, key)`.
 *
 * Each command a request sends to the broker is one atomic step, and steps of different requests
 * interleave freely:
 *
 *   probe    GET the remembered response; answer 409 with it when there is one
 *   acquire  SET the lock with NX and a 120 s expiry; answer 409 "in progress" when it is held
 *   handle   the route's handler returns or throws
 *   remember SET the response for 24 h (a 2xx with a JSON body only)
 *   release  delete the lock if it still carries this request's token
 *
 * Tokens are random UUIDs and are modelled by the identity of the request.
 */
module Idempotency {
  import opened Text

  type Id = nat

  const LOCK_TTL := 120
  const RESPONSE_TTL := 24 * 60 * 60

  datatype Response = Response(status: int, body: string)

  /** `Response.ok` */
  predicate Ok(r: Response) { 200 <= r.status <= 299 }

  /** How a handler run ends; `json` says whether the body can be read back as JSON. */
  datatype Outcome = Threw | Returned(response: Response, json: bool)

  datatype Reply = Replay(original: Response) | InProgress | Own(response: Response) | Thrown

  datatype Phase =
    | Fresh                              // not yet received
    | Probed                             // found no remembered response
    | Handling(leased: bool)             // the handler is running
    | Remembering(response: Response)    // about to store a 2xx
    | Releasing(reply: Reply)            // about to drop the lock
    | Done(reply: Reply)

  datatype Lock = Lock(token: Id, expires: nat)
  datatype Stored = Stored(response: Response, expires: nat)

  /** `leases` records, for every request that acquired the lock, when its lease ends. */
  datatype State = State(
    now: nat,
    lock: Option<Lock>,
    stored: Option<Stored>,
    phases: map<Id, Phase>,
    leases: map<Id, nat>)

  function PhaseOf(s: State, r: Id): Phase {
    if r in s.phases then s.phases[r] else Fresh
  }

  function Move(s: State, r: Id, p: Phase): State { s.(phases := s.phases[r := p]) }

  predicate LockHeld(s: State) { s.lock.Some? && s.now < s.lock.value.expires }

  predicate Remembered(s: State) { s.stored.Some? && s.now < s.stored.value.expires }

  // ---------------------------------------------------------------- steps

  datatype Step =
    | Tick(seconds: nat)
    | Probe(r: Id)
    | Acquire(r: Id)
    | Handle(r: Id, outcome: Outcome)
    | Remember(r: Id)
    | Release(r: Id)
    | BrokerFails(r: Id, applied: bool)   // a command of `r` errors; the broker may have applied it

  /** The phase a finished handler run leads to. */
  function AfterHandler(leased: bool, outcome: Outcome): Phase {
    match outcome
    case Threw => if leased then Releasing(Thrown) else Done(Thrown)
    case Returned(response, json) =>
      if !leased then Done(Own(response))
      else if !Ok(response) || !json then Releasing(Own(response))
      else Remembering(response)
  }

  function SetLock(s: State, r: Id): State {
    s.(lock := Some(Lock(r, s.now + LOCK_TTL)), leases := s.leases[r := s.now + LOCK_TTL])
  }

  function SetStored(s: State, response: Response): State {
    s.(stored := Some(Stored(response, s.now + RESPONSE_TTL)))
  }

  /** Compare-and-delete: a lock that expired or belongs to another request is left alone. */
  function DropLock(s: State, r: Id): State {
    if LockHeld(s) && s.lock.value.token == r then s.(lock := None) else s
  }

  predicate Enabled(s: State, step: Step) {
    match step
    case Tick(_) => true
    case Probe(r) => PhaseOf(s, r).Fresh?
    case Acquire(r) => PhaseOf(s, r).Probed?
    case Handle(r, _) => PhaseOf(s, r).Handling?
    case Remember(r) => PhaseOf(s, r).Remembering?
    case Release(r) => PhaseOf(s, r).Releasing?
    case BrokerFails(r, _) => !PhaseOf(s, r).Handling? && !PhaseOf(s, r).Done?
  }

  function Apply(s: State, step: Step): State
    requires Enabled(s, step)
  {
    match step
    case Tick(seconds) => s.(now := s.now + seconds)
    case Probe(r) =>
      if Remembered(s) then Move(s, r, Done(Replay(s.stored.value.response))) else Move(s, r, Probed)
    case Acquire(r) =>
      if LockHeld(s) then Move(s, r, Done(InProgress)) else Move(SetLock(s, r), r, Handling(true))
    case Handle(r, outcome) => Move(s, r, AfterHandler(PhaseOf(s, r).leased, outcome))
    case Remember(r) =>
      var response := PhaseOf(s, r).response;
      Move(SetStored(s, response), r, Releasing(Own(response)))
    case Release(r) => Move(DropLock(s, r), r, Done(PhaseOf(s, r).reply))
    case BrokerFails(r, applied) =>
      match PhaseOf(s, r) {
        // While claiming, an error degrades the claim to `unavailable`: the handler runs unleased.
        case Fresh => Move(s, r, Handling(false))
        case Probed =>
          Move(if applied && !LockHeld(s) then SetLock(s, r) else s, r, Handling(false))
        // Afterwards the client is gone for good, so the remaining commands are skipped.
        case Remembering(response) =>
          Move(if applied then SetStored(s, response) else s, r, Done(Own(response)))
        case Releasing(reply) => Move(if applied then DropLock(s, r) else s, r, Done(reply))
        case _ => s
      }
  }

  const Initial := State(0, None, None, map[], map[])

  ghost predicate Run(s: State, steps: seq<Step>, t: State)
    decreases |steps|
  {
    if steps == [] then s == t
    else Enabled(s, steps[0]) && Run(Apply(s, steps[0]), steps[1..], t)
  }

  // ---------------------------------------------------------------- mutual exclusion

  /** `r` acquired the lock and has not yet dropped it. */
  predicate Active(s: State, r: Id) {
    var p := PhaseOf(s, r);
    p == Handling(true) || p.Remembering? || p.Releasing?
  }

  predicate LeaseLive(s: State, r: Id) { r in s.leases && s.now < s.leases[r] }

  /**
   * Every active request owns the lock until its lease ends, whatever else happened, broker errors
   * included; and no lock outlives its 120 seconds.
   */
  ghost predicate LeaseInvariant(s: State) {
    && (forall r :: Active(s, r) ==>
          && r in s.leases
          && (s.lock == Some(Lock(r, s.leases[r])) || s.leases[r] <= s.now))
    && (s.lock.Some? ==> s.lock.value.expires <= s.now + LOCK_TTL)
    && (s.lock.Some? ==> PhaseOf(s, s.lock.value.token) !in {Fresh, Probed})
  }

  lemma LeaseInvariantStep(s: State, step: Step)
    requires LeaseInvariant(s) && Enabled(s, step)
    ensures LeaseInvariant(Apply(s, step))
  {
    var t := Apply(s, step);
    forall r | Active(t, r)
      ensures r in t.leases && (t.lock == Some(Lock(r, t.leases[r])) || t.leases[r] <= t.now)
    {
      if !Active(s, r) {
        assert step == Acquire(r);
      }
    }
  }

  lemma {:induction false} LeaseInvariantRun(s: State, steps: seq<Step>, t: State)
    requires LeaseInvariant(s) && Run(s, steps, t)
    ensures LeaseInvariant(t)
    decreases |steps|
  {
    if steps != [] {
      LeaseInvariantStep(s, steps[0]);
      LeaseInvariantRun(Apply(s, steps[0]), steps[1..], t);
    }
  }

  /**
   * Over every interleaving, broker errors included: two leased handler runs overlap only after a
   * lease has run out.
   */
  lemma LeasedRunsOverlapOnlyAfterExpiry(steps: seq<Step>, s: State, p: Id, q: Id)
    requires Run(Initial, steps, s)
    requires p != q && Active(s, p) && Active(s, q)
    ensures p in s.leases && q in s.leases && (s.leases[p] <= s.now || s.leases[q] <= s.now)
  {
    LeaseInvariantRun(Initial, steps, s);
  }

  /** A throw or a non-2xx frees the key at once: the next acquire in a later state wins. */
  lemma FailureFreesTheKey(steps: seq<Step>, s: State, r: Id, outcome: Outcome, next: Id)
    requires Run(Initial, steps, s) && PhaseOf(s, r) == Handling(true) && LeaseLive(s, r)
    requires outcome.Threw? || !Ok(outcome.response) || !outcome.json
    requires PhaseOf(s, next).Probed?
    ensures var t := Apply(Apply(s, Handle(r, outcome)), Release(r));
            && t.lock.None? && t.stored == s.stored
            && PhaseOf(Apply(t, Acquire(next)), next) == Handling(true)
  {
    LeaseInvariantRun(Initial, steps, s);
  }

  /** Even if the release is lost, the key is free again after 120 seconds. */
  lemma LockFreesItself(steps: seq<Step>, s: State, wait: nat)
    requires Run(Initial, steps, s) && wait >= LOCK_TTL
    ensures !LockHeld(Apply(s, Tick(wait)))
  {
    LeaseInvariantRun(Initial, steps, s);
  }

  // ---------------------------------------------------------------- at most once

  /** The handler of `r` returned a 2xx. */
  predicate Committed(s: State, r: Id) {
    match PhaseOf(s, r)
    case Remembering(_) => true
    case Releasing(reply) => reply.Own? && Ok(reply.response)
    case Done(reply) => reply.Own? && Ok(reply.response)
    case _ => false
  }

  /** Every lease outlasts the work done under it. */
  ghost predicate LeasesOutlast(s: State) { forall r :: Active(s, r) ==> LeaseLive(s, r) }

  /** A run without broker errors in which leases outlast handlers. */
  ghost predicate Orderly(s: State, steps: seq<Step>, t: State)
    decreases |steps|
  {
    if steps == [] then s == t
    else
      && Enabled(s, steps[0])
      && !steps[0].BrokerFails?
      && LeasesOutlast(Apply(s, steps[0]))
      && Orderly(Apply(s, steps[0]), steps[1..], t)
  }

  /** An orderly run that stays within the lifetime of the remembered response. */
  ghost predicate WithinTtl(s: State, steps: seq<Step>, t: State)
    decreases |steps|
  {
    Remembered(s) &&
    if steps == [] then s == t
    else
      && Enabled(s, steps[0])
      && !steps[0].BrokerFails?
      && LeasesOutlast(Apply(s, steps[0]))
      && WithinTtl(Apply(s, steps[0]), steps[1..], t)
  }

  /** What orderly runs keep: one lease holder at most, and every handler runs under a lease. */
  ghost predicate OrderlyInvariant(s: State) {
    && LeaseInvariant(s)
    && LeasesOutlast(s)
    && (forall r :: PhaseOf(s, r) != Handling(false) && (PhaseOf(s, r).Remembering? ==> Ok(PhaseOf(s, r).response)))
  }

  lemma OrderlyInvariantStep(s: State, step: Step)
    requires OrderlyInvariant(s) && Enabled(s, step) && !step.BrokerFails?
    requires LeasesOutlast(Apply(s, step))
    ensures OrderlyInvariant(Apply(s, step))
  {
    LeaseInvariantStep(s, step);
    forall r
      ensures var p := PhaseOf(Apply(s, step), r); p != Handling(false) && (p.Remembering? ==> Ok(p.response))
    {
      assert PhaseOf(s, r) != Handling(false);
    }
  }

  lemma {:induction false} OrderlyInvariantRun(s: State, steps: seq<Step>, t: State)
    requires OrderlyInvariant(s) && Orderly(s, steps, t)
    ensures OrderlyInvariant(t)
    decreases |steps|
  {
    if steps != [] {
      OrderlyInvariantStep(s, steps[0]);
      OrderlyInvariantRun(Apply(s, steps[0]), steps[1..], t);
    }
  }

  /** Over every orderly run no two requests are active at once. */
  lemma OneActiveRequest(steps: seq<Step>, s: State, p: Id, q: Id)
    requires Orderly(Initial, steps, s) && Active(s, p) && Active(s, q)
    ensures p == q
  {
    OrderlyInvariantRun(Initial, steps, s);
  }

  /** `s` is the state in which `a` has just stored its response, at the end of an orderly run. */
  ghost predicate JustRemembered(s: State, a: Id) {
    exists steps, before ::
      && Orderly(Initial, steps, before)
      && Enabled(before, Remember(a))
      && s == Apply(before, Remember(a))
  }

  lemma JustRememberedFacts(s: State, a: Id)
    requires JustRemembered(s, a)
    ensures OrderlyInvariant(s) && Remembered(s)
    ensures PhaseOf(s, a) == Releasing(Own(s.stored.value.response)) && Ok(s.stored.value.response)
    ensures forall r | r != a :: !Active(s, r)
  {
    var steps, before :|
      Orderly(Initial, steps, before) && Enabled(before, Remember(a)) && s == Apply(before, Remember(a));
    OrderlyInvariantRun(Initial, steps, before);
    forall r ensures Active(s, r) <==> Active(before, r) {
      assert r != a ==> PhaseOf(s, r) == PhaseOf(before, r);
    }
    forall r | Active(s, r) ensures LeaseLive(s, r) {
      assert LeaseLive(before, r);
    }
    OrderlyInvariantStep(before, Remember(a));
    assert Active(s, a);
  }

  /** No request sits between its probe and its lock. */
  ghost predicate NoneProbed(s: State) { forall r :: !PhaseOf(s, r).Probed? }

  /** The state of affairs once the first success is remembered: nothing runs, nothing can start. */
  ghost predicate Settled(s: State, origin: State) {
    && s.stored == origin.stored && origin.stored.Some?
    && forall r ::
      && !PhaseOf(s, r).Probed? && !PhaseOf(s, r).Handling? && !PhaseOf(s, r).Remembering?
      && (Committed(s, r) <==> Committed(origin, r))
      && (PhaseOf(origin, r).Fresh? ==> PhaseOf(s, r) in {Fresh, Done(Replay(origin.stored.value.response))})
  }

  lemma SettledStep(origin: State, s: State, step: Step)
    requires Settled(s, origin) && Remembered(s) && Enabled(s, step) && !step.BrokerFails?
    ensures Settled(Apply(s, step), origin)
  {
    var t := Apply(s, step);
    forall r
      ensures !PhaseOf(t, r).Probed? && !PhaseOf(t, r).Handling? && !PhaseOf(t, r).Remembering?
      ensures Committed(t, r) <==> Committed(origin, r)
      ensures PhaseOf(origin, r).Fresh? ==> PhaseOf(t, r) in {Fresh, Done(Replay(origin.stored.value.response))}
    {
      assert Committed(s, r) <==> Committed(origin, r);
    }
  }

  lemma {:induction false} SettledRun(origin: State, s: State, steps: seq<Step>, t: State)
    requires Settled(s, origin) && WithinTtl(s, steps, t)
    ensures Settled(t, origin)
    decreases |steps|
  {
    if steps != [] {
      SettledStep(origin, s, steps[0]);
      SettledRun(origin, Apply(s, steps[0]), steps[1..], t);
    }
  }

  /**
   * After a remembered success that finds no request between its probe and its lock: as long as
   * the response lives, no handler starts or commits again, the remembered body never changes, and
   * every later request is answered 409 with exactly that body.
   */
  lemma NothingRunsAfterRemember(s: State, a: Id, steps: seq<Step>, t: State)
    requires JustRemembered(s, a) && NoneProbed(s) && WithinTtl(s, steps, t)
    ensures t.stored == s.stored
    ensures forall r :: !PhaseOf(t, r).Handling? && (Committed(t, r) <==> Committed(s, r))
    ensures forall r | PhaseOf(s, r).Fresh? ::
              PhaseOf(t, r) in {Fresh, Done(Replay(s.stored.value.response))}
  {
    JustRememberedFacts(s, a);
    forall r ensures !PhaseOf(s, r).Handling? && !PhaseOf(s, r).Remembering? {
      assert PhaseOf(s, r) != Handling(false);
      assert r != a ==> !Active(s, r);
    }
    SettledRun(s, s, steps, t);
  }

  /** The four steps by which a request that probed too early repeats the mutation. */
  function Repeat(a: Id, r: Id, again: Response): seq<Step> {
    [Release(a), Acquire(r), Handle(r, Returned(again, true)), Remember(r)]
  }

  /**
   * The documented "at most once" does not hold of the code: a request that probed before the
   * response was stored, and locks after the lock is dropped, runs the handler again and replaces
   * the remembered body.
   */
  lemma StaleProbeRunsAgain(s: State, a: Id, r: Id, again: Response)
    requires JustRemembered(s, a) && PhaseOf(s, r).Probed? && Ok(again)
    ensures exists t ::
              && WithinTtl(s, Repeat(a, r, again), t)
              && Committed(t, a) && Committed(t, r) && a != r
              && t.stored.Some? && t.stored.value.response == again
  {
    var s1, s2 := StaleProbeAcquires(s, a, r);
    var steps := Repeat(a, r, again);
    var s3 := Apply(s2, steps[2]);
    var s4 := Apply(s3, steps[3]);
    forall q | Active(s3, q) ensures LeaseLive(s3, q) { assert Active(s2, q) && LeaseLive(s2, q); }
    forall q | Active(s4, q) ensures LeaseLive(s4, q) { assert Active(s2, q) && LeaseLive(s2, q); }
    assert steps[3..][1..] == [];
    assert WithinTtl(s3, steps[3..], s4);
    assert steps[2..][1..] == steps[3..];
    assert WithinTtl(s2, steps[2..], s4);
    assert steps[1..][1..] == steps[2..];
    assert WithinTtl(s1, steps[1..], s4);
    assert WithinTtl(s, steps, s4);
    assert PhaseOf(s4, a) == Done(Own(s.stored.value.response));
  }

  /** The rememberer drops the lock, and a request that had already probed takes it. */
  lemma StaleProbeAcquires(s: State, a: Id, r: Id) returns (s1: State, s2: State)
    requires JustRemembered(s, a) && PhaseOf(s, r).Probed?
    ensures Enabled(s, Release(a)) && s1 == Apply(s, Release(a)) && LeasesOutlast(s1)
    ensures Enabled(s1, Acquire(r)) && s2 == Apply(s1, Acquire(r)) && LeasesOutlast(s2)
    ensures Remembered(s) && s1.stored == s2.stored == s.stored && s1.now == s2.now == s.now
    ensures PhaseOf(s2, r) == Handling(true) && a != r
    ensures PhaseOf(s2, a) == Done(Own(s.stored.value.response)) && Ok(s.stored.value.response)
  {
    JustRememberedFacts(s, a);
    assert Active(s, a) && LeaseLive(s, a);
    s1 := Apply(s, Release(a));
    assert s1.lock.None?;
    s2 := Apply(s1, Acquire(r));
    forall q ensures !Active(s1, q) && (Active(s2, q) <==> q == r) {
      assert q != a ==> !Active(s, q);
    }
  }

  ghost predicate CanRunAgain(s: State) {
    exists steps, t, r :: WithinTtl(s, steps, t) && PhaseOf(t, r).Handling?
  }

  /**
   * The exact condition: after a remembered success the handler can run again within the lifetime
   * of the response if and only if some request is, at that moment, past its probe and not yet at
   * its lock.
   */
  lemma RunsAgainIffProbed(s: State, a: Id)
    requires JustRemembered(s, a)
    ensures CanRunAgain(s) <==> !NoneProbed(s)
  {
    JustRememberedFacts(s, a);
    if NoneProbed(s) {
      forall steps, t, r | WithinTtl(s, steps, t) ensures !PhaseOf(t, r).Handling? {
        NothingRunsAfterRemember(s, a, steps, t);
      }
    } else {
      var r :| PhaseOf(s, r).Probed?;
      var s1, s2 := StaleProbeAcquires(s, a, r);
      var steps := [Release(a), Acquire(r)];
      assert steps[1..][1..] == [];
      assert WithinTtl(s1, steps[1..], s2);
      assert WithinTtl(s, steps, s2);
    }
  }

  /** Only requests with a number below `n` are received. */
  predicate ProbesBelow(steps: seq<Step>, n: nat) { forall i :: 0 <= i < |steps| && steps[i].Probe? ==> steps[i].r < n }

  lemma ProbesBelowConcat(u: seq<Step>, v: seq<Step>, n: nat)
    requires ProbesBelow(u, n) && ProbesBelow(v, n)
    ensures ProbesBelow(u + v, n)
  {}

  /** The failing interleaving from the empty broker: one key, two committed mutations. */
  lemma TwoCommitsWithOneKey(first: Response, second: Response)
    requires Ok(first) && Ok(second)
    ensures exists steps, t ::
              && Orderly(Initial, steps, t) && ProbesBelow(steps, 2)
              && Committed(t, 0) && Committed(t, 1)
              && t.stored.Some? && t.stored.value.response == second
  {
    var steps, before := EarlyProbe(first);
    var s := Apply(before, Remember(0));
    assert JustRemembered(s, 0);
    JustRememberedFacts(s, 0);
    StaleProbeRunsAgain(s, 0, 1, second);
    var t :| WithinTtl(s, Repeat(0, 1, second), t) && Committed(t, 0) && Committed(t, 1)
             && t.stored.Some? && t.stored.value.response == second;
    WithinTtlIsOrderly(s, Repeat(0, 1, second), t);
    var rest := [Remember(0)] + Repeat(0, 1, second);
    assert rest[1..] == Repeat(0, 1, second);
    assert Orderly(before, rest, t);
    OrderlyConcat(Initial, steps, before, rest, t);
    ProbesBelowConcat(steps, rest, 2);
  }

  /** Two requests probe before either has an answer; the first runs its handler. */
  lemma EarlyProbe(first: Response) returns (steps: seq<Step>, s: State)
    requires Ok(first)
    ensures Orderly(Initial, steps, s) && PhaseOf(s, 0) == Remembering(first) && PhaseOf(s, 1) == Probed
    ensures ProbesBelow(steps, 2)
  {
    var outcome := Returned(first, true);
    steps := [Probe(0), Probe(1), Acquire(0), Handle(0, outcome)];
    var s1 := State(0, None, None, map[0 := Probed], map[]);
    var s2 := s1.(phases := map[0 := Probed, 1 := Probed]);
    var s3 := State(0, Some(Lock(0, 120)), None, map[0 := Handling(true), 1 := Probed], map[0 := 120]);
    s := s3.(phases := map[0 := Remembering(first), 1 := Probed]);
    assert Apply(Initial, Probe(0)) == s1;
    assert Apply(s1, Probe(1)) == s2;
    assert Apply(s2, Acquire(0)) == s3;
    assert Apply(s3, Handle(0, outcome)) == s;
    OrderlyFour(Initial, steps, s1, s2, s3, s);
  }

  lemma {:induction false} WithinTtlIsOrderly(s: State, steps: seq<Step>, t: State)
    requires WithinTtl(s, steps, t)
    ensures Orderly(s, steps, t)
    decreases |steps|
  {
    if steps != [] { WithinTtlIsOrderly(Apply(s, steps[0]), steps[1..], t); }
  }

  lemma OrderlyFour(s: State, steps: seq<Step>, s1: State, s2: State, s3: State, s4: State)
    requires |steps| == 4 && forall i :: 0 <= i < 4 ==> !steps[i].BrokerFails?
    requires Enabled(s, steps[0]) && s1 == Apply(s, steps[0]) && LeasesOutlast(s1)
    requires Enabled(s1, steps[1]) && s2 == Apply(s1, steps[1]) && LeasesOutlast(s2)
    requires Enabled(s2, steps[2]) && s3 == Apply(s2, steps[2]) && LeasesOutlast(s3)
    requires Enabled(s3, steps[3]) && s4 == Apply(s3, steps[3]) && LeasesOutlast(s4)
    ensures Orderly(s, steps, s4)
  {
    assert steps[3..][1..] == [];
    assert Orderly(s3, steps[3..], s4);
    assert steps[2..][1..] == steps[3..];
    assert Orderly(s2, steps[2..], s4);
    assert steps[1..][1..] == steps[2..];
    assert Orderly(s1, steps[1..], s4);
  }

  lemma {:induction false} OrderlyConcat(s: State, u: seq<Step>, m: State, v: seq<Step>, t: State)
    requires Orderly(s, u, m) && Orderly(m, v, t)
    ensures Orderly(s, u + v, t)
    decreases |u|
  {
    if u == [] {
      assert u + v == v;
    } else {
      assert (u + v)[0] == u[0] && (u + v)[1..] == u[1..] + v;
      OrderlyConcat(Apply(s, u[0]), u[1..], m, v, t);
    }
  }

  // ---------------------------------------------------------------- retrying one request at a time

  /**
   * A client that resends only after it has an answer: no request is received while another is in
   * progress, and, once a success is remembered, within its lifetime.  Successes have JSON bodies.
   */
  ghost predicate Serial(s: State, steps: seq<Step>, t: State)
    decreases |steps|
  {
    if steps == [] then s == t
    else
      && Enabled(s, steps[0])
      && !steps[0].BrokerFails?
      && (steps[0].Probe? ==>
            && (forall r :: Idle(s, r))
            && (s.stored.Some? ==> Remembered(s)))
      && (steps[0].Handle? && steps[0].outcome.Returned? ==> steps[0].outcome.json)
      && Serial(Apply(s, steps[0]), steps[1..], t)
  }

  predicate Idle(s: State, r: Id) { PhaseOf(s, r).Fresh? || PhaseOf(s, r).Done? }

  ghost predicate SerialInvariant(s: State) {
    && (forall p, q :: Idle(s, p) || Idle(s, q) || p == q)
    && (forall p, q :: Committed(s, p) && p != q ==> Idle(s, q) && !Committed(s, q))
    && (forall p :: Committed(s, p) && !PhaseOf(s, p).Remembering? ==> s.stored.Some?)
    && (forall p :: PhaseOf(s, p) != Handling(false))
  }

  lemma SerialInvariantStep(s: State, step: Step)
    requires SerialInvariant(s) && Enabled(s, step) && !step.BrokerFails?
    requires step.Probe? ==> (forall r :: Idle(s, r)) && (s.stored.Some? ==> Remembered(s))
    requires step.Handle? && step.outcome.Returned? ==> step.outcome.json
    ensures SerialInvariant(Apply(s, step))
  {
    var t := Apply(s, step);
    if step.Tick? {
      assert forall r ::
          PhaseOf(t, r) == PhaseOf(s, r) && Idle(t, r) == Idle(s, r) && Committed(t, r) == Committed(s, r);
    } else {
      var r := step.r;
      assert PhaseOf(s, r) != Handling(false);
      assert forall q | q != r ::
          PhaseOf(t, q) == PhaseOf(s, q) && Idle(t, q) == Idle(s, q) && Committed(t, q) == Committed(s, q);
      if !step.Probe? {
        assert !Idle(s, r);
        assert forall q | q != r :: Idle(s, q) && (Committed(s, q) ==> Idle(s, r));
        assert forall q | q != r :: Idle(t, q) && !Committed(t, q);
      } else {
        assert forall q :: Idle(s, q) && (Committed(s, q) ==> Remembered(s));
      }
    }
  }

  lemma {:induction false} SerialInvariantRun(s: State, steps: seq<Step>, t: State)
    requires SerialInvariant(s) && Serial(s, steps, t)
    ensures SerialInvariant(t)
    decreases |steps|
  {
    if steps != [] {
      SerialInvariantStep(s, steps[0]);
      SerialInvariantRun(Apply(s, steps[0]), steps[1..], t);
    }
  }

  /** Retrying one request at a time commits at most once per key, however often the client retries. */
  lemma SerialRetriesCommitOnce(steps: seq<Step>, t: State, p: Id, q: Id)
    requires Serial(Initial, steps, t) && Committed(t, p) && Committed(t, q)
    ensures p == q
  {
    SerialInvariantRun(Initial, steps, t);
  }

  // ---------------------------------------------------------------- without the broker

  /**
   * In every state: a request whose claim meets an error runs its handler, and the caller gets what the
   * handler answers; nothing is stored for it, and the claim is answered neither by a replay nor as in
   * progress.
   */
  lemma HandlerRunsWithoutBroker(s: State, r: Id, applied: bool, outcome: Outcome)
    requires PhaseOf(s, r).Fresh? || PhaseOf(s, r).Probed?
    ensures var t := Apply(s, BrokerFails(r, applied));
            && Enabled(t, Handle(r, outcome)) && t.stored == s.stored
            && var u := Apply(t, Handle(r, outcome));
               && u.stored == s.stored && u.lock == t.lock
               && (outcome.Threw? ==> PhaseOf(u, r) == Done(Thrown))
               && (outcome.Returned? ==> PhaseOf(u, r) == Done(Own(outcome.response)))
    ensures forall q | q != r :: PhaseOf(Apply(s, BrokerFails(r, applied)), q) == PhaseOf(s, q)
  {}

  /** Once the handler has run, an error of the broker no longer changes what the caller gets. */
  lemma ReplySurvivesBroker(s: State, r: Id, applied: bool)
    requires PhaseOf(s, r).Remembering? || PhaseOf(s, r).Releasing?
    ensures var reply := if PhaseOf(s, r).Remembering? then Own(PhaseOf(s, r).response) else PhaseOf(s, r).reply;
            PhaseOf(Apply(s, BrokerFails(r, applied)), r) == Done(reply)
    ensures var t := Apply(s, BrokerFails(r, applied));
            && (!applied ==> t.stored == s.stored && t.lock == s.lock)
            && (applied && PhaseOf(s, r).Remembering? ==>
                  t.stored == Some(Stored(PhaseOf(s, r).response, s.now + 86_400)) && t.lock == s.lock)
            && (applied && PhaseOf(s, r).Releasing? ==>
                  t.stored == s.stored && (t.lock.Some? && s.now < t.lock.value.expires ==> t.lock.value.token != r))
  {}

  // ---------------------------------------------------------------- the code of one request

  /** How one command ends; one that errors may have been applied all the same. */
  datatype Fate = Answers | Errors(applied: bool)

  datatype Answer<T> = Got(value: T) | Failed

  /** The fate of the `k`th command of a request; beyond the list, commands are answered. */
  function At(fates: seq<Fate>, k: nat): Fate { if k < |fates| then fates[k] else Answers }

  /** The two entries the broker holds for the key, changed by one command at a time. */
  class Broker {
    var now: nat
    var lock: Option<Lock>
    var stored: Option<Stored>

    function View(): State
      reads this
    {
      State(now, lock, stored, map[], map[])
    }

    method Get(fate: Fate) returns (hit: Answer<Option<Response>>)
      ensures hit == if fate.Errors? then Failed
                     else Got(if Remembered(View()) then Some(stored.value.response) else None)
    {
      if fate.Errors? { return Failed; }
      if stored.Some? && now < stored.value.expires { return Got(Some(stored.value.response)); }
      return Got(None);
    }

    method SetNx(token: Id, fate: Fate) returns (ok: Answer<bool>)
      modifies this`lock
      ensures ok == if fate.Errors? then Failed else Got(!old(LockHeld(View())))
      ensures lock == if old(LockHeld(View())) || fate == Errors(false) then old(lock)
                      else Some(Lock(token, now + LOCK_TTL))
    {
      var free := lock.None? || lock.value.expires <= now;
      if free && fate != Errors(false) { lock := Some(Lock(token, now + LOCK_TTL)); }
      return if fate.Errors? then Failed else Got(free);
    }

    method Set(response: Response, fate: Fate) returns (ok: bool)
      modifies this`stored
      ensures ok == fate.Answers?
      ensures stored == if fate == Errors(false) then old(stored) else Some(Stored(response, now + RESPONSE_TTL))
    {
      if fate != Errors(false) { stored := Some(Stored(response, now + RESPONSE_TTL)); }
      return fate.Answers?;
    }

    /** The release script. */
    method DeleteIfOwned(token: Id, fate: Fate)
      modifies this`lock
      ensures lock == if fate == Errors(false) then old(lock) else old(DropLock(View(), token).lock)
    {
      if fate == Errors(false) { return; }
      if lock.Some? && now < lock.value.expires && lock.value.token == token { lock := None; }
    }
  }

  /** One command of a request, or its failure. */
  function Command(s: State, step: Step, fate: Fate): State
    requires Enabled(s, step) && (step.Probe? || step.Acquire? || step.Remember? || step.Release?)
  {
    if fate.Errors? then Apply(s, BrokerFails(step.r, fate.applied)) else Apply(s, step)
  }

  /** The claim of one request that nothing interrupts. */
  function AfterClaim(s: State, r: Id, fates: seq<Fate>): (t: State)
    requires PhaseOf(s, r).Fresh?
    ensures PhaseOf(t, r).Done? || PhaseOf(t, r).Handling?
  {
    var t := Command(s, Probe(r), At(fates, 0));
    if PhaseOf(t, r).Probed? then Command(t, Acquire(r), At(fates, 1)) else t
  }

  /** The rest of it, from the handler on. */
  function AfterWork(s: State, r: Id, outcome: Outcome, fates: seq<Fate>): (t: State)
    requires PhaseOf(s, r).Handling?
    ensures PhaseOf(t, r).Done?
  {
    var t := Apply(s, Handle(r, outcome));
    if PhaseOf(t, r).Remembering? then
      var u := Command(t, Remember(r), At(fates, 2));
      if PhaseOf(u, r).Done? then u else Command(u, Release(r), At(fates, 3))
    else if PhaseOf(t, r).Releasing? then Command(t, Release(r), At(fates, 2))
    else t
  }

  /** The protocol's steps for one request that nothing interrupts, ending in its reply. */
  function Uninterrupted(s: State, r: Id, outcome: Outcome, fates: seq<Fate>): (t: State)
    requires PhaseOf(s, r).Fresh?
    ensures PhaseOf(t, r).Done?
  {
    var t := AfterClaim(s, r, fates);
    if PhaseOf(t, r).Done? then t else AfterWork(t, r, outcome, fates)
  }

  /** `IdempotencyClaim` */
  datatype Claim = Acquired | ToReplay(response: Response) | InFlight | Unavailable

  /** The phase a claim leaves its request in. */
  function ClaimPhase(claim: Claim): Phase {
    match claim
    case Acquired => Handling(true)
    case ToReplay(response) => Done(Replay(response))
    case InFlight => Done(InProgress)
    case Unavailable => Handling(false)
  }

  method ClaimIdempotencyKey(broker: Broker, r: Id, fates: seq<Fate>) returns (claim: Claim)
    modifies broker`lock
    ensures var t := AfterClaim(old(broker.View()), r, fates);
            broker.lock == t.lock && broker.stored == t.stored && ClaimPhase(claim) == PhaseOf(t, r)
  {
    var replay := broker.Get(At(fates, 0));
    if replay.Failed? { return Unavailable; }
    if replay.value.Some? { return ToReplay(replay.value.value); }
    var acquired := broker.SetNx(r, At(fates, 1));
    if acquired.Failed? { return Unavailable; }
    return if acquired.value then Acquired else InFlight;
  }

  /** What a leased handler's end does to the two entries. */
  lemma EntriesAfterWork(s: State, r: Id, outcome: Outcome, fates: seq<Fate>)
    requires PhaseOf(s, r) == Handling(true)
    ensures var t := AfterWork(s, r, outcome, fates);
            var dropped := DropLock(s, r).lock;
            if outcome.Returned? && Ok(outcome.response) && outcome.json then
              && t.stored == (if At(fates, 2) == Errors(false) then s.stored
                              else Some(Stored(outcome.response, s.now + RESPONSE_TTL)))
              && t.lock == if At(fates, 2).Errors? || At(fates, 3) == Errors(false) then s.lock else dropped
            else t.stored == s.stored && t.lock == if At(fates, 2) == Errors(false) then s.lock else dropped
  {}

  /** What `withIdempotency` does once the handler has ended under a lease. */
  method Finish(broker: Broker, r: Id, outcome: Outcome, fates: seq<Fate>, ghost s: State)
    requires PhaseOf(s, r) == Handling(true) && s.now == broker.now
    requires s.lock == broker.lock && s.stored == broker.stored
    modifies broker`lock, broker`stored
    ensures var t := AfterWork(s, r, outcome, fates); broker.lock == t.lock && broker.stored == t.stored
  {
    EntriesAfterWork(s, r, outcome, fates);
    if outcome.Returned? && Ok(outcome.response) && outcome.json {
      var ok := broker.Set(outcome.response, At(fates, 2));
      if ok { broker.DeleteIfOwned(r, At(fates, 3)); }
    } else {
      broker.DeleteIfOwned(r, At(fates, 2));
    }
  }

  /** The reply of `AfterWork` is the handler's own. */
  lemma ReplyIsOwn(s: State, r: Id, outcome: Outcome, fates: seq<Fate>)
    requires PhaseOf(s, r).Handling?
    ensures PhaseOf(AfterWork(s, r, outcome, fates), r) ==
            Done(if outcome.Threw? then Thrown else Own(outcome.response))
    ensures PhaseOf(s, r) == Handling(false) ==>
              var t := AfterWork(s, r, outcome, fates); t.lock == s.lock && t.stored == s.stored
  {}

  /** `withIdempotency`, whichever commands fail. */
  method WithIdempotency(broker: Broker, r: Id, outcome: Outcome, fates: seq<Fate>) returns (reply: Reply)
    modifies broker`lock, broker`stored
    ensures var t := Uninterrupted(old(broker.View()), r, outcome, fates);
            broker.lock == t.lock && broker.stored == t.stored && Done(reply) == PhaseOf(t, r)
  {
    ghost var claimed := AfterClaim(broker.View(), r, fates);
    var claim := ClaimIdempotencyKey(broker, r, fates);
    if claim.ToReplay? { return Replay(claim.response); }
    if claim.InFlight? { return InProgress; }
    if claim.Acquired? { Finish(broker, r, outcome, fates, claimed); }
    ReplyIsOwn(claimed, r, outcome, fates);
    return if outcome.Threw? then Thrown else Own(outcome.response);
  }

  /** What the caller gets from it when the broker answers, stated on the broker alone. */
  lemma UninterruptedMeaning(s: State, r: Id, outcome: Outcome)
    requires PhaseOf(s, r).Fresh?
    ensures var t := Uninterrupted(s, r, outcome, []);
            var reply := PhaseOf(t, r).reply;
            if s.stored.Some? && s.now < s.stored.value.expires then
              reply == Replay(s.stored.value.response) && t.lock == s.lock && t.stored == s.stored
            else if s.lock.Some? && s.now < s.lock.value.expires then
              reply == InProgress && t.lock == s.lock && t.stored == s.stored
            else
              && t.lock.None?
              && t.stored == (if outcome.Returned? && 200 <= outcome.response.status <= 299 && outcome.json
                              then Some(Stored(outcome.response, s.now + 86_400)) else s.stored)
              && reply == (if outcome.Threw? then Thrown else Own(outcome.response))
  {}

  /**
   * What the caller gets when a command of the claim fails: the handler's own answer, unless the probe
   * had answered with a response to replay.  Nothing is stored, and the lock is at most one that runs out.
   */
  lemma UninterruptedWithoutBroker(s: State, r: Id, outcome: Outcome, fates: seq<Fate>)
    requires PhaseOf(s, r).Fresh? && (At(fates, 0).Errors? || At(fates, 1).Errors?)
    ensures var t := Uninterrupted(s, r, outcome, fates);
            && t.stored == s.stored
            && (t.lock == s.lock || t.lock == Some(Lock(r, s.now + 120)))
            && PhaseOf(t, r).reply ==
               if At(fates, 0).Answers? && s.stored.Some? && s.now < s.stored.value.expires
               then Replay(s.stored.value.response)
               else if outcome.Threw? then Thrown else Own(outcome.response)
  {}
}
