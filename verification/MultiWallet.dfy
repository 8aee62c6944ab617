/**
 * The wallet state of `src/hooks/useMultiWallet.tsx` and the server session that goes with it.  Between
 * two awaits the code runs without interruption; these uninterrupted sections, and what the server
 * does in the meantime, are the events below, and any enabled event may come next.  The class holds
 * the variables the sections assign to.
 */
module MultiWallet {
  import opened Text
  import opened Stellar

  datatype WalletId = Freighter | Albedo | Xbull | Ledger | Rabet | Lobstr

  /** The wallets that the reconnect on mount tries. */
  predicate TriedOnMount(id: WalletId) { id.Freighter? || id.Albedo? || id.Xbull? }

  /** An amount, and the account it was fetched for. */
  datatype Balance = Balance(account: string, amount: string)

  datatype Wallet = Wallet(
    connected: bool,
    publicKey: Option<string>,
    network: Option<string>,
    balance: Option<Balance>,
    balanceLoading: bool,
    activeWalletId: Option<WalletId>)

  /** `initialWalletState` */
  const INITIAL := Wallet(false, None, None, None, false, None)

  function Fresh(id: WalletId, key: string, network: string): Wallet {
    Wallet(true, Some(key), Some(network), None, true, Some(id))
  }

  /** The two messages the hook shows: the wallet's own, and the one about a rejected session. */
  datatype Problem = WalletFailed(message: string) | SessionRejected

  /** The cookie travels with the request; `carried` says that it was the same account's. */
  datatype Stage = Unsent | Sent(proof: bool, carried: bool) | Answered

  /** A request for a server session, made by `connect` or by the reconnect on mount. */
  datatype Request = Request(key: string, byConnect: bool, canSign: bool, stage: Stage)

  /**
   * The hook's variables and the module's active wallet; the number of the connect or reconnect that
   * showed the wallet; what is awaited: balance requests by account, connects and reconnects waiting
   * for a wallet, session requests by number, and revocations; and the account of the session cookie.
   */
  datatype App = App(
    wallet: Wallet,
    active: Option<WalletId>,
    isConnecting: bool,
    error: Option<Problem>,
    shownBy: Option<nat>,
    loads: multiset<string>,
    choosing: nat,
    reconnecting: nat,
    count: nat,
    requests: map<nat, Request>,
    revoking: nat,
    session: Option<string>)

  const START := App(INITIAL, None, false, None, None, multiset{}, 0, 0, 0, map[], 0, None)

  datatype Event =
    | LoadStart(key: string)
    | LoadDone(key: string, amount: string)
    | LoadFail(key: string)
    | Mount                                               // the reconnect begins
    | Reconnected(id: WalletId, key: string, network: string)
    | ReconnectEnded                                      // no wallet was connected
    | ConnectStart
    | ConnectFail(message: string)
    | Connected(id: WalletId, key: string, network: string, canSign: bool)
    | Posted(n: nat, proof: bool)                         // the session request leaves
    | Granted(n: nat, renewed: bool)                      // and is accepted, with or without a new cookie
    | Settled(n: nat, ok: bool)                           // its caller goes on
    | RolledBack(n: nat)                                  // or takes the wallet down
    | Disconnect
    | Revoked(applied: bool)                              // the revocation lands or is lost

  /** The session route accepts a signed challenge, or the cookie of the same account. */
  predicate Acceptable(r: Request) {
    r.stage.Sent? && (r.stage.proof || r.stage.carried) && IsStellarAddress(Trim(r.key))
  }

  predicate Enabled(s: App, e: Event) {
    match e
    case LoadStart(key) => key != ""
    case LoadDone(key, _) => key in s.loads
    case LoadFail(key) => key in s.loads
    case Reconnected(id, key, _) => s.reconnecting > 0 && TriedOnMount(id) && key != ""
    case ReconnectEnded => s.reconnecting > 0
    case ConnectFail(_) => s.choosing > 0
    case Connected(_, _, _, _) => s.choosing > 0
    case Posted(n, proof) => n in s.requests && s.requests[n].stage.Unsent? && (proof ==> s.requests[n].canSign)
    case Granted(n, _) => n in s.requests && Acceptable(s.requests[n])
    case Settled(n, ok) =>
      && n in s.requests
      && if ok then s.requests[n].stage.Answered? else !(s.requests[n].byConnect && s.requests[n].canSign)
    case RolledBack(n) => n in s.requests && s.requests[n].byConnect && s.requests[n].canSign
    case Revoked(_) => s.revoking > 0
    case _ => true
  }

  function Loading(s: App, key: string): App {
    s.(wallet := s.wallet.(balanceLoading := true), loads := s.loads + multiset{key})
  }

  /** A new wallet is shown and its session requested. */
  function Shown(s: App, id: WalletId, key: string, network: string, byConnect: bool, canSign: bool): App {
    s.(wallet := Fresh(id, key, network), active := Some(id), shownBy := Some(s.count), count := s.count + 1,
       requests := s.requests[s.count := Request(key, byConnect, canSign, Unsent)])
  }

  function Reset(s: App): App { s.(wallet := INITIAL, active := None, shownBy := None) }

  predicate IsCurrent(w: Wallet, key: string) { w.connected && w.publicKey == Some(key) }

  function Next(s: App, e: Event): App
    requires Enabled(s, e)
  {
    match e
    case LoadStart(key) => Loading(s, key)
    case LoadDone(key, amount) =>
      s.(loads := s.loads - multiset{key},
         wallet := if IsCurrent(s.wallet, key)
                   then s.wallet.(balance := Some(Balance(key, amount)), balanceLoading := false)
                   else s.wallet)
    case LoadFail(key) =>
      s.(loads := s.loads - multiset{key},
         wallet := if IsCurrent(s.wallet, key) then s.wallet.(balanceLoading := false) else s.wallet)
    case Mount => s.(reconnecting := s.reconnecting + 1)
    case Reconnected(id, key, network) =>
      Loading(Shown(s.(reconnecting := s.reconnecting - 1), id, key, network, false, false), key)
    case ReconnectEnded => s.(reconnecting := s.reconnecting - 1)
    case ConnectStart => s.(isConnecting := true, error := None, choosing := s.choosing + 1)
    case ConnectFail(message) =>
      s.(isConnecting := false, error := Some(WalletFailed(message)), choosing := s.choosing - 1)
    case Connected(id, key, network, canSign) =>
      var t := Shown(s.(choosing := s.choosing - 1), id, key, network, true, canSign);
      if key != "" then Loading(t, key) else t
    case Posted(n, proof) =>
      var r := s.requests[n];
      s.(requests := s.requests[n := r.(stage := Sent(proof, s.session == Some(Trim(r.key))))])
    case Granted(n, renewed) =>
      var r := s.requests[n];
      s.(requests := s.requests[n := r.(stage := Answered)],
         session := if r.stage.proof || renewed then Some(Trim(r.key)) else s.session)
    case Settled(n, _) =>
      s.(requests := s.requests - {n}, isConnecting := if s.requests[n].byConnect then false else s.isConnecting)
    case RolledBack(n) =>
      Reset(s).(requests := s.requests - {n}, isConnecting := false, error := Some(SessionRejected))
    case Disconnect => Reset(s).(error := None, revoking := s.revoking + 1)
    case Revoked(applied) => s.(revoking := s.revoking - 1, session := if applied then None else s.session)
  }

  // ---------------------------------------------------------------- the hook

  class Provider {
    var wallet: Wallet
    var active: Option<WalletId>
    var isConnecting: bool
    var error: Option<Problem>
    /** What is awaited and what the server holds, on the other side of the awaits. */
    ghost var outside: App

    ghost function State(): App
      reads this
    {
      outside.(wallet := wallet, active := active, isConnecting := isConnecting, error := error)
    }

    constructor ()
      ensures State() == START
      ensures wallet == Wallet(false, None, None, None, false, None) && active == None && !isConnecting && error == None
    {
      wallet, active, isConnecting, error := INITIAL, None, false, None;
      outside := START;
    }

    /** `loadBalance` up to its await. */
    method BeginLoad(key: string)
      requires key != ""
      modifies this
      ensures State() == Next(old(State()), LoadStart(key))
      ensures wallet == old(wallet).(balanceLoading := true)
      ensures active == old(active) && isConnecting == old(isConnecting) && error == old(error)
    {
      wallet := wallet.(balanceLoading := true);
      outside := outside.(loads := outside.loads + multiset{key});
    }

    /** `loadBalance` after its await: `None` when the request failed. */
    method EndLoad(key: string, amount: Option<string>)
      requires key in outside.loads
      modifies this
      ensures State() == Next(old(State()), if amount.Some? then LoadDone(key, amount.value) else LoadFail(key))
      ensures wallet == if !(old(wallet).connected && old(wallet).publicKey == Some(key)) then old(wallet)
                        else if amount.None? then old(wallet).(balanceLoading := false)
                        else old(wallet).(balanceLoading := false, balance := Some(Balance(key, amount.value)))
      ensures active == old(active) && isConnecting == old(isConnecting) && error == old(error)
    {
      if amount.Some? {
        if wallet.connected && wallet.publicKey == Some(key) {
          wallet := wallet.(balance := Some(Balance(key, amount.value)), balanceLoading := false);
        }
      } else {
        if wallet.connected && wallet.publicKey == Some(key) {
          wallet := wallet.(balanceLoading := false);
        }
      }
      outside := outside.(loads := outside.loads - multiset{key});
    }

    /** The body of the loop in `autoReconnect` once a connected wallet has answered. */
    method AutoReconnect(id: WalletId, key: string, network: string)
      requires outside.reconnecting > 0 && TriedOnMount(id)
      modifies this
      ensures State() == if key != "" then Next(old(State()), Reconnected(id, key, network)) else old(State())
      ensures key != "" ==> wallet == Wallet(true, Some(key), Some(network), None, true, Some(id)) && active == Some(id)
      ensures isConnecting == old(isConnecting) && error == old(error)
    {
      if key != "" {
        outside := outside.(reconnecting := outside.reconnecting - 1);
        Show(id, key, network, false, false);
        BeginLoad(key);
      }
    }

    method Show(id: WalletId, key: string, network: string, ghost byConnect: bool, ghost canSign: bool)
      modifies this
      ensures State() == Shown(old(State()), id, key, network, byConnect, canSign)
      ensures wallet == Wallet(true, Some(key), Some(network), None, true, Some(id)) && active == Some(id)
      ensures isConnecting == old(isConnecting) && error == old(error)
    {
      wallet := Wallet(true, Some(key), Some(network), None, true, Some(id));
      active := Some(id);
      outside := Shown(outside, id, key, network, byConnect, canSign);
    }

    method BeginConnect()
      modifies this
      ensures State() == Next(old(State()), Event.ConnectStart)
      ensures isConnecting && error == None && wallet == old(wallet) && active == old(active)
    {
      isConnecting := true;
      error := None;
      outside := outside.(choosing := outside.choosing + 1);
    }

    /** The catch and finally blocks of `connect`. */
    method FailConnect(message: string)
      requires outside.choosing > 0
      modifies this
      ensures State() == Next(old(State()), ConnectFail(message))
      ensures !isConnecting && error == Some(WalletFailed(message)) && wallet == old(wallet) && active == old(active)
    {
      error := Some(WalletFailed(message));
      isConnecting := false;
      outside := outside.(choosing := outside.choosing - 1);
    }

    /** `connect` once the wallet has answered, up to the wait for the session. */
    method Connect(id: WalletId, key: string, network: string, ghost canSign: bool)
      requires outside.choosing > 0
      modifies this
      ensures State() == Next(old(State()), Connected(id, key, network, canSign))
      ensures wallet == Wallet(true, Some(key), Some(network), None, true, Some(id)) && active == Some(id)
      ensures isConnecting == old(isConnecting) && error == old(error)
    {
      outside := outside.(choosing := outside.choosing - 1);
      Show(id, key, network, true, canSign);
      if key != "" { BeginLoad(key); }
    }

    /** `connect` once the server has answered. */
    method EndSession(ghost n: nat, sessionOk: bool, canSign: bool)
      requires n in outside.requests && outside.requests[n].byConnect && outside.requests[n].canSign == canSign
      requires sessionOk ==> outside.requests[n].stage.Answered?
      modifies this
      ensures State() == Next(old(State()), if !sessionOk && canSign then RolledBack(n) else Settled(n, sessionOk))
      ensures !isConnecting
      ensures if !sessionOk && canSign
              then
                && wallet == Wallet(false, None, None, None, false, None) && active == None
                && error == Some(SessionRejected)
              else wallet == old(wallet) && active == old(active) && error == old(error)
    {
      outside := outside.(requests := outside.requests - {n});
      if !sessionOk && canSign { RollBack(); }
      isConnecting := false;
    }

    method RollBack()
      modifies this
      ensures State() == Reset(old(State())).(error := Some(SessionRejected))
      ensures wallet == Wallet(false, None, None, None, false, None) && active == None && error == Some(SessionRejected)
      ensures isConnecting == old(isConnecting)
    {
      wallet := INITIAL;
      active := None;
      error := Some(SessionRejected);
      outside := Reset(outside);
    }

    /** `disconnect`: the reset before its first await; the revocation is sent after it. */
    method DisconnectWallet()
      modifies this
      ensures State() == Next(old(State()), Event.Disconnect)
      ensures wallet == Wallet(false, None, None, None, false, None) && active == None && error == None
      ensures isConnecting == old(isConnecting)
    {
      wallet := INITIAL;
      active := None;
      error := None;
      outside := Reset(outside).(revoking := outside.revoking + 1);
    }
  }

  // ---------------------------------------------------------------- runs

  ghost predicate IsRun(s: App, events: seq<Event>)
    decreases |events|
  {
    events == [] || (Enabled(s, events[0]) && IsRun(Next(s, events[0]), events[1..]))
  }

  ghost function Run(s: App, events: seq<Event>): App
    requires IsRun(s, events)
    decreases |events|
  {
    if events == [] then s else Run(Next(s, events[0]), events[1..])
  }

  lemma RunCons(s: App, e: Event, events: seq<Event>)
    requires Enabled(s, e) && IsRun(Next(s, e), events)
    ensures IsRun(s, [e] + events) && Run(s, [e] + events) == Run(Next(s, e), events)
  {
    assert ([e] + events)[1..] == events;
  }

  ghost predicate Invariant(s: App) {
    && (s.wallet.balance.Some? ==> IsCurrent(s.wallet, s.wallet.balance.value.account))
    && (!s.wallet.connected ==> s.wallet.(balanceLoading := false) == INITIAL)
    && (s.wallet.connected ==> s.wallet.publicKey.Some? && s.wallet.network.Some? && s.wallet.activeWalletId.Some?)
    && s.active == s.wallet.activeWalletId
    && (s.wallet.connected <==> s.shownBy.Some?)
    && (s.shownBy.Some? ==> s.shownBy.value < s.count)
    && "" !in s.loads
    && (s.session.Some? ==> IsStellarAddress(s.session.value))
  }

  lemma InvariantStep(s: App, e: Event)
    requires Invariant(s) && Enabled(s, e)
    ensures Invariant(Next(s, e))
  {
    match e
    case LoadStart(_) =>
    case LoadDone(_, _) =>
    case LoadFail(_) =>
    case Mount =>
    case Reconnected(_, _, _) =>
    case ReconnectEnded =>
    case ConnectStart =>
    case ConnectFail(_) =>
    case Connected(_, _, _, _) =>
    case Posted(_, _) =>
    case Granted(_, _) =>
    case Settled(_, _) =>
    case RolledBack(_) =>
    case Disconnect =>
    case Revoked(_) =>
  }

  /** In every interleaving, after every prefix of the run. */
  lemma {:induction false} InvariantRun(s: App, events: seq<Event>)
    requires Invariant(s) && IsRun(s, events)
    ensures Invariant(Run(s, events))
    decreases |events|
  {
    if events != [] {
      InvariantStep(s, events[0]);
      InvariantRun(Next(s, events[0]), events[1..]);
    }
  }

  ghost predicate Reachable(s: App) { exists events :: IsRun(START, events) && Run(START, events) == s }

  lemma ReachableInvariant(s: App)
    requires Reachable(s)
    ensures Invariant(s)
  {
    var events :| IsRun(START, events) && Run(START, events) == s;
    InvariantRun(START, events);
  }

  /** What is shown in every reachable state. */
  lemma ReachableWallets(s: App)
    requires Reachable(s)
    ensures s.wallet.balance.Some? ==> IsCurrent(s.wallet, s.wallet.balance.value.account)
    ensures !s.wallet.connected ==> s.wallet == INITIAL || s.wallet == INITIAL.(balanceLoading := true)
    ensures s.active == s.wallet.activeWalletId
  {
    ReachableInvariant(s);
  }

  // ---------------------------------------------------------------- what is awaited

  /** Whatever is awaited can end in each of its ways, and nothing else can. */
  lemma WhatCanEnd(s: App, id: WalletId, key: string, network: string, amount: string, message: string, flag: bool)
    ensures Enabled(s, LoadDone(key, amount)) <==> s.loads[key] > 0
    ensures Enabled(s, LoadFail(key)) <==> s.loads[key] > 0
    ensures Enabled(s, ReconnectEnded) <==> s.reconnecting > 0
    ensures Enabled(s, ConnectFail(message)) <==> s.choosing > 0
    ensures Enabled(s, Connected(id, key, network, flag)) <==> s.choosing > 0
    ensures Enabled(s, Revoked(flag)) <==> s.revoking > 0
    ensures Enabled(s, Reconnected(id, key, network)) <==>
            s.reconnecting > 0 && key != "" && id in {Freighter, Albedo, Xbull}
    ensures Enabled(s, Mount) && Enabled(s, ConnectStart) && Enabled(s, Event.Disconnect)
  {}

  function Count(events: seq<Event>, kinds: Event -> bool): nat {
    if events == [] then 0 else (if kinds(events[0]) then 1 else 0) + Count(events[1..], kinds)
  }

  function StartsConnect(): Event -> bool { (e: Event) => e.ConnectStart? }
  function EndsConnect(): Event -> bool { (e: Event) => e.ConnectFail? || e.Connected? }
  function StartsReconnect(): Event -> bool { (e: Event) => e.Mount? }
  function EndsReconnect(): Event -> bool { (e: Event) => e.Reconnected? || e.ReconnectEnded? }
  function StartsRevocation(): Event -> bool { (e: Event) => e.Disconnect? }
  function EndsRevocation(): Event -> bool { (e: Event) => e.Revoked? }

  /** Every connect or reconnect that shows an account loads its balance. */
  function StartsLoad(key: string): Event -> bool {
    (e: Event) => (e.LoadStart? || e.Reconnected? || (e.Connected? && e.key != "")) && e.key == key
  }

  function EndsLoad(key: string): Event -> bool { (e: Event) => (e.LoadDone? || e.LoadFail?) && e.key == key }

  /** The counters of `t` are those of `s` and what the events have started less what they have ended. */
  predicate Counted(s: App, events: seq<Event>, t: App, key: string) {
    && t.choosing + Count(events, EndsConnect()) == s.choosing + Count(events, StartsConnect())
    && t.reconnecting + Count(events, EndsReconnect()) == s.reconnecting + Count(events, StartsReconnect())
    && t.revoking + Count(events, EndsRevocation()) == s.revoking + Count(events, StartsRevocation())
    && t.loads[key] + Count(events, EndsLoad(key)) == s.loads[key] + Count(events, StartsLoad(key))
  }

  lemma CountedStep(s: App, e: Event, key: string)
    requires Enabled(s, e)
    ensures Counted(s, [e], Next(s, e), key)
  {
    assert [e][1..] == [];
    match e
    case LoadStart(_) =>
    case LoadDone(_, _) =>
    case LoadFail(_) =>
    case Mount =>
    case Reconnected(_, _, _) =>
    case ReconnectEnded =>
    case ConnectStart =>
    case ConnectFail(_) =>
    case Connected(_, _, _, _) =>
    case Posted(_, _) =>
    case Granted(_, _) =>
    case Settled(_, _) =>
    case RolledBack(_) =>
    case Disconnect =>
    case Revoked(_) =>
  }

  lemma CountCons(e: Event, events: seq<Event>, kinds: Event -> bool)
    ensures Count([e] + events, kinds) == Count([e], kinds) + Count(events, kinds)
  {
    assert ([e] + events)[1..] == events;
  }

  lemma CountedCons(s: App, e: Event, m: App, events: seq<Event>, t: App, key: string)
    requires Counted(s, [e], m, key) && Counted(m, events, t, key)
    ensures Counted(s, [e] + events, t, key)
  {
    CountCons(e, events, StartsConnect());
    CountCons(e, events, EndsConnect());
    CountCons(e, events, StartsReconnect());
    CountCons(e, events, EndsReconnect());
    CountCons(e, events, StartsRevocation());
    CountCons(e, events, EndsRevocation());
    CountCons(e, events, StartsLoad(key));
    CountCons(e, events, EndsLoad(key));
  }

  lemma {:induction false} CountedRun(s: App, events: seq<Event>, key: string)
    requires IsRun(s, events)
    ensures Counted(s, events, Run(s, events), key)
    decreases |events|
  {
    if events != [] {
      var e, m := events[0], Next(s, events[0]);
      CountedStep(s, e, key);
      CountedRun(m, events[1..], key);
      CountedCons(s, e, m, events[1..], Run(s, events), key);
      assert events == [e] + events[1..];
    }
  }

  /** In every run, as much is awaited as was started and has not ended. */
  lemma AwaitedIsConserved(events: seq<Event>, key: string)
    requires IsRun(START, events)
    ensures var t := Run(START, events);
            && t.choosing == Count(events, StartsConnect()) - Count(events, EndsConnect())
            && t.reconnecting == Count(events, StartsReconnect()) - Count(events, EndsReconnect())
            && t.revoking == Count(events, StartsRevocation()) - Count(events, EndsRevocation())
            && t.loads[key] == Count(events, StartsLoad(key)) - Count(events, EndsLoad(key))
  {
    CountedRun(START, events, key);
  }

  // ---------------------------------------------------------------- which wallet is shown

  predicate Shows(e: Event) { e.Reconnected? || e.Connected? }

  predicate Resets(e: Event) { e.RolledBack? || e.Disconnect? }

  /** Events that decide which wallet is shown; every other event leaves that alone. */
  function Decides(e: Event): Option<Wallet> {
    match e
    case Reconnected(id, key, network) => Some(Fresh(id, key, network))
    case Connected(id, key, network, _) => Some(Fresh(id, key, network))
    case RolledBack(_) => Some(INITIAL)
    case Disconnect => Some(INITIAL)
    case _ => None
  }

  /** The wallet decided on last, starting from `w`. */
  function LastDecision(w: Wallet, events: seq<Event>): Wallet {
    if events == [] then w
    else
      var e := events[|events| - 1];
      if Decides(e).Some? then Decides(e).value else LastDecision(w, events[..|events| - 1])
  }

  predicate SameIdentity(v: Wallet, w: Wallet) {
    && v.connected == w.connected && v.publicKey == w.publicKey
    && v.network == w.network && v.activeWalletId == w.activeWalletId
  }

  lemma {:induction false} LastDecisionCons(w: Wallet, e: Event, events: seq<Event>)
    ensures LastDecision(w, [e] + events) ==
            LastDecision(if Decides(e).Some? then Decides(e).value else w, events)
  {
    var all := [e] + events;
    if events == [] {
      assert all[..|all| - 1] == [];
    } else {
      assert all[..|all| - 1] == [e] + events[..|events| - 1];
      LastDecisionCons(w, e, events[..|events| - 1]);
    }
  }

  lemma {:induction false} DecisionKeepsIdentity(v: Wallet, w: Wallet, events: seq<Event>)
    requires SameIdentity(v, w)
    ensures SameIdentity(LastDecision(v, events), LastDecision(w, events))
  {
    if events != [] { DecisionKeepsIdentity(v, w, events[..|events| - 1]); }
  }

  lemma DecisionStep(s: App, e: Event)
    requires Enabled(s, e)
    ensures SameIdentity(Next(s, e).wallet, if Decides(e).Some? then Decides(e).value else s.wallet)
  {
    match e
    case LoadStart(_) =>
    case LoadDone(_, _) =>
    case LoadFail(_) =>
    case Mount =>
    case Reconnected(_, _, _) =>
    case ReconnectEnded =>
    case ConnectStart =>
    case ConnectFail(_) =>
    case Connected(_, _, _, _) =>
    case Posted(_, _) =>
    case Granted(_, _) =>
    case Settled(_, _) =>
    case RolledBack(_) =>
    case Disconnect =>
    case Revoked(_) =>
  }

  /** However the answers arrive, the wallet shown is the one of the last deciding event. */
  lemma {:induction false} WalletFollowsLastDecision(s: App, events: seq<Event>)
    requires IsRun(s, events)
    ensures SameIdentity(Run(s, events).wallet, LastDecision(s.wallet, events))
    decreases |events|
  {
    if events != [] {
      var e, t := events[0], Next(s, events[0]);
      WalletFollowsLastDecision(t, events[1..]);
      assert events == [e] + events[1..];
      DecisionStep(s, e);
      LastDecisionCons(s.wallet, e, events[1..]);
      DecisionKeepsIdentity(t.wallet, if Decides(e).Some? then Decides(e).value else s.wallet, events[1..]);
    }
  }

  // ---------------------------------------------------------------- which balance is shown

  /** Nothing decides on a wallet, and no balance arrives for the account. */
  predicate Untouched(events: seq<Event>, account: string) {
    forall j :: 0 <= j < |events| ==> Decides(events[j]).None? && !(events[j].LoadDone? && events[j].key == account)
  }

  /** The `i`th event is the last answer for its account, and the wallet is the same since. */
  predicate AnsweredLast(events: seq<Event>, b: Balance, i: nat) {
    i < |events| && events[i] == LoadDone(b.account, b.amount) && Untouched(events[i + 1..], b.account)
  }

  ghost predicate BalanceCame(events: seq<Event>, b: Balance) { exists i: nat :: AnsweredLast(events, b, i) }

  lemma BalanceCameCons(e: Event, events: seq<Event>, b: Balance)
    ensures BalanceCame([e] + events, b) <==>
            BalanceCame(events, b) || (e == LoadDone(b.account, b.amount) && Untouched(events, b.account))
  {
    var all := [e] + events;
    assert all[1..] == events;
    if i: nat :| AnsweredLast(events, b, i) {
      assert all[i + 2..] == events[i + 1..];
      assert AnsweredLast(all, b, i + 1);
    }
    if e == LoadDone(b.account, b.amount) && Untouched(events, b.account) { assert AnsweredLast(all, b, 0); }
    if i: nat :| AnsweredLast(all, b, i) {
      if i > 0 {
        assert all[i + 1..] == events[i..];
        assert AnsweredLast(events, b, i - 1);
      }
    }
  }

  /** What one event does to the balance shown. */
  lemma BalanceStep(s: App, e: Event, b: Balance)
    requires Invariant(s) && Enabled(s, e)
    ensures Next(s, e).wallet.balance == Some(b) <==>
            if e == LoadDone(b.account, b.amount) then IsCurrent(s.wallet, b.account)
            else s.wallet.balance == Some(b) && Untouched([e], b.account)
    ensures Decides(e).None? ==> (IsCurrent(Next(s, e).wallet, b.account) <==> IsCurrent(s.wallet, b.account))
  {
    assert Untouched([e], b.account) <==> Decides([e][0]).None? && !([e][0].LoadDone? && [e][0].key == b.account);
    match e
    case LoadStart(_) =>
    case LoadDone(_, _) =>
    case LoadFail(_) =>
    case Mount =>
    case Reconnected(_, _, _) =>
    case ReconnectEnded =>
    case ConnectStart =>
    case ConnectFail(_) =>
    case Connected(_, _, _, _) =>
    case Posted(_, _) =>
    case Granted(_, _) =>
    case Settled(_, _) =>
    case RolledBack(_) =>
    case Disconnect =>
    case Revoked(_) =>
  }

  lemma {:induction false} BalanceRun(s: App, events: seq<Event>, b: Balance)
    requires Invariant(s) && IsRun(s, events)
    ensures Run(s, events).wallet.balance == Some(b) <==>
            || (BalanceCame(events, b) && IsCurrent(Run(s, events).wallet, b.account))
            || (s.wallet.balance == Some(b) && Untouched(events, b.account))
    ensures Untouched(events, b.account) ==>
              (IsCurrent(Run(s, events).wallet, b.account) <==> IsCurrent(s.wallet, b.account))
    decreases |events|
  {
    if events != [] {
      var e, rest := events[0], events[1..];
      assert events == [e] + rest;
      InvariantStep(s, e);
      BalanceStep(s, e, b);
      BalanceCameCons(e, rest, b);
      UntouchedCons(e, rest, b.account);
      BalanceRun(Next(s, e), rest, b);
    }
  }

  lemma UntouchedCons(e: Event, events: seq<Event>, account: string)
    ensures Untouched([e] + events, account) <==> Untouched([e], account) && Untouched(events, account)
    ensures Untouched([e], account) <==> Decides(e).None? && !(e.LoadDone? && e.key == account)
  {
    var all := [e] + events;
    if Untouched(all, account) {
      assert Decides(all[0]).None?;
      forall j | 0 <= j < |events|
        ensures Decides(events[j]).None? && !(events[j].LoadDone? && events[j].key == account)
      {
        assert all[j + 1] == events[j];
      }
    }
    if Untouched([e], account) { assert Decides([e][0]).None?; }
  }

  /**
   * A balance is shown exactly when it is the last answer for the account of the wallet shown, and
   * that wallet has been the same since.
   */
  lemma ShownBalanceIsLastAnswer(events: seq<Event>, b: Balance)
    requires IsRun(START, events)
    ensures Run(START, events).wallet.balance == Some(b) <==>
            IsCurrent(Run(START, events).wallet, b.account) && BalanceCame(events, b)
  {
    BalanceRun(START, events, b);
  }

  // ---------------------------------------------------------------- is a disconnect final?

  predicate StartsNothing(events: seq<Event>) {
    forall i :: 0 <= i < |events| ==> !events[i].ConnectStart? && !events[i].Mount?
  }

  /** However what is awaited turns out, no account comes back unless something new is begun. */
  ghost predicate StaysDown(s: App) {
    forall events ::
      IsRun(s, events) && StartsNothing(events) ==> Run(s, events).wallet.(balanceLoading := false) == INITIAL
  }

  lemma {:induction false} NothingComesBack(s: App, events: seq<Event>)
    requires Invariant(s) && !s.wallet.connected && s.choosing == 0 && s.reconnecting == 0
    requires IsRun(s, events) && StartsNothing(events)
    ensures Run(s, events).wallet.(balanceLoading := false) == INITIAL
    decreases |events|
  {
    if events != [] {
      var e := events[0];
      assert !e.ConnectStart? && !e.Mount?;
      InvariantStep(s, e);
      DecisionStep(s, e);
      NothingComesBack(Next(s, e), events[1..]);
    }
  }

  /**
   * After a disconnect no late answer brings an account back, exactly when no connect and no
   * reconnect was still waiting for its wallet.
   */
  lemma DisconnectIsFinalIff(s: App)
    requires Reachable(s)
    ensures StaysDown(Next(s, Event.Disconnect)) <==> s.choosing == 0 && s.reconnecting == 0
  {
    var t := Next(s, Event.Disconnect);
    ReachableInvariant(s);
    InvariantStep(s, Event.Disconnect);
    if s.choosing == 0 && s.reconnecting == 0 {
      forall events | IsRun(t, events) && StartsNothing(events)
        ensures Run(t, events).wallet.(balanceLoading := false) == INITIAL
      {
        NothingComesBack(t, events);
      }
    } else {
      var late :=
        if s.choosing > 0 then Connected(Albedo, "G", "TESTNET", true) else Reconnected(Albedo, "G", "TESTNET");
      RunCons(t, late, []);
      assert Run(t, [late] + []).wallet.connected;
      assert StartsNothing([late] + []);
    }
  }

  // ---------------------------------------------------------------- which wallet a roll-back takes down

  predicate NoReset(events: seq<Event>) { forall k :: 0 <= k < |events| ==> !Resets(events[k]) }

  /** The `j`th event shows a wallet that no later one takes down. */
  predicate ShownAt(events: seq<Event>, j: nat) {
    j < |events| && Shows(events[j]) && NoReset(events[j + 1..])
  }

  ghost predicate ShownLast(events: seq<Event>) { exists j: nat :: ShownAt(events, j) }

  lemma ShownAtCons(e: Event, events: seq<Event>, j: nat)
    ensures ShownAt([e] + events, j + 1) <==> ShownAt(events, j)
    ensures ShownAt([e] + events, 0) <==> Shows(e) && NoReset(events)
  {
    var all := [e] + events;
    assert all[1..] == events;
    if j < |events| { assert all[j + 2..] == events[j + 1..]; }
  }

  lemma ShownLastCons(e: Event, events: seq<Event>)
    ensures ShownLast([e] + events) <==> ShownLast(events) || (Shows(e) && NoReset(events))
  {
    ShownAtCons(e, events, 0);
    if j: nat :| ShownAt(events, j) { ShownAtCons(e, events, j); }
    if j: nat :| ShownAt([e] + events, j) {
      if j > 0 { ShownAtCons(e, events, j - 1); }
    }
  }

  lemma ShownByStep(s: App, e: Event)
    requires Enabled(s, e)
    ensures var t := Next(s, e);
            && t.count == s.count + (if Shows(e) then 1 else 0)
            && t.shownBy == if Shows(e) then Some(s.count) else if Resets(e) then None else s.shownBy
  {
    match e
    case LoadStart(_) =>
    case LoadDone(_, _) =>
    case LoadFail(_) =>
    case Mount =>
    case Reconnected(_, _, _) =>
    case ReconnectEnded =>
    case ConnectStart =>
    case ConnectFail(_) =>
    case Connected(_, _, _, _) =>
    case Posted(_, _) =>
    case Granted(_, _) =>
    case Settled(_, _) =>
    case RolledBack(_) =>
    case Disconnect =>
    case Revoked(_) =>
  }

  /** Who shows the wallet at the end of a run: a later event, or still the one from before it. */
  lemma {:induction false} ShownByRun(s: App, events: seq<Event>)
    requires IsRun(s, events) && (s.shownBy.Some? ==> s.shownBy.value < s.count)
    ensures var t := Run(s, events);
            && (ShownLast(events) <==> t.shownBy.Some? && t.shownBy.value >= s.count)
            && (t.shownBy.Some? && t.shownBy.value < s.count ==> NoReset(events) && t.shownBy == s.shownBy)
            && (s.shownBy.Some? && NoReset(events) ==> t.shownBy.Some? && t.shownBy.value >= s.shownBy.value)
    decreases |events|
  {
    if events != [] {
      var e, rest := events[0], events[1..];
      ShownByStep(s, e);
      ShownByRun(Next(s, e), rest);
      ShownLastCons(e, rest);
      assert events == [e] + rest;
    }
  }

  /**
   * The roll-back of a connect takes down the wallet of another connect or reconnect exactly when one
   * was shown after it and is still shown.
   */
  lemma RollBackTakesDownOtherIff(s: App, connect: Event, events: seq<Event>)
    requires Reachable(s) && connect.Connected? && Enabled(s, connect) && IsRun(Next(s, connect), events)
    requires Enabled(Run(Next(s, connect), events), RolledBack(s.count))
    ensures var before := Run(Next(s, connect), events);
            && (before.wallet.connected && before.shownBy != Some(s.count) <==> ShownLast(events))
            && Next(before, RolledBack(s.count)).wallet == INITIAL
  {
    var t := Next(s, connect);
    ReachableInvariant(s);
    InvariantStep(s, connect);
    InvariantRun(t, events);
    ShownByStep(s, connect);
    ShownByRun(t, events);
  }

  /** For instance: two overlapping connects, the second one's wallet shown after the first one's. */
  lemma RollBackTakesDownLaterWallet(s: App, first: Event, second: Event)
    requires Reachable(s) && s.choosing >= 2 && first.Connected? && second.Connected? && first.canSign
    ensures Enabled(s, first) && Enabled(Next(s, first), second)
    ensures var before := Next(Next(s, first), second);
            && before.wallet.publicKey == Some(second.key)
            && Enabled(before, RolledBack(s.count))
            && !Next(before, RolledBack(s.count)).wallet.connected
  {}

  // ---------------------------------------------------------------- the spinner

  predicate LoadsOnly(events: seq<Event>) {
    forall i :: 0 <= i < |events| ==> events[i].LoadStart? || events[i].LoadDone? || events[i].LoadFail?
  }

  /** Some balance requests and their answers stop the spinner. */
  ghost predicate CanStop(s: App) {
    exists events :: IsRun(s, events) && LoadsOnly(events) && !Run(s, events).wallet.balanceLoading
  }

  lemma {:induction false} SpinsOn(s: App, events: seq<Event>)
    requires Invariant(s) && s.wallet.balanceLoading && (s.wallet.connected ==> s.wallet.publicKey == Some(""))
    requires IsRun(s, events) && LoadsOnly(events)
    ensures Run(s, events).wallet.balanceLoading
    decreases |events|
  {
    if events != [] {
      var e := events[0];
      assert e.LoadStart? || e.LoadDone? || e.LoadFail?;
      InvariantStep(s, e);
      SpinsOn(Next(s, e), events[1..]);
    }
  }

  lemma OneLoadStops(s: App, key: string)
    requires s.wallet.connected && s.wallet.publicKey == Some(key) && key != ""
    ensures CanStop(s)
  {
    var e1, e2 := LoadStart(key), LoadFail(key);
    RunCons(Next(s, e1), e2, []);
    RunCons(s, e1, [e2] + []);
    assert LoadsOnly([e1] + ([e2] + []));
  }

  /** A turning spinner can be stopped by loading exactly when a wallet with a non-empty account is shown. */
  lemma SpinnerStopsIff(s: App)
    requires Reachable(s) && s.wallet.balanceLoading
    ensures CanStop(s) <==> s.wallet.connected && s.wallet.publicKey != Some("")
  {
    ReachableInvariant(s);
    if s.wallet.connected && s.wallet.publicKey != Some("") {
      OneLoadStops(s, s.wallet.publicKey.value);
    } else {
      forall events | IsRun(s, events) && LoadsOnly(events) ensures Run(s, events).wallet.balanceLoading {
        SpinsOn(s, events);
      }
    }
  }

  /** A wallet that connects without an account leaves the spinner turning while it is shown. */
  lemma EmptyAccountSpins(id: WalletId, network: string, canSign: bool)
    ensures exists s :: Reachable(s) && s.wallet == Fresh(id, "", network) && !CanStop(s)
  {
    var e := Connected(id, "", network, canSign);
    var t := Next(START, Event.ConnectStart);
    var s := Next(t, e);
    RunCons(t, e, []);
    RunCons(START, Event.ConnectStart, [e] + []);
    assert Reachable(s);
    SpinnerStopsIff(s);
  }

  // ---------------------------------------------------------------- the server's session

  /** Showing a wallet asks for a session, and a caller that goes on takes its request with it. */
  lemma RequestsMade(s: App, e: Event)
    requires Enabled(s, e)
    ensures e.Connected? ==>
              Next(s, e).requests == s.requests[s.count := Request(e.key, true, e.canSign, Unsent)]
    ensures e.Reconnected? ==> Next(s, e).requests == s.requests[s.count := Request(e.key, false, false, Unsent)]
    ensures e.Settled? || e.RolledBack? ==>
              Next(s, e).requests == map m | m in s.requests && m != e.n :: s.requests[m]
  {}

  /**
   * The session route: a posted request is granted exactly for a valid account with proof or with the
   * account's own cookie; the grant sets the cookie if there was proof or the cookie was due for
   * renewal, and only then may the caller go on as signed in.
   */
  lemma SessionRoute(s: App, n: nat, proof: bool, renewed: bool)
    requires Enabled(s, Posted(n, proof))
    ensures var account, t := Trim(s.requests[n].key), Next(s, Posted(n, proof));
            && t.session == s.session
            && !Enabled(t, Settled(n, true))
            && (Enabled(t, Granted(n, renewed)) <==>
                  IsStellarAddress(account) && (proof || s.session == Some(account)))
            && (Enabled(t, Granted(n, renewed)) ==>
                  var u := Next(t, Granted(n, renewed));
                  && u.session == (if proof || renewed then Some(account) else s.session)
                  && Enabled(u, Settled(n, true)) && !Enabled(u, Granted(n, renewed))
                  && forall m | m in s.requests && m != n :: m in u.requests && u.requests[m] == s.requests[m])
  {}

  predicate LosesNone(events: seq<Event>) { forall i :: 0 <= i < |events| ==> events[i] != Revoked(false) }

  /** What was awaited runs out: nothing new is begun, every revocation lands, and none is on its way at the end. */
  ghost predicate RunsOut(s: App, events: seq<Event>) {
    IsRun(s, events) && StartsNothing(events) && LosesNone(events) && Run(s, events).revoking == 0
  }

  /** However it runs out, no session is left. */
  ghost predicate TornDown(s: App) { forall events :: RunsOut(s, events) ==> Run(s, events).session.None? }

  /** The request can still set the cookie after the revocation. */
  predicate CanOutlive(s: App, r: Request) {
    || Acceptable(r)
    || (r.stage.Unsent? && IsStellarAddress(Trim(r.key)) && (r.canSign || s.session == Some(Trim(r.key))))
  }

  /** Nothing awaited can set the cookie: no connect, no reconnect while there is a cookie to renew, no request. */
  ghost predicate NoneOutlives(s: App) {
    && s.choosing == 0
    && (s.reconnecting == 0 || s.session.None?)
    && forall n :: n in s.requests ==> !CanOutlive(s, s.requests[n])
  }

  lemma NoneOutlivesStep(s: App, e: Event)
    requires NoneOutlives(s) && (s.revoking == 0 ==> s.session.None?) && Enabled(s, e)
    requires !e.ConnectStart? && !e.Mount? && e != Revoked(false)
    ensures NoneOutlives(Next(s, e)) && (Next(s, e).revoking == 0 ==> Next(s, e).session.None?)
  {
    var t := Next(s, e);
    if !e.Granted? {
      forall n | n in t.requests ensures !CanOutlive(t, t.requests[n]) {
        assert n in s.requests ==> !CanOutlive(s, s.requests[n]);
      }
    }
  }

  lemma {:induction false} NoSessionLeft(s: App, events: seq<Event>)
    requires NoneOutlives(s) && (s.revoking == 0 ==> s.session.None?) && RunsOut(s, events)
    ensures Run(s, events).session.None?
    decreases |events|
  {
    if events != [] {
      var e := events[0];
      assert !e.ConnectStart? && !e.Mount? && e != Revoked(false);
      NoneOutlivesStep(s, e);
      NoSessionLeft(Next(s, e), events[1..]);
    }
  }

  lemma RunsOutCons(s: App, e: Event, events: seq<Event>)
    requires Enabled(s, e) && RunsOut(Next(s, e), events)
    requires !e.ConnectStart? && !e.Mount? && e != Revoked(false)
    ensures RunsOut(s, [e] + events) && Run(s, [e] + events) == Run(Next(s, e), events)
  {
    RunCons(s, e, events);
  }

  /** The revocations land, then a request that is under way is granted. */
  lemma {:induction false} GrantedLate(s: App, n: nat) returns (events: seq<Event>)
    requires n in s.requests && Acceptable(s.requests[n])
    ensures RunsOut(s, events) && Run(s, events).wallet == s.wallet && Run(s, events).session.Some?
    decreases s.revoking
  {
    var e := if s.revoking == 0 then Granted(n, true) else Revoked(true);
    if s.revoking == 0 { events := []; } else { events := GrantedLate(Next(s, e), n); }
    RunsOutCons(s, e, events);
    events := [e] + events;
  }

  lemma RequestOutlives(s: App, n: nat) returns (events: seq<Event>)
    requires n in s.requests && CanOutlive(s, s.requests[n])
    ensures RunsOut(s, events) && Run(s, events).wallet == s.wallet && Run(s, events).session.Some?
  {
    if Acceptable(s.requests[n]) {
      events := GrantedLate(s, n);
    } else {
      var post := Posted(n, s.requests[n].canSign);
      events := GrantedLate(Next(s, post), n);
      RunsOutCons(s, post, events);
      events := [post] + events;
    }
  }

  /** A wallet that was awaited is shown and taken down again; its request outlives that too. */
  lemma LateWalletOutlives(s: App, late: Event) returns (events: seq<Event>)
    requires Enabled(s, late) && Shows(late) && IsStellarAddress(Trim(late.key))
    requires if late.Connected? then late.canSign else s.session == Some(Trim(late.key))
    ensures RunsOut(s, events) && Run(s, events).wallet == INITIAL && Run(s, events).session.Some?
  {
    var shown := Next(s, late);
    assert shown.requests[s.count].key == late.key;
    events := RequestOutlives(Next(shown, Event.Disconnect), s.count);
    RunsOutCons(shown, Event.Disconnect, events);
    events := [Event.Disconnect] + events;
    RunsOutCons(s, late, events);
    events := [late] + events;
  }

  lemma StellarAddressIsTrimmed(key: string)
    requires IsStellarAddress(key)
    ensures Trim(key) == key
  {
    TrimOfTrimmed(key);
  }

  /** Unless none outlives the disconnect, a run leaves a live session behind the initial wallet. */
  lemma SessionOutlivesWallet(s: App) returns (events: seq<Event>)
    requires Reachable(s) && !NoneOutlives(s)
    ensures RunsOut(Next(s, Event.Disconnect), events)
    ensures var end := Run(Next(s, Event.Disconnect), events); end.wallet == INITIAL && end.session.Some?
  {
    var t := Next(s, Event.Disconnect);
    ReachableInvariant(s);
    if s.choosing > 0 {
      var key := "G" + seq(55, _ => 'A');
      StellarAddressIsTrimmed(key);
      events := LateWalletOutlives(t, Connected(Albedo, key, "TESTNET", true));
    } else if s.reconnecting > 0 && s.session.Some? {
      StellarAddressIsTrimmed(s.session.value);
      events := LateWalletOutlives(t, Reconnected(Albedo, s.session.value, "TESTNET"));
    } else {
      var n :| n in s.requests && CanOutlive(s, s.requests[n]);
      assert CanOutlive(t, t.requests[n]);
      events := RequestOutlives(t, n);
    }
  }

  /**
   * A disconnect is a full session teardown exactly when no connect is waiting for its wallet, no
   * reconnect is while there is a cookie it could renew, and no session request for a valid account is
   * awaited that has proof of ownership or can still get it, or that carries the account's cookie or
   * can still be sent with it.
   */
  lemma TeardownIff(s: App)
    requires Reachable(s)
    ensures TornDown(Next(s, Event.Disconnect)) <==>
            && s.choosing == 0
            && (s.reconnecting == 0 || s.session.None?)
            && forall n :: n in s.requests ==> !CanOutlive(s, s.requests[n])
  {
    var t := Next(s, Event.Disconnect);
    if NoneOutlives(s) {
      forall n | n in t.requests ensures !CanOutlive(t, t.requests[n]) { assert !CanOutlive(s, s.requests[n]); }
      forall events | RunsOut(t, events) ensures Run(t, events).session.None? { NoSessionLeft(t, events); }
    } else {
      var events := SessionOutlivesWallet(s);
    }
  }
}
