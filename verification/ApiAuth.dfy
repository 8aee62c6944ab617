/**
 * Digest formats, the key lookup and the re-hash on use of `src/lib/api-auth.ts`, over every
 * reachable key table.
 *
 * SHA-256 and Argon2id are functions supplied by the environment; `Sound` says what is asked of
 * them, and only for the raw keys of the run.  The database is a map from row id to row.
 */
module ApiAuth {
  import opened Text
  import Hex
  import ApiKeyFormat

  /** `argonVerify` answers `None` when the KDF throws. */
  datatype Digests = Digests(
    sha: string -> string,
    argonHash: (string, nat) -> string,
    argonVerify: (string, string) -> Option<bool>)

  /** Collision-free on the raw keys `keys`; SHA-256 digests print as lower-case hexadecimal. */
  ghost predicate Sound(d: Digests, keys: set<string>) {
    && (forall k | k in keys :: Hex.AllLower(d.sha(k)))
    && (forall k, k' | k in keys && k' in keys && d.sha(k) == d.sha(k') :: k == k')
    && (forall k, k', salt: nat | k in keys && k' in keys ::
          d.argonVerify(d.argonHash(k, salt), k') == Some(k == k'))
  }

  // ---------------------------------------------------------------- digest formats

  datatype Format = Bare | V1 | V2(salt: nat)

  predicate StartsWith(s: string, prefix: string) { prefix <= s }

  /** `hashApiKey`, `hashApiKeyV1`, `hashApiKeyV2` */
  function Hash(d: Digests, rawKey: string, format: Format): string {
    match format
    case Bare => d.sha(rawKey)
    case V1 => "v1:" + d.sha(rawKey)
    case V2(salt) => "v2:" + d.argonHash(rawKey, salt)
  }

  /** `verifyApiKeyHash` */
  function Verify(d: Digests, rawKey: string, stored: string): bool {
    if StartsWith(stored, "v2:") then d.argonVerify(stored[3..], rawKey) == Some(true)
    else
      var expected := if StartsWith(stored, "v1:") then stored[3..] else stored;
      d.sha(rawKey) == expected
  }

  /** `needsApiKeyRehash` */
  predicate NeedsRehash(stored: string) { !StartsWith(stored, "v2:") }

  lemma PrefixDrop(prefix: string, rest: string)
    ensures StartsWith(prefix + rest, prefix) && (prefix + rest)[|prefix|..] == rest
  {}

  lemma DigestHasNoTag(s: string)
    requires Hex.AllLower(s)
    ensures !StartsWith(s, "v1:") && !StartsWith(s, "v2:")
  {
    if s != "" {
      assert Hex.IsLowerDigit(s[0]);
      assert "v1:"[0] == 'v' && "v2:"[0] == 'v';
    }
  }

  lemma TagsDiffer(rest: string)
    ensures !StartsWith("v1:" + rest, "v2:")
  {
    assert ("v1:" + rest)[1] == '1' && "v2:"[1] == '2';
  }

  /** In every format, a raw key verifies against a digest exactly when the digest was made from it. */
  lemma VerifyIffMadeFrom(d: Digests, keys: set<string>, rawKey: string, origin: string, format: Format)
    requires Sound(d, keys) && rawKey in keys && origin in keys
    ensures Verify(d, rawKey, Hash(d, origin, format)) <==> rawKey == origin
    ensures NeedsRehash(Hash(d, origin, format)) <==> !format.V2?
  {
    match format
    case Bare => DigestHasNoTag(d.sha(origin));
    case V1 =>
      PrefixDrop("v1:", d.sha(origin));
      TagsDiffer(d.sha(origin));
    case V2(salt) => PrefixDrop("v2:", d.argonHash(origin, salt));
  }

  // ---------------------------------------------------------------- the table and its steps

  datatype Row = Row(userId: string, prefix: string, keyHash: string, revoked: bool, expiresAt: Option<int>)

  /** A pending `hashApiKeyV2(rawKey).then(update)`. */
  datatype Job = Job(id: nat, rawKey: string)

  /** A row as the lookup returned it. */
  datatype Candidate = Candidate(id: nat, row: Row)

  /** A request between its lookup and its answer: the candidates still to verify, and the one found. */
  datatype Request = Request(rawKey: string, left: seq<Candidate>, found: Option<Candidate>)

  /**
   * The stored rows, the updates under way, the requests under way and those answered, with the id
   * they were authenticated as.  `origins` remembers the raw key each row was made from; the program
   * never stores it.
   */
  datatype Table = Table(
    rows: map<nat, Row>,
    jobs: multiset<Job>,
    requests: map<nat, Request>,
    answers: map<nat, Option<nat>>,
    origins: map<nat, string>)

  const MAX_CANDIDATES := 10

  /** The ids `findMany({ prefix, revokedAt: null })` ranges over. */
  function Matching(rows: map<nat, Row>, prefix: string): set<nat> {
    set id | id in rows && rows[id].prefix == prefix && !rows[id].revoked
  }

  predicate Distinct(ids: seq<nat>) { forall i, j | 0 <= i < j < |ids| :: ids[i] != ids[j] }

  /** `take: 10` with no order: any ten of the matching rows, in any order. */
  predicate IsSelection(rows: map<nat, Row>, prefix: string, ids: seq<nat>) {
    && Distinct(ids)
    && (forall i | 0 <= i < |ids| :: ids[i] in Matching(rows, prefix))
    && |ids| == (if |Matching(rows, prefix)| < MAX_CANDIDATES then |Matching(rows, prefix)| else MAX_CANDIDATES)
  }

  predicate Expired(row: Row, now: int) { row.expiresAt.Some? && row.expiresAt.value < now }

  function Snapshot(rows: map<nat, Row>, ids: seq<nat>): (candidates: seq<Candidate>)
    requires forall i | 0 <= i < |ids| :: ids[i] in rows
    ensures |candidates| == |ids|
    ensures forall i | 0 <= i < |ids| :: candidates[i] == Candidate(ids[i], rows[ids[i]])
  {
    seq(|ids|, i requires 0 <= i < |ids| => Candidate(ids[i], rows[ids[i]]))
  }

  /** The id a request is answered with. */
  function Reply(found: Option<Candidate>, now: int): Option<nat> {
    if found.None? || Expired(found.value.row, now) then None else Some(found.value.id)
  }

  /** The re-hash an answered request leaves behind. */
  function Rehashes(rawKey: string, found: Option<Candidate>, now: int): multiset<Job> {
    if Reply(found, now).Some? && NeedsRehash(found.value.row.keyHash) then multiset{Job(found.value.id, rawKey)}
    else multiset{}
  }

  datatype Step =
    | Insert(id: nat, userId: string, rawKey: string, format: Format, expiresAt: Option<int>)
    | Revoke(id: nat)
    | SetExpiry(id: nat, at: int)                     // rotation gives the old key a grace period
    | Lookup(r: nat, rawKey: string, ids: seq<nat>)   // the candidates of a request arrive
    | VerifyNext(r: nat)                              // and are verified one after another
    | Answer(r: nat, now: int)                        // until the request is answered
    | Rehash(job: Job, salt: nat)                     // the fire-and-forget update lands
    | Forget(job: Job)                                // or fails and is swallowed

  predicate Enabled(t: Table, step: Step) {
    match step
    case Insert(id, _, rawKey, _, _) => id !in t.rows && id !in t.origins && rawKey !in t.origins.Values
    case Revoke(id) => id in t.rows
    case SetExpiry(id, _) => id in t.rows
    case Lookup(r, rawKey, ids) =>
      && r !in t.requests && r !in t.answers && ApiKeyFormat.Admitted(rawKey)
      && IsSelection(t.rows, ApiKeyFormat.DerivePrefix(rawKey), ids)
    case VerifyNext(r) => r in t.requests && t.requests[r].found.None? && t.requests[r].left != []
    case Answer(r, _) => r in t.requests && (t.requests[r].found.Some? || t.requests[r].left == [])
    case Rehash(job, _) => job in t.jobs
    case Forget(job) => job in t.jobs
  }

  /** The raw key a step brings into the run, if any. */
  function KeyOf(step: Step): set<string> {
    match step
    case Insert(_, _, rawKey, _, _) => {rawKey}
    case Lookup(_, rawKey, _) => {rawKey}
    case _ => {}
  }

  function SetRow(t: Table, id: nat, row: Row): Table { t.(rows := t.rows[id := row]) }

  function Verified(d: Digests, q: Request): Request
    requires q.left != []
  {
    if Verify(d, q.rawKey, q.left[0].row.keyHash) then q.(found := Some(q.left[0])) else q.(left := q.left[1..])
  }

  function Apply(d: Digests, t: Table, step: Step): Table
    requires Enabled(t, step)
  {
    match step
    case Insert(id, userId, rawKey, format, expiresAt) =>
      var row := Row(userId, ApiKeyFormat.DerivePrefix(rawKey), Hash(d, rawKey, format), false, expiresAt);
      SetRow(t, id, row).(origins := t.origins[id := rawKey])
    case Revoke(id) => SetRow(t, id, t.rows[id].(revoked := true))
    case SetExpiry(id, at) => SetRow(t, id, t.rows[id].(expiresAt := Some(at)))
    case Lookup(r, rawKey, ids) => t.(requests := t.requests[r := Request(rawKey, Snapshot(t.rows, ids), None)])
    case VerifyNext(r) => t.(requests := t.requests[r := Verified(d, t.requests[r])])
    case Answer(r, now) =>
      var q := t.requests[r];
      t.(requests := t.requests - {r}, answers := t.answers[r := Reply(q.found, now)],
         jobs := t.jobs + Rehashes(q.rawKey, q.found, now))
    case Rehash(job, salt) =>
      var u := t.(jobs := t.jobs - multiset{job});
      if job.id in t.rows then SetRow(u, job.id, t.rows[job.id].(keyHash := Hash(d, job.rawKey, V2(salt)))) else u
    case Forget(job) => t.(jobs := t.jobs - multiset{job})
  }

  const Empty := Table(map[], multiset{}, map[], map[], map[])

  ghost predicate Run(d: Digests, keys: set<string>, t: Table, steps: seq<Step>, t': Table)
    decreases |steps|
  {
    if steps == [] then t == t'
    else
      && Enabled(t, steps[0])
      && KeyOf(steps[0]) <= keys
      && Run(d, keys, Apply(d, t, steps[0]), steps[1..], t')
  }

  // ---------------------------------------------------------------- the invariant of the table

  /** `row` carries, in one of the three formats, the digest of `origin`. */
  ghost predicate MadeFrom(d: Digests, row: Row, origin: string) {
    row.prefix == ApiKeyFormat.DerivePrefix(origin) && exists format :: row.keyHash == Hash(d, origin, format)
  }

  predicate OriginsDistinct(origins: map<nat, string>) {
    forall i, j | i in origins && j in origins && origins[i] == origins[j] :: i == j
  }

  ghost predicate RowsMade(d: Digests, rows: map<nat, Row>, origins: map<nat, string>) {
    forall id | id in rows :: id in origins && MadeFrom(d, rows[id], origins[id])
  }

  ghost predicate CandidateMade(d: Digests, c: Candidate, origins: map<nat, string>) {
    c.id in origins && MadeFrom(d, c.row, origins[c.id])
  }

  /** The candidates are rows as they once were, and the one found is made from the presented key. */
  ghost predicate RequestOk(d: Digests, keys: set<string>, q: Request, origins: map<nat, string>) {
    && q.rawKey in keys
    && (forall i | 0 <= i < |q.left| :: CandidateMade(d, q.left[i], origins))
    && (q.found.Some? ==> CandidateMade(d, q.found.value, origins) && origins[q.found.value.id] == q.rawKey)
  }

  /** Every row is made from the key remembered for it, and so are the copies requests and updates hold. */
  ghost predicate Invariant(d: Digests, keys: set<string>, t: Table) {
    && (forall id | id in t.origins :: t.origins[id] in keys)
    && OriginsDistinct(t.origins)
    && RowsMade(d, t.rows, t.origins)
    && (forall r | r in t.requests :: r !in t.answers && RequestOk(d, keys, t.requests[r], t.origins))
    && (forall job | job in t.jobs :: job.id in t.origins && t.origins[job.id] == job.rawKey)
  }

  lemma VerifyIffOrigin(d: Digests, keys: set<string>, row: Row, origin: string, rawKey: string)
    requires Sound(d, keys) && MadeFrom(d, row, origin) && origin in keys && rawKey in keys
    ensures Verify(d, rawKey, row.keyHash) <==> rawKey == origin
  {
    var format :| row.keyHash == Hash(d, origin, format);
    VerifyIffMadeFrom(d, keys, rawKey, origin, format);
  }

  lemma InsertKeepsOriginsDistinct(origins: map<nat, string>, id: nat, rawKey: string)
    requires OriginsDistinct(origins) && rawKey !in origins.Values
    ensures OriginsDistinct(origins[id := rawKey])
  {}

  lemma HashMakes(d: Digests, row: Row, origin: string, format: Format)
    requires row.prefix == ApiKeyFormat.DerivePrefix(origin) && row.keyHash == Hash(d, origin, format)
    ensures MadeFrom(d, row, origin)
  {}

  lemma RowsMadeUpdate(d: Digests, rows: map<nat, Row>, origins: map<nat, string>, id: nat, row: Row)
    requires RowsMade(d, rows, origins) && id in origins && MadeFrom(d, row, origins[id])
    ensures RowsMade(d, rows[id := row], origins)
  {}

  lemma RequestOkLater(d: Digests, keys: set<string>, q: Request, origins: map<nat, string>, id: nat, rawKey: string)
    requires RequestOk(d, keys, q, origins) && id !in origins
    ensures RequestOk(d, keys, q, origins[id := rawKey])
  {
    forall i | 0 <= i < |q.left| ensures CandidateMade(d, q.left[i], origins[id := rawKey]) {
      assert CandidateMade(d, q.left[i], origins);
    }
  }

  lemma InvariantInsert(d: Digests, keys: set<string>, t: Table, step: Step)
    requires step.Insert? && Invariant(d, keys, t) && Enabled(t, step) && step.rawKey in keys
    ensures Invariant(d, keys, Apply(d, t, step))
  {
    var t' := Apply(d, t, step);
    InsertKeepsOriginsDistinct(t.origins, step.id, step.rawKey);
    HashMakes(d, t'.rows[step.id], step.rawKey, step.format);
    forall id | id in t'.rows ensures id in t'.origins && MadeFrom(d, t'.rows[id], t'.origins[id]) {
      assert id != step.id ==> id in t.origins && MadeFrom(d, t.rows[id], t.origins[id]);
    }
    forall r | r in t'.requests ensures RequestOk(d, keys, t'.requests[r], t'.origins) {
      RequestOkLater(d, keys, t.requests[r], t.origins, step.id, step.rawKey);
    }
  }

  lemma InvariantRehash(d: Digests, keys: set<string>, t: Table, step: Step)
    requires step.Rehash? && Invariant(d, keys, t) && Enabled(t, step)
    ensures Invariant(d, keys, Apply(d, t, step))
  {
    var t', id := Apply(d, t, step), step.job.id;
    if id in t.rows {
      assert MadeFrom(d, t.rows[id], t.origins[id]);
      HashMakes(d, t'.rows[id], t.origins[id], V2(step.salt));
      RowsMadeUpdate(d, t.rows, t.origins, id, t'.rows[id]);
    }
  }

  lemma MadeFromIgnoresDates(d: Digests, row: Row, row': Row, origin: string)
    requires MadeFrom(d, row, origin) && row'.prefix == row.prefix && row'.keyHash == row.keyHash
    ensures MadeFrom(d, row', origin)
  {}

  lemma InvariantDates(d: Digests, keys: set<string>, t: Table, step: Step)
    requires (step.Revoke? || step.SetExpiry?) && Invariant(d, keys, t) && Enabled(t, step)
    ensures Invariant(d, keys, Apply(d, t, step))
  {
    var t' := Apply(d, t, step);
    MadeFromIgnoresDates(d, t.rows[step.id], t'.rows[step.id], t.origins[step.id]);
    RowsMadeUpdate(d, t.rows, t.origins, step.id, t'.rows[step.id]);
  }

  lemma InvariantLookup(d: Digests, keys: set<string>, t: Table, step: Step)
    requires step.Lookup? && Invariant(d, keys, t) && Enabled(t, step) && step.rawKey in keys
    ensures Invariant(d, keys, Apply(d, t, step))
  {
    var t' := Apply(d, t, step);
    var q := t'.requests[step.r];
    forall i | 0 <= i < |q.left| ensures CandidateMade(d, q.left[i], t.origins) {
      assert step.ids[i] in Matching(t.rows, ApiKeyFormat.DerivePrefix(step.rawKey));
    }
  }

  lemma InvariantVerify(d: Digests, keys: set<string>, t: Table, step: Step)
    requires step.VerifyNext? && Sound(d, keys) && Invariant(d, keys, t) && Enabled(t, step)
    ensures Invariant(d, keys, Apply(d, t, step))
  {
    var q := t.requests[step.r];
    assert RequestOk(d, keys, q, t.origins) && CandidateMade(d, q.left[0], t.origins);
    VerifyIffOrigin(d, keys, q.left[0].row, t.origins[q.left[0].id], q.rawKey);
    assert RequestOk(d, keys, Verified(d, q), t.origins);
  }

  lemma InvariantStep(d: Digests, keys: set<string>, t: Table, step: Step)
    requires Sound(d, keys) && Invariant(d, keys, t) && Enabled(t, step) && KeyOf(step) <= keys
    ensures Invariant(d, keys, Apply(d, t, step))
  {
    match step
    case Insert(_, _, rawKey, _, _) =>
      assert rawKey in KeyOf(step);
      InvariantInsert(d, keys, t, step);
    case Lookup(_, rawKey, _) =>
      assert rawKey in KeyOf(step);
      InvariantLookup(d, keys, t, step);
    case VerifyNext(_) => InvariantVerify(d, keys, t, step);
    case Answer(r, _) => assert RequestOk(d, keys, t.requests[r], t.origins);
    case Rehash(_, _) => InvariantRehash(d, keys, t, step);
    case Revoke(_) => InvariantDates(d, keys, t, step);
    case SetExpiry(_, _) => InvariantDates(d, keys, t, step);
    case Forget(_) =>
  }

  lemma {:induction false} InvariantRun(d: Digests, keys: set<string>, t: Table, steps: seq<Step>, t': Table)
    requires Sound(d, keys) && Invariant(d, keys, t) && Run(d, keys, t, steps, t')
    ensures Invariant(d, keys, t')
    decreases |steps|
  {
    if steps != [] {
      InvariantStep(d, keys, t, steps[0]);
      InvariantRun(d, keys, Apply(d, t, steps[0]), steps[1..], t');
    }
  }

  /**
   * In every reachable table, whatever formats its rows are in and whatever re-hashes have landed,
   * a raw key verifies against a row exactly when the row was made from it.
   */
  lemma ReachableTablesVerify(d: Digests, keys: set<string>, steps: seq<Step>, t: Table, id: nat, rawKey: string)
    requires Sound(d, keys) && Run(d, keys, Empty, steps, t) && id in t.rows && rawKey in keys
    ensures id in t.origins && (Verify(d, rawKey, t.rows[id].keyHash) <==> rawKey == t.origins[id])
  {
    InvariantRun(d, keys, Empty, steps, t);
    VerifyIffOrigin(d, keys, t.rows[id], t.origins[id], rawKey);
  }

  /** What one step does to one row. */
  lemma RowStep(d: Digests, t: Table, step: Step, id: nat)
    requires Enabled(t, step) && id in t.rows
    ensures var t' := Apply(d, t, step);
            && id in t'.rows
            && (t'.rows[id].revoked <==> t.rows[id].revoked || step == Revoke(id))
            && t'.rows[id].keyHash == if step.Rehash? && step.job.id == id then Hash(d, step.job.rawKey, V2(step.salt))
                                      else t.rows[id].keyHash
  {
    match step
    case Insert(_, _, _, _, _) =>
    case Revoke(_) =>
    case SetExpiry(_, _) =>
    case Lookup(_, _, _) =>
    case VerifyNext(_) =>
    case Answer(_, _) =>
    case Rehash(_, _) =>
    case Forget(_) =>
  }

  /** Owner and prefix never change, and the expiry time only by a rotation. */
  lemma ExpiryStep(d: Digests, t: Table, step: Step, id: nat)
    requires Enabled(t, step) && id in t.rows
    ensures var row, row' := t.rows[id], Apply(d, t, step).rows[id];
            && row'.userId == row.userId && row'.prefix == row.prefix
            && row'.expiresAt == if step.SetExpiry? && step.id == id then Some(step.at) else row.expiresAt
  {
    if step.Insert? {
    } else if step.Rehash? || step.Revoke? || step.SetExpiry? {
    } else {
      assert Apply(d, t, step).rows == t.rows;
    }
  }

  /** A row in the current format stays in it, and no step changes the key a row answers to. */
  lemma MigrationOnlyAdvances(d: Digests, keys: set<string>, t: Table, step: Step, id: nat)
    requires Invariant(d, keys, t) && Enabled(t, step) && id in t.rows
    ensures var t' := Apply(d, t, step);
            && id in t'.rows && id in t'.origins && t'.origins[id] == t.origins[id]
            && (!NeedsRehash(t.rows[id].keyHash) ==> !NeedsRehash(t'.rows[id].keyHash))
            && (step.Rehash? && step.job.id == id ==> !NeedsRehash(t'.rows[id].keyHash))
            && (t.rows[id].revoked ==> t'.rows[id].revoked)
  {
    RowStep(d, t, step, id);
    if step.Rehash? { PrefixDrop("v2:", d.argonHash(step.job.rawKey, step.salt)); }
    OriginStays(d, t, step, id);
  }

  lemma OriginStays(d: Digests, t: Table, step: Step, id: nat)
    requires Enabled(t, step) && id in t.origins
    ensures id in Apply(d, t, step).origins && Apply(d, t, step).origins[id] == t.origins[id]
  {}

  /** Answering with a row that is not in the current format, and only that, leaves one update behind. */
  lemma AnswerSchedulesRehash(d: Digests, t: Table, answer: Step)
    requires answer.Answer? && Enabled(t, answer) && t.requests[answer.r].found.Some?
    ensures var q, t' := t.requests[answer.r], Apply(d, t, answer);
            t'.jobs == if t'.answers[answer.r].Some? && !("v2:" <= q.found.value.row.keyHash)
                       then t.jobs + multiset{Job(q.found.value.id, q.rawKey)} else t.jobs
  {}

  /** An update that lands puts its row into the current format; landed or failed, it is gone. */
  lemma RehashLands(d: Digests, t: Table, job: Job, salt: nat)
    requires job in t.jobs
    ensures Apply(d, t, Rehash(job, salt)).jobs == t.jobs[job := t.jobs[job] - 1]
    ensures job.id in t.rows ==>
              Apply(d, t, Rehash(job, salt)).rows ==
              t.rows[job.id := t.rows[job.id].(keyHash := "v2:" + d.argonHash(job.rawKey, salt))]
    ensures Apply(d, t, Forget(job)) == t.(jobs := t.jobs[job := t.jobs[job] - 1])
  {}

  // ---------------------------------------------------------------- one request among the others

  /** The first candidate that verifies. */
  function FirstMatch(d: Digests, rawKey: string, candidates: seq<Candidate>): (found: Option<Candidate>)
    ensures found.Some? ==> found.value in candidates && Verify(d, rawKey, found.value.row.keyHash)
    ensures found.None? ==> forall i | 0 <= i < |candidates| :: !Verify(d, rawKey, candidates[i].row.keyHash)
  {
    if candidates == [] then None
    else if Verify(d, rawKey, candidates[0].row.keyHash) then Some(candidates[0])
    else FirstMatch(d, rawKey, candidates[1..])
  }

  /** The row a request with `rawKey` is authenticated as, for one choice of candidates from `rows`. */
  function Authenticated(d: Digests, rawKey: string, rows: map<nat, Row>, ids: seq<nat>, now: int): Option<nat>
    requires forall i | 0 <= i < |ids| :: ids[i] in rows
  {
    if !ApiKeyFormat.Admitted(rawKey) then None
    else Reply(FirstMatch(d, rawKey, Snapshot(rows, ids)), now)
  }

  /** What a request under way will find. */
  function WillFind(d: Digests, q: Request): Option<Candidate> {
    if q.found.Some? then q.found else FirstMatch(d, q.rawKey, q.left)
  }

  /** As long as a request is under way, no step of any request changes what it will find. */
  lemma WillFindStays(d: Digests, t: Table, step: Step, r: nat)
    requires Enabled(t, step) && r in t.requests
    ensures var t' := Apply(d, t, step);
            if r in t'.requests then
              WillFind(d, t'.requests[r]) == WillFind(d, t.requests[r]) && t'.requests[r].rawKey == t.requests[r].rawKey
            else r in t'.answers
  {
    if step == VerifyNext(r) {
      var q := t.requests[r];
      assert q.left == [q.left[0]] + q.left[1..];
    }
  }

  lemma {:induction false} AnsweredStays(d: Digests, keys: set<string>, t: Table, steps: seq<Step>, t': Table, r: nat)
    requires Run(d, keys, t, steps, t') && r !in t.requests && r in t.answers
    ensures r !in t'.requests
    decreases |steps|
  {
    if steps != [] { AnsweredStays(d, keys, Apply(d, t, steps[0]), steps[1..], t', r); }
  }

  lemma {:induction false} WillFindRun(d: Digests, keys: set<string>, t: Table, steps: seq<Step>, t': Table, r: nat)
    requires Run(d, keys, t, steps, t') && r in t.requests && r in t'.requests
    ensures WillFind(d, t'.requests[r]) == WillFind(d, t.requests[r]) && t'.requests[r].rawKey == t.requests[r].rawKey
    decreases |steps|
  {
    if steps != [] {
      var u := Apply(d, t, steps[0]);
      WillFindStays(d, t, steps[0], r);
      if r !in u.requests { AnsweredStays(d, keys, u, steps[1..], t', r); }
      WillFindRun(d, keys, u, steps[1..], t', r);
    }
  }

  /**
   * However its verifications interleave with other requests, updates and revocations, a request is
   * answered as if it had run in one go at its lookup.
   */
  lemma AnsweredAsAtLookup(d: Digests, keys: set<string>, t: Table, lookup: Step, steps: seq<Step>, t': Table,
                           answer: Step)
    requires lookup.Lookup? && Enabled(t, lookup) && Run(d, keys, Apply(d, t, lookup), steps, t')
    requires answer.Answer? && answer.r == lookup.r && Enabled(t', answer)
    ensures forall i | 0 <= i < |lookup.ids| :: lookup.ids[i] in t.rows
    ensures var answered := Apply(d, t', answer).answers[lookup.r];
            && answered == Authenticated(d, lookup.rawKey, t.rows, lookup.ids, answer.now)
            && var found := FirstMatch(d, lookup.rawKey, Snapshot(t.rows, lookup.ids));
               if found.None? then answered == None
               else
                 var expiresAt := found.value.row.expiresAt;
                 answered == if expiresAt.Some? ==> answer.now <= expiresAt.value then Some(found.value.id) else None
  {
    var prefix := ApiKeyFormat.DerivePrefix(lookup.rawKey);
    assert forall i | 0 <= i < |lookup.ids| :: lookup.ids[i] in Matching(t.rows, prefix);
    WillFindRun(d, keys, Apply(d, t, lookup), steps, t', lookup.r);
  }

  /** A row is revoked at the end of a run exactly when it was before, or a step of the run revoked it. */
  lemma {:induction false} RevokedIff(d: Digests, keys: set<string>, t: Table, steps: seq<Step>, t': Table, id: nat)
    requires Run(d, keys, t, steps, t') && id in t.rows
    ensures id in t'.rows && (t'.rows[id].revoked <==> t.rows[id].revoked || Revoke(id) in steps)
    decreases |steps|
  {
    if steps != [] {
      RowStep(d, t, steps[0], id);
      RevokedIff(d, keys, Apply(d, t, steps[0]), steps[1..], t', id);
      assert steps == [steps[0]] + steps[1..];
    }
  }

  /**
   * Authentication only ever returns a row made from the presented key that was unrevoked at the
   * lookup and, by what the lookup read, is unexpired at the answer.  It is still unrevoked at the
   * answer exactly when it was not revoked in between.
   */
  lemma AuthenticationIsSound(d: Digests, keys: set<string>, t: Table, lookup: Step, steps: seq<Step>, t': Table,
                              answer: Step)
    requires Sound(d, keys) && Invariant(d, keys, t) && lookup.Lookup? && lookup.rawKey in keys && Enabled(t, lookup)
    requires Run(d, keys, Apply(d, t, lookup), steps, t')
    requires answer.Answer? && answer.r == lookup.r && Enabled(t', answer)
    ensures var id := Apply(d, t', answer).answers[lookup.r];
            id.Some? ==>
              && id.value in t.rows && id.value in t.origins && id.value in t'.rows
              && t.origins[id.value] == lookup.rawKey
              && !t.rows[id.value].revoked
              && (t.rows[id.value].expiresAt.Some? ==> answer.now <= t.rows[id.value].expiresAt.value)
              && (t'.rows[id.value].revoked <==> Revoke(id.value) in steps)
  {
    AnsweredAsAtLookup(d, keys, t, lookup, steps, t', answer);
    var found := FirstMatch(d, lookup.rawKey, Snapshot(t.rows, lookup.ids));
    if Reply(found, answer.now).Some? {
      var id := found.value.id;
      assert id in Matching(t.rows, ApiKeyFormat.DerivePrefix(lookup.rawKey));
      VerifyIffOrigin(d, keys, t.rows[id], t.origins[id], lookup.rawKey);
      RevokedIff(d, keys, Apply(d, t, lookup), steps, t', id);
    }
  }

  lemma {:induction false} VerifyOn(d: Digests, keys: set<string>, t: Table, r: nat)
    returns (steps: seq<Step>, t': Table)
    requires r in t.requests
    ensures Run(d, keys, t, steps, t') && t'.rows == t.rows && forall now :: Enabled(t', Answer(r, now))
    decreases if r in t.requests then |t.requests[r].left| else 0
  {
    var q := t.requests[r];
    if q.found.Some? || q.left == [] {
      steps, t' := [], t;
    } else {
      var u := Apply(d, t, VerifyNext(r));
      if u.requests[r].found.Some? { steps, t' := [], u; } else { steps, t' := VerifyOn(d, keys, u, r); }
      assert ([VerifyNext(r)] + steps)[1..] == steps;
      steps := [VerifyNext(r)] + steps;
    }
  }

  lemma AuthenticatedIsRow(d: Digests, rawKey: string, rows: map<nat, Row>, ids: seq<nat>, now: int)
    requires forall i | 0 <= i < |ids| :: ids[i] in rows
    ensures var id := Authenticated(d, rawKey, rows, ids, now); id.Some? ==> id.value in rows
  {}

  /** Run on from a state of the request, after `first`, to where it can be answered. */
  lemma VerifyAfter(d: Digests, keys: set<string>, t: Table, first: Step, r: nat) returns (steps: seq<Step>, t': Table)
    requires Enabled(t, first) && first.Revoke? && r in t.requests
    ensures Run(d, keys, t, [first] + steps, t') && t'.rows == Apply(d, t, first).rows
    ensures forall now :: Enabled(t', Answer(r, now))
  {
    steps, t' := VerifyOn(d, keys, Apply(d, t, first), r);
    assert ([first] + steps)[1..] == steps;
  }

  /** Whenever a request would be authenticated, a revocation after its lookup comes too late for it. */
  lemma RevokedWhileVerified(d: Digests, keys: set<string>, t: Table, lookup: Step, now: int, id: nat)
    returns (steps: seq<Step>, t': Table)
    requires lookup.Lookup? && Enabled(t, lookup) && forall i | 0 <= i < |lookup.ids| :: lookup.ids[i] in t.rows
    requires Authenticated(d, lookup.rawKey, t.rows, lookup.ids, now) == Some(id)
    ensures Run(d, keys, Apply(d, t, lookup), [Revoke(id)] + steps, t')
    ensures id in t'.rows && t'.rows[id].revoked
    ensures Enabled(t', Answer(lookup.r, now)) && Apply(d, t', Answer(lookup.r, now)).answers[lookup.r] == Some(id)
  {
    AuthenticatedIsRow(d, lookup.rawKey, t.rows, lookup.ids, now);
    steps, t' := VerifyAfter(d, keys, Apply(d, t, lookup), Revoke(id), lookup.r);
    AnsweredAsAtLookup(d, keys, t, lookup, [Revoke(id)] + steps, t', Answer(lookup.r, now));
  }

  // ---------------------------------------------------------------- the code between the awaits

  /** The candidate loop: stop at the first candidate that verifies. */
  method FindCandidate(d: Digests, rawKey: string, candidates: seq<Candidate>) returns (apiKey: Option<Candidate>)
    ensures apiKey == FirstMatch(d, rawKey, candidates)
  {
    apiKey := None;
    for i := 0 to |candidates|
      invariant FirstMatch(d, rawKey, candidates) == FirstMatch(d, rawKey, candidates[i..])
    {
      assert candidates[i..][1..] == candidates[i + 1..];
      if Verify(d, rawKey, candidates[i].row.keyHash) {
        return Some(candidates[i]);
      }
    }
  }

  class KeyStore {
    var rows: map<nat, Row>
    var jobs: multiset<Job>
    /** The requests and origins, which no field holds. */
    ghost var outside: Table

    ghost function State(): Table
      reads this
    {
      outside.(rows := rows, jobs := jobs)
    }

    /** From the format check to the answer of `findMany`: `None` rejects the request. */
    method BeginRequest(d: Digests, ghost r: nat, rawKey: string, ids: seq<nat>)
      returns (candidates: Option<seq<Candidate>>)
      requires r !in outside.requests && r !in outside.answers
      requires IsSelection(rows, ApiKeyFormat.DerivePrefix(rawKey), ids)
      modifies this`outside
      ensures candidates.Some? <==> ApiKeyFormat.Admitted(rawKey)
      ensures candidates.Some? ==>
                && State() == Apply(d, old(State()), Lookup(r, rawKey, ids))
                && candidates.value == State().requests[r].left
      ensures candidates.None? ==> State() == old(State())
    {
      if !ApiKeyFormat.Admitted(rawKey) { return None; }
      assert forall i | 0 <= i < |ids| :: ids[i] in Matching(rows, ApiKeyFormat.DerivePrefix(rawKey));
      candidates := Some(Snapshot(rows, ids));
      outside := outside.(requests := outside.requests[r := Request(rawKey, candidates.value, None)]);
    }

    /** From the end of the candidate loop to the return: the expiry check and the scheduling of the re-hash. */
    method EndRequest(d: Digests, ghost r: nat, rawKey: string, apiKey: Option<Candidate>, now: int)
      returns (id: Option<nat>)
      requires Enabled(State(), Answer(r, now))
      requires outside.requests[r].found == apiKey && outside.requests[r].rawKey == rawKey
      modifies this
      ensures State() == Apply(d, old(State()), Answer(r, now)) && id == State().answers[r]
      ensures id == if apiKey.Some? && (apiKey.value.row.expiresAt.Some? ==> now <= apiKey.value.row.expiresAt.value)
                    then Some(apiKey.value.id) else None
    {
      id := None;
      if apiKey.Some? && !(apiKey.value.row.expiresAt.Some? && apiKey.value.row.expiresAt.value < now) {
        id := Some(apiKey.value.id);
        if NeedsRehash(apiKey.value.row.keyHash) { jobs := jobs + multiset{Job(apiKey.value.id, rawKey)}; }
      }
      assert id == Reply(apiKey, now) && jobs == old(jobs) + Rehashes(rawKey, apiKey, now);
      outside := outside.(requests := outside.requests - {r}, answers := outside.answers[r := id]);
    }

    /** The update behind a scheduled re-hash. */
    method FinishRehash(d: Digests, job: Job, salt: nat)
      requires job in jobs
      modifies this
      ensures State() == Apply(d, old(State()), Rehash(job, salt))
    {
      if job.id in rows {
        rows := rows[job.id := rows[job.id].(keyHash := Hash(d, job.rawKey, V2(salt)))];
      }
      jobs := jobs - multiset{job};
    }
  }

  // ---------------------------------------------------------------- when a valid key is found

  function Elements(ids: seq<nat>): set<nat> { set i | 0 <= i < |ids| :: ids[i] }

  lemma {:induction false} DistinctCardinality(ids: seq<nat>)
    requires Distinct(ids)
    ensures |Elements(ids)| == |ids|
  {
    if ids != [] {
      var front, last := ids[..|ids| - 1], ids[|ids| - 1];
      DistinctCardinality(front);
      assert last !in Elements(front);
      assert Elements(ids) == Elements(front) + {last};
    }
  }

  lemma SubsetOfEqualSize<T>(a: set<T>, b: set<T>)
    requires a <= b && |a| >= |b|
    ensures a == b
  {
    assert b == a + (b - a);
    assert |b| == |a| + |b - a|;
  }

  /** With at most ten matching rows every selection holds all of them. */
  lemma SelectionHoldsAll(rows: map<nat, Row>, prefix: string, ids: seq<nat>, id: nat)
    requires IsSelection(rows, prefix, ids) && |Matching(rows, prefix)| <= MAX_CANDIDATES
    requires id in Matching(rows, prefix)
    ensures id in ids
  {
    DistinctCardinality(ids);
    SubsetOfEqualSize(Elements(ids), Matching(rows, prefix));
    assert id in Elements(ids);
  }

  lemma {:induction false} ListOf(s: set<nat>, n: nat) returns (ids: seq<nat>)
    requires n <= |s|
    ensures Distinct(ids) && |ids| == n && forall i | 0 <= i < n :: ids[i] in s
  {
    if n == 0 {
      ids := [];
    } else {
      var x :| x in s;
      var rest := ListOf(s - {x}, n - 1);
      ids := [x] + rest;
    }
  }

  /** The row is found whichever ten candidates the database returns. */
  ghost predicate AlwaysFound(d: Digests, rawKey: string, rows: map<nat, Row>, now: int, id: nat) {
    forall ids | IsSelection(rows, ApiKeyFormat.DerivePrefix(rawKey), ids) ::
      && (forall i | 0 <= i < |ids| :: ids[i] in Matching(rows, ApiKeyFormat.DerivePrefix(rawKey)))
      && Authenticated(d, rawKey, rows, ids, now) == Some(id)
  }

  /** The candidate that verifies is the row made from the key. */
  lemma FoundIsOrigin(d: Digests, keys: set<string>, t: Table, rawKey: string, ids: seq<nat>)
    requires Sound(d, keys) && Invariant(d, keys, t) && rawKey in keys
    requires forall i | 0 <= i < |ids| :: ids[i] in t.rows
    ensures var found := FirstMatch(d, rawKey, Snapshot(t.rows, ids));
            found.Some? ==>
              && found.value.id in ids && t.origins[found.value.id] == rawKey
              && found.value.row == t.rows[found.value.id]
  {
    var found := FirstMatch(d, rawKey, Snapshot(t.rows, ids));
    if found.Some? {
      VerifyIffOrigin(d, keys, found.value.row, t.origins[found.value.id], rawKey);
    }
  }

  lemma ListedIsFound(d: Digests, keys: set<string>, t: Table, rawKey: string, ids: seq<nat>, now: int, id: nat)
    requires Sound(d, keys) && Invariant(d, keys, t) && rawKey in keys && ApiKeyFormat.Admitted(rawKey)
    requires id in t.rows && t.origins[id] == rawKey && !Expired(t.rows[id], now)
    requires (forall i | 0 <= i < |ids| :: ids[i] in t.rows) && id in ids
    ensures Authenticated(d, rawKey, t.rows, ids, now) == Some(id)
  {
    var candidates := Snapshot(t.rows, ids);
    var i :| 0 <= i < |ids| && ids[i] == id;
    VerifyIffOrigin(d, keys, candidates[i].row, t.origins[id], rawKey);
    FoundIsOrigin(d, keys, t, rawKey, ids);
  }

  /**
   * The exact condition under which a live key is sure to authenticate: at most ten unrevoked rows
   * share its eight-character prefix.
   */
  lemma AlwaysFoundIffFewRows(d: Digests, keys: set<string>, t: Table, rawKey: string, now: int, id: nat)
    requires Sound(d, keys) && Invariant(d, keys, t) && rawKey in keys && ApiKeyFormat.Admitted(rawKey)
    requires id in t.rows && t.origins[id] == rawKey && !t.rows[id].revoked
    requires t.rows[id].expiresAt.Some? ==> now <= t.rows[id].expiresAt.value
    ensures AlwaysFound(d, rawKey, t.rows, now, id) <==>
            |Matching(t.rows, ApiKeyFormat.DerivePrefix(rawKey))| <= 10
  {
    var prefix := ApiKeyFormat.DerivePrefix(rawKey);
    var all := Matching(t.rows, prefix);
    assert MadeFrom(d, t.rows[id], rawKey);
    if |all| <= MAX_CANDIDATES {
      forall ids | IsSelection(t.rows, prefix, ids)
        ensures forall i | 0 <= i < |ids| :: ids[i] in Matching(t.rows, prefix)
        ensures Authenticated(d, rawKey, t.rows, ids, now) == Some(id)
      {
        SelectionHoldsAll(t.rows, prefix, ids, id);
        ListedIsFound(d, keys, t, rawKey, ids, now, id);
      }
    } else {
      var ids := ListOf(all - {id}, MAX_CANDIDATES);
      assert IsSelection(t.rows, prefix, ids);
      FoundIsOrigin(d, keys, t, rawKey, ids);
      assert Authenticated(d, rawKey, t.rows, ids, now) != Some(id);
    }
  }

  lemma MatchingInsert(rows: map<nat, Row>, id: nat, row: Row, prefix: string)
    requires id !in rows && row.prefix == prefix && !row.revoked
    ensures Matching(rows[id := row], prefix) == Matching(rows, prefix) + {id}
    ensures |Matching(rows[id := row], prefix)| == |Matching(rows, prefix)| + 1
  {
    assert Matching(rows[id := row], prefix) == Matching(rows, prefix) + {id};
  }

  /** A key that is created is sure to authenticate exactly if at most nine live keys have its prefix by then. */
  lemma CreatedKeyIsFoundIff(d: Digests, keys: set<string>, t: Table, insert: Step, now: int)
    requires Sound(d, keys) && Invariant(d, keys, t) && insert.Insert? && Enabled(t, insert) && insert.rawKey in keys
    requires ApiKeyFormat.Admitted(insert.rawKey) && (insert.expiresAt.Some? ==> now <= insert.expiresAt.value)
    ensures AlwaysFound(d, insert.rawKey, Apply(d, t, insert).rows, now, insert.id) <==>
            |Matching(t.rows, ApiKeyFormat.DerivePrefix(insert.rawKey))| <= 9
  {
    var t' := Apply(d, t, insert);
    InvariantInsert(d, keys, t, insert);
    MatchingInsert(t.rows, insert.id, t'.rows[insert.id], ApiKeyFormat.DerivePrefix(insert.rawKey));
    AlwaysFoundIffFewRows(d, keys, t', insert.rawKey, now, insert.id);
  }

  /** The prefix does not tell standardized keys of one environment apart. */
  lemma StandardKeysShareOnePrefix(env: ApiKeyFormat.Env, random: seq<bv8>)
    ensures ApiKeyFormat.DerivePrefix(ApiKeyFormat.Generate(env, random)) ==
            if env.Live? then "op_live_" else "op_test_"
  {}
}
