# OphirPay: a verified model of the TypeScript layer

This project models, in Dafny 4.11, the parts of OphirPay's TypeScript code whose correctness depends
on many branches, on state that several requests share, or on text that is printed by one function and
read by another. Each file is one module; `dafny verify dfyconfig.toml` checks them all.

| file | what it models |
|---|---|
| `Crc32.dfy`, `FrameCheck.dfy`, `Hex.dfy`, `ApiKeyFormat.dfy` | the key format `op_{env}_{hex}_{crc}`: table-driven CRC-32 and the polynomial division it stands for, printer, validator, patterns |
| `ApiAuth.dfy` | the key table with its three digest formats, the candidate lookup, re-hash on use |
| `Idempotency.dfy`, `ApiFetch.dfy` | `withIdempotency` over the Redis claim protocol, and the client's single CSRF retry |
| `ReadCache.dfy`, `CacheFreshness.dfy`, `CacheStaleness.dfy` | the two-tier read-through cache, what a reader may rely on, and how old an answer can be |
| `Numerals.dfy`, `IpText.dfy`, `ClientIp.dfy` | the IPv4 and IPv6 recognisers, and the choice of the client's address |
| `Csv.dfy`, `AuditLog.dfy` | the batched audit-log generator, its CSV export and `parseCsvText`, which reads it back |
| `PaymentHistory.dfy` | reading payment records by id window, and keyset pages over a growing chain |
| `MultiWallet.dfy` | the wallet state and its server session under every order of answers |
| `Stellar.dfy`, `AddressBook.dfy` | the merging CSV import and the other address-book operations |
| `VirtualRows.dfy` | windowing arithmetic of long tables |
| `Text.dfy` | the string and array operations of the JavaScript library the others use |

Code that only computes is a function with lemmas about it. Code that works step by step is a method
proved equal to a function, or an object whose methods state their whole new state. Protocols (claims,
cache, key table, wallet) are state machines whose events are the uninterrupted sections between two
awaits; theorems about them hold for every interleaving. SHA-256, Argon2, JSON and Redis are functions
or objects with stated contracts (`ApiAuth.Sound`, `CacheFreshness.RoundTrips`, `ReadCache.Redis`).

## What the proofs found

In some cases the code does less than its comments, or a reader, would expect. Where a condition decides
whether a promise is kept, the lemma named states it in both directions.

- `withIdempotency` is documented as running a mutation at most once per key
  (`src/lib/api-route.ts:71-87`). The claim reads the remembered response and takes the lock in two
  commands (`src/lib/idempotency.ts:132-142`), so a request that read before the first response was
  stored, and locks after the lock was dropped, runs the handler again and replaces the remembered
  body. As long as the broker answers and leases outlast their handlers, this can happen after a
  remembered success if and only if some request stands between its two commands
  (`Idempotency.RunsAgainIffProbed`). One call of `apiFetch` never commits twice
  (`ApiFetch.OneCallCommitsOnce`), and calls repeated with one key do not if every call but the last
  ended with an answer (`ApiFetch.RetriedCallsCommitOnce`); repeating after a network error can
  (`ApiFetch.RetryWithoutAnswerCommitsTwice`).
- `src/lib/idempotency.ts:20-22` says a replay is served the original 201; `withIdempotency` answers
  409 with the original body, as its own comment says. The model follows the code.
- A comment in `authenticateRequest` (`src/lib/api-auth.ts:229`) says standardized keys are admitted with a
  verified checksum. `API_KEY_LOOKUP_PATTERN` admits every lower-case key of that shape whatever its
  checksum (`ApiKeyFormat.AdmittedIgnoresChecksum`).
- The eight-character prefix of a standardized key is `op_live_` or `op_test_` for everybody, and ten
  candidate rows are tried. A live key is sure to be found if and only if at most ten unrevoked rows
  share its prefix (`ApiAuth.AlwaysFoundIffFewRows`).
- A key that is revoked while its request is being verified still authenticates that request
  (`ApiAuth.RevokedWhileVerified`); nothing else lets a revoked row through
  (`ApiAuth.AuthenticationIsSound`).
- A cached value is documented as acceptable for the length of the TTL only (`src/lib/api-cache.ts:24-28`).
  With Redis that does not hold: a replica that warms its memory from Redis restarts the clock. The ages
  at which memory answers are exactly those up to 2·ttl − 1 milliseconds plus the message lags
  (`CacheStaleness.HitAgesAre`), which is two minutes for the `contracts` scope. A run serves nothing
  older than one TTL if and only if no replica warms its memory with a value loaded earlier
  (`CacheStaleness.WithinTtlIff`).
- A loader in flight across a mutation serves its old value and writes it back after the invalidation.
  Every value served after a mutation is current if and only if no loader in flight holds a value it
  replaces (`CacheFreshness.ServesCurrentIffQuiet`), every later hit if and only if none will cache one
  (`CacheFreshness.HitsCurrentIff`).
- The event history is documented as never skipping records (`src/app/api/events/history/route.ts:47-51`).
  The route takes a short page for the last one, so one record, or the count, that cannot be read at one
  call ends the walk and hides everything older. `PaymentHistory.WalkCompleteIff` gives the exact
  condition, on the counts, windows and reads that the calls meet, for any failures at any calls;
  `PaymentHistory.FailedReadHidesOlder` and `PaymentHistory.FailedCountHidesOlder` are two inputs.
- `stripPort` applied twice differs from once exactly for bracketed texts with white space or an
  `ipv4:port` inside (`ClientIp.StripPortIdempotentIff`), and exactly then `getClientIp` returns more than
  an address (`ClientIp.AnswerIsBareIff`, `ClientIp.BracketsKeepThePort`).
- With fewer valid addresses in `X-Forwarded-For` than trusted proxies, the client chooses the answer
  (`ClientIp.NonInterferenceIff`).
- After a disconnect a wallet can come back by itself if a connect or the reconnect on mount was still
  waiting for it, and only then (`MultiWallet.DisconnectIsFinalIff`).
- A disconnect is documented as a full session teardown (`src/hooks/useMultiWallet.tsx:209-213`). A
  session request still under way can be granted after the revocation and leave a live session behind a
  disconnected wallet: one with proof of ownership, and also a renewal that left with the old cookie,
  since `src/app/api/auth/session/route.ts:66-105` does not ask whether that cookie was revoked. So can
  the request of a connect that was still waiting for its wallet, and of a reconnect while there is a
  cookie to renew. The teardown is certain if and only if none of these is awaited
  (`MultiWallet.TeardownIff`, `MultiWallet.SessionOutlivesWallet`).
- A connect that yields an empty account shows a balance spinner that no load stops
  (`MultiWallet.SpinnerStopsIff`, `MultiWallet.EmptyAccountSpins`).
- The roll-back of a connect takes down whatever wallet is shown, another one's exactly when that was
  shown after it (`MultiWallet.RollBackTakesDownOtherIff`).
- `parseCsvText` drops the first character of a file whose first field starts with U+FEFF, so rows
  printed with such a first field do not read back (`Csv.ReadsBackIff`); the audit export always reads back.
- Overscan zero leaves visible rows unmounted at some scroll offsets; one row of overscan is exactly
  what is needed (`VirtualRows.CoversIff`).

## Model

| member | source | states |
|---|---|---|
| Crc32.FillEntry | src/lib/api-key-format.ts:10-13 | a table entry is eight polynomial steps on its index |
| Crc32.FillTable | src/lib/api-key-format.ts:8-15 | the filled table holds that entry for every byte |
| Crc32.CalculateCrc32 | src/lib/api-key-format.ts:21-29 | the byte loop returns the bit-serial checksum of every byte string, which `FrameCheck` ties to the standard |
| FrameCheck.ChecksumIsRemainder | src/lib/api-key-format.ts:8-29 | the checksum of every byte string is the frame check sequence (section 3.2.9 of IEEE 802.3-2018): the complemented remainder, by the generator with the exponents 32, 26, 23, ..., 1, 0, of the message followed by 32 zeros, its first 32 bits complemented |
| FrameCheck.ResidueOfEveryMessage | src/lib/api-key-format.ts:21-29 | every message followed by its checksum leaves the residue 0xDEBB20E3 |
| FrameCheck.CheckValue | src/lib/api-key-format.ts:21-29 | the checksum of "123456789" is 0xCBF43926 |
| Crc32.ByteStep | src/lib/api-key-format.ts:25 | one table step equals eight steps of the bit-serial register, for any register and byte |
| Crc32.DifferenceSurvives | src/lib/api-key-format.ts:24-26 | two different registers never become equal on equal input |
| Crc32.WindowDetected | src/lib/api-key-format.ts:24-26 | two different windows of at most 32 bits leave any register in different states |
| Crc32.BurstDetected | src/lib/api-key-format.ts:21-29 | messages of any length that differ inside 32 consecutive bits leave different registers |
| Crc32.FourByteBurstDetected | src/lib/api-key-format.ts:21-29 | messages of any length that differ only inside four consecutive bytes have different checksums |
| Hex.ToBytesOfBytes | src/lib/api-auth.ts:68-70 | bytes printed in hexadecimal read back as the same bytes |
| Hex.OfBytesToBytes | src/lib/api-auth.ts:68-70 | an even-length lower-case hexadecimal text is the print of the bytes read from it |
| Hex.Word8Laws | src/lib/api-key-format.ts:28 | a checksum prints as exactly eight lower-case hexadecimal digits |
| Hex.Word8Injective | src/lib/api-key-format.ts:28 | different checksums print differently |
| Hex.Texts | src/lib/api-key-format.ts:28 | the digits of words, in the order in which they are written |
| Hex.DigitNumbers | src/lib/api-key-format.ts:28 | the number each hexadecimal digit stands for |
| Hex.BytesAndLetters | src/lib/api-auth.ts:68-70 | the high digit of a byte comes first, and letters are read in either case |
| ApiKeyFormat.MatchOpIffShape | src/lib/api-key-format.ts:123 | the captured groups are found exactly when the string is head, hexadecimal field, `_`, eight digits |
| ApiKeyFormat.TimingSafeHexEqual | src/lib/api-key-format.ts:31-38 | the accumulating comparison is equality, on any two code-unit sequences |
| ApiKeyFormat.ValidateKeyFormat | src/lib/api-key-format.ts:115-149 | the imperative validator returns the verdict the other lemmas are about |
| ApiKeyFormat.ValidIffPrinted | src/lib/api-key-format.ts:115-149 | a key is valid for an environment exactly when it reads as the print of that environment, 32 to 64 digits and their checksum |
| ApiKeyFormat.GeneratedKeyIsAccepted | src/lib/api-auth.ts:64-77 | every generated key passes both creation checks and the creation pattern, and its environment and 32 bytes can be read back |
| ApiKeyFormat.GenerateInjective | src/lib/api-auth.ts:64-77 | two generated keys are equal exactly when environment and bytes are |
| ApiKeyFormat.AcceptedKeyHas64Digits | src/lib/api-key-format.ts:115-199 | what passes both checks carries exactly 64 hexadecimal digits |
| ApiKeyFormat.EntropyOfShape | src/lib/api-key-format.ts:172-199 | a key of the shape carries half a byte a digit and passes from 64 digits on; other texts carry nothing |
| ApiKeyFormat.ChecksAcceptExactlyGeneratedKeys | src/lib/api-key-format.ts:115-199 | the two checks accept exactly the generated keys, up to surrounding white space and digit case |
| ApiKeyFormat.BurstInPayloadRejected | src/lib/api-key-format.ts:140-146 | a valid key altered inside four adjacent payload characters, checksum kept, is rejected for its checksum |
| ApiKeyFormat.EnvironmentSwapRejected | src/lib/api-key-format.ts:131-146 | a live key relabelled test, or the reverse, is rejected |
| ApiKeyFormat.AdmittedIff | src/lib/api-auth.ts:228-232 | the lookup admits the valid keys and exactly the texts `op_live_` or `op_test_`, 32 to 64 digits, `_`, eight digits, and `oph_`, 48 or 64 digits, in lower case |
| ApiKeyFormat.AdmittedIgnoresChecksum | src/lib/api-auth.ts:228-232 | a key of the standardized shape is admitted exactly when it is plain lower case or valid |
| ApiKeyFormat.MistypedKeyIsAdmitted | src/lib/api-key-format.ts:92-94 | a generated key mistyped inside four adjacent digits fails validation and is still admitted |
| ApiAuth.VerifyIffMadeFrom | src/lib/api-auth.ts:152-186 | in each digest format a raw key verifies exactly against digests made from it, and only v2 needs no re-hash |
| ApiAuth.InvariantStep | src/lib/api-auth.ts:237-277 | every insert, revocation, expiry change, lookup, verification, answer, landed or failed re-hash keeps rows, candidates and updates made from their own keys |
| ApiAuth.ReachableTablesVerify | src/lib/api-auth.ts:152-186 | in every reachable table a raw key verifies against a row exactly when the row was made from it |
| ApiAuth.MigrationOnlyAdvances | src/lib/api-auth.ts:264-277 | no step takes a row back from v2 or changes the key it answers to |
| ApiAuth.ExpiryStep | src/lib/api-auth.ts:237-277 | no step changes owner or prefix of a row, and only a rotation its expiry time |
| ApiAuth.AnswerSchedulesRehash | src/lib/api-auth.ts:264-277 | answering with a row that is not in v2 format, and only that, leaves one update behind |
| ApiAuth.RehashLands | src/lib/api-auth.ts:264-277 | an update that lands puts its row into v2 format; landed or failed, it is gone |
| ApiAuth.FindCandidate | src/lib/api-auth.ts:252-258 | the loop stops at the first candidate that verifies |
| ApiAuth.AnsweredAsAtLookup | src/lib/api-auth.ts:236-292 | whatever interleaves with its verifications, a request is answered as if it had run in one go at its lookup: with the first candidate that verifies, exactly when the answer is not later than that row's expiry time |
| ApiAuth.KeyStore.BeginRequest | src/lib/api-auth.ts:226-250 | the section up to the lookup: rejected material, or the candidates as read |
| ApiAuth.KeyStore.EndRequest | src/lib/api-auth.ts:259-292 | the section after the candidate loop: the expiry check, the answer and the scheduled re-hash |
| ApiAuth.KeyStore.FinishRehash | src/lib/api-auth.ts:269-275 | the landed update is the protocol's re-hash step |
| ApiAuth.AuthenticationIsSound | src/lib/api-auth.ts:237-292 | the answer is a row made from the presented key, unrevoked at the lookup, and not past its expiry time as read; still unrevoked at the answer exactly when not revoked in between |
| ApiAuth.RevokedWhileVerified | src/lib/api-auth.ts:237-292 | whenever a request would be authenticated, a run in which its row is revoked right after the lookup still ends with that row as the answer |
| ApiAuth.AlwaysFoundIffFewRows | src/lib/api-auth.ts:237-259 | a live key is found under every choice of candidates exactly when at most ten unrevoked rows share its prefix |
| ApiAuth.CreatedKeyIsFoundIff | src/lib/api-auth.ts:237-259 | a newly created key is found under every choice of candidates exactly when at most nine unrevoked rows had its prefix |
| ApiAuth.StandardKeysShareOnePrefix | src/lib/api-key-format.ts:99-102 | the prefix of a generated key is only its environment head |
| Idempotency.LeaseInvariantStep | src/lib/idempotency.ts:126-186 | every request at work owns the lock until its lease ends, broker errors included |
| Idempotency.LeasedRunsOverlapOnlyAfterExpiry | src/lib/idempotency.ts:136-153 | over every interleaving, leased handler runs overlap only after a lease has run out |
| Idempotency.OneActiveRequest | src/lib/api-route.ts:88-146 | when leases outlast handlers, no two requests are at work at once |
| Idempotency.FailureFreesTheKey | src/lib/api-route.ts:118-145 | a throw, a non-2xx or an unreadable body frees the key at once, and the next request acquires it |
| Idempotency.LockFreesItself | src/lib/idempotency.ts:45-46 | 120 seconds free the key whatever was lost |
| Idempotency.NothingRunsAfterRemember | src/lib/api-route.ts:96-108 | after a remembered success that finds no request between probe and lock, no handler starts and every later request gets the same body |
| Idempotency.StaleProbeRunsAgain | src/lib/idempotency.ts:132-142 | a request that probed too early runs the handler again and replaces the body |
| Idempotency.RunsAgainIffProbed | src/lib/api-route.ts:71-87 | while the broker answers and leases outlast handlers, the handler can run again within the response's lifetime exactly when some request stands between probe and lock |
| Idempotency.TwoCommitsWithOneKey | src/lib/api-route.ts:71-87 | from an empty broker, an orderly run commits twice with one key |
| Idempotency.SerialRetriesCommitOnce | src/lib/api-route.ts:71-87 | retrying one request at a time commits at most once per key |
| Idempotency.HandlerRunsWithoutBroker | src/lib/idempotency.ts:126-185 | in every state, a request whose claim meets a broker error runs its handler, replies what it answers, and stores nothing |
| Idempotency.ReplySurvivesBroker | src/lib/api-route.ts:118-145 | an error after the handler leaves the reply alone, and changes broker state only if the command was applied |
| Idempotency.Broker.Get | src/lib/idempotency.ts:133 | a remembered response is found exactly within its lifetime |
| Idempotency.Broker.SetNx | src/lib/idempotency.ts:136-142 | the lock is taken exactly when no live one exists |
| Idempotency.Broker.DeleteIfOwned | src/lib/idempotency.ts:57-69 | compare-and-delete leaves other tokens and expired locks alone |
| Idempotency.ClaimIdempotencyKey | src/lib/idempotency.ts:126-186 | the claim, whichever of its commands fail, takes the protocol's steps |
| Idempotency.WithIdempotency | src/lib/api-route.ts:88-146 | the code of one uninterrupted request, whichever broker commands fail, leaves broker and reply as the protocol's steps do |
| Idempotency.UninterruptedMeaning | src/lib/api-route.ts:88-146 | reply, lock and remembered response of one request with an answering broker, in each of the three claim outcomes |
| Idempotency.UninterruptedWithoutBroker | src/lib/api-route.ts:84-128 | when a claim command fails, the reply is the handler's own, or the replay the probe had found; nothing is stored |
| ApiFetch.Client.GetCsrfToken | src/hooks/useApiQuery.ts:25-45 | the kept token, or the newly minted one, which is kept unless minting failed |
| ApiFetch.Client.Call | src/hooks/useApiQuery.ts:72-124 | one or two sends with the same key, the second exactly after CSRF_INVALID and a successful mint, with the token minted then; the result is the last answer |
| ApiFetch.OneCallCommitsOnce | src/hooks/useApiQuery.ts:62-71 | over every run of the protocol for the requests of one call, broker failures and requests running on after a failed fetch included, at most one is committed, and a reported success is that one |
| ApiFetch.DuplicateIsReported | src/lib/api-route.ts:97-114 | a replayed or still running mutation reaches the caller as an error with status 409 |
| ApiFetch.LogIsSerial | src/hooks/useApiQuery.ts:72-124 | requests each sent after the answer to the one before reach the server one at a time |
| ApiFetch.RetriedCallsCommitOnce | src/hooks/useApiQuery.ts:62-124 | calls repeated with one key, each with its own second send after a refused token, commit at most once if every call but the last ended with an answer |
| ApiFetch.RetryWithoutAnswerCommitsTwice | src/hooks/useApiQuery.ts:62-71 | repeating a call that got no answer can commit twice |
| ReadCache.TargetsExactly | src/lib/api-cache.ts:72-74 | invalidation reaches a key exactly when the scope is the same and the subject is the named one or extends it with a colon |
| ReadCache.KeysAre | src/lib/api-cache.ts:60-74 | the text of every key |
| ReadCache.Cache.MemoryGet | src/lib/api-cache.ts:86-94 | live entries are returned, expired ones deleted, others untouched |
| ReadCache.Cache.MemorySet | src/lib/api-cache.ts:96-98 | one entry, with a fresh expiry |
| ReadCache.Cache.MemoryDeleteByPrefix | src/lib/api-cache.ts:100-109 | exactly the keys with the prefix are removed and counted |
| ReadCache.Cache.EnsureRedis | src/lib/api-cache.ts:138-181 | connect on first use, or stay on memory for good |
| ReadCache.Cache.WithRedis | src/lib/api-cache.ts:190-205 | which client a command goes to, and that Redis is given up for good when it does not answer |
| ReadCache.Cache.SharedGet | src/lib/api-cache.ts:241-243 | what Redis holds live, or a miss |
| ReadCache.Cache.SharedSet | src/lib/api-cache.ts:263-266 | one entry of the answering server is written and no other |
| ReadCache.Cache.CachedRead | src/lib/api-cache.ts:233-270 | memory, then Redis, then loader; all of memory, the client, its permanent loss, and all entries of every server afterwards; nothing cached when the loader throws |
| ReadCache.ReadAgain | src/lib/api-cache.ts:86-98 | a loaded value answers the reads of its process up to ttl milliseconds later, and, without Redis, no longer |
| ReadCache.ReadElsewhere | src/lib/api-cache.ts:233-270 | a loaded and shared value answers another process for less than ttl milliseconds, not from then on, and from its memory for ttl milliseconds more |
| ReadCache.Cache.ScanDelete | src/lib/api-cache.ts:307-315 | Redis loses exactly what the first ten scan rounds return |
| ReadCache.Cache.InvalidateLocal | src/lib/api-cache.ts:302-305 | memory loses exactly the targeted keys |
| ReadCache.Cache.InvalidateShared | src/lib/api-cache.ts:306-333 | an answering server loses the named key and the scanned ones and nothing else; otherwise Redis is given up for good |
| ReadCache.Cache.InvalidateCache | src/lib/api-cache.ts:298-334 | both tiers after an invalidation |
| ReadCache.SharedTierExactIff | src/lib/api-cache.ts:307-315 | Redis loses exactly the targeted keys when and only when none first turns up after the tenth round |
| CacheFreshness.FreshStep | src/lib/api-cache.ts:233-270 | reads, ticks, failures and quiet mutations keep everything cached or in flight current |
| CacheFreshness.ReadsAreCurrent | src/lib/api-cache.ts:226-270 | after any such run, hit or miss serves what the loader would answer now |
| CacheFreshness.CachedForItsTtl | src/lib/api-cache.ts:86-98 | what a load has cached answers for exactly ttl milliseconds when nothing else happens |
| CacheFreshness.UninterruptedRead | src/lib/api-cache.ts:233-270 | the code of one read in a process without Redis takes the protocol's steps and returns what they serve |
| CacheFreshness.ServesCurrentIffQuiet | src/lib/api-cache.ts:250-267 | after a mutation every value served in every quiet continuation is current exactly when no loader in flight holds a replaced value |
| CacheFreshness.HitsCurrentIff | src/lib/api-cache.ts:250-267 | no later cache hit is stale exactly when no loader in flight will cache a replaced value |
| CacheStaleness.BoundedStep | src/lib/api-cache.ts:238-266 | copies in Redis come from loads only, so each copy's expiry stays bounded by its load time |
| CacheStaleness.InvalidatedIsGone | src/lib/api-cache.ts:292-345 | what an invalidation names is in neither tier afterwards |
| CacheStaleness.ServedAgeBound | src/lib/api-cache.ts:238-266 | with any number of replicas a served value is less than two TTLs and the message lags old |
| CacheStaleness.LocalAgeBound | src/lib/api-cache.ts:86-98 | without Redis it was loaded at most one TTL ago |
| CacheStaleness.HitAgesAre | src/lib/api-cache.ts:238-266 | for every TTL and lags, the ages at which memory can answer are exactly those from zero to that bound |
| CacheStaleness.WithinTtlIff | src/lib/api-cache.ts:238-266 | at every point of a run everything served, now or by waiting, is at most one TTL old, exactly when no live copy outlives its load by more at the start and no step warms memory with a value loaded earlier |
| CacheStaleness.WarmOutlivesIff | src/lib/api-cache.ts:244-247 | after one warming, waiting yields a hit older than one TTL exactly when time had passed since the load |
| CacheStaleness.UninterruptedRead | src/lib/api-cache.ts:233-270 | the code of one read takes steps of the protocol: a hit in memory, a hit in Redis that warms memory, or a load that is shared if Redis answers |
| Numerals.DecimalRoundTrip | src/lib/client-ip.ts:35-37 | a printed numeral reads back, and only zero starts with a zero |
| Numerals.DecimalOfValue | src/lib/client-ip.ts:35-37 | a digit string without a leading zero is the numeral of its value |
| IpText.OctetIffNumeral | src/lib/client-ip.ts:34-38 | a part passes the loop's tests exactly when it is the numeral of a number up to 255 |
| IpText.IsValidIpv4 | src/lib/client-ip.ts:29-40 | the loop accepts exactly four such parts |
| IpText.Ipv4Grammar | src/lib/client-ip.ts:25-40 | accepted exactly when the text prints four octets |
| IpText.Ipv4Unique | src/lib/client-ip.ts:25-40 | the four octets are unique |
| IpText.WellFormedMeans | src/lib/client-ip.ts:42-82 | the forms in numbers: groups of one to four hexadecimal digits, eight in all, a quad counting for two, or fewer with a double colon |
| IpText.IsValidIpv6 | src/lib/client-ip.ts:46-82 | the imperative recogniser decides the predicate the grammar lemmas are about |
| IpText.ReadPrint | src/lib/client-ip.ts:64-80 | the parts and the place of `::` can be read back from a printed text |
| IpText.PrintRead | src/lib/client-ip.ts:64-80 | every text is the print of what is read from it |
| IpText.QuadReplaced | src/lib/client-ip.ts:55-62 | writing `0:0` for the dotted quad gives the same text with two zero groups in its place |
| IpText.WellFormedAccepted | src/lib/client-ip.ts:42-82 | every text of the three forms is accepted |
| IpText.AcceptedQuadText | src/lib/client-ip.ts:55-82 | every accepted text with a dot is a text with a dotted quad |
| IpText.Ipv6Grammar | src/lib/client-ip.ts:42-82 | up to surrounding white space, exactly the three text forms of section 2.2 of RFC 4291 are accepted |
| IpText.AddressUnique | src/lib/client-ip.ts:42-82 | the grammar is unambiguous |
| IpText.PlaceValue | src/lib/client-ip.ts:64-80 | a group is read in base sixteen |
| IpText.QuadIs | src/lib/client-ip.ts:55-62 | a dotted quad stands for two groups of two octets each |
| IpText.ExpandedAt | src/lib/client-ip.ts:64-80 | where the groups of a text come to stand, zeros in the place of the double colon |
| IpText.ExactlyOneAddress | src/lib/client-ip.ts:42-82 | every accepted text stands for exactly one address of eight 16-bit groups |
| ClientIp.StripPortIdempotentIff | src/lib/client-ip.ts:90-113 | stripping twice is stripping once exactly outside the bracketed exceptions |
| ClientIp.StrippedIsBareIff | src/lib/client-ip.ts:90-122 | what is accepted after stripping is an address and nothing else exactly when no brackets held white space or a port around it |
| ClientIp.PortIsStripped | src/lib/client-ip.ts:103-110 | a decimal port is stripped from every printed IPv4 address |
| ClientIp.BracketsAreStripped | src/lib/client-ip.ts:95-100 | brackets, with or without a port after them, are stripped from what they hold |
| ClientIp.TrustedDepth | src/lib/client-ip.ts:127-133 | the explicit depth if positive, else the configured one if positive, else one |
| ClientIp.CfConnectingIpDecides | src/lib/client-ip.ts:165-169 | an address in `cf-connecting-ip` is the answer, whatever the other headers hold |
| ClientIp.TrueClientIpDecides | src/lib/client-ip.ts:165-169 | when that header is absent or blank, an address in `true-client-ip` is |
| ClientIp.ForwardedForDecides | src/lib/client-ip.ts:171-189 | without a usable CDN header, of a forwarded list of addresses the one `depth` places from the right is the answer, or the leftmost of a shorter list |
| ClientIp.RealIpDecides | src/lib/client-ip.ts:193-201 | with nothing usable before it, an address in `x-real-ip` is the answer; with nothing usable at all, the fallback |
| ClientIp.ForwardedPrepended | src/lib/client-ip.ts:171-178 | what stands right of a comma is read as if it stood alone |
| ClientIp.AnswerIsNthFromRight | src/lib/client-ip.ts:180-187 | with `depth - 1` valid addresses after it, an address is the answer whatever stands before it |
| ClientIp.NonInterferenceIff | src/lib/client-ip.ts:158-202 | what a client prepends never matters, exactly when a CDN header decides or the right part holds at least `depth` valid addresses |
| ClientIp.AnswerIsBareIff | src/lib/client-ip.ts:158-202 | the answer is the fallback, or the selected header text stripped and valid; it is a bare address exactly when that text has no brackets holding more |
| ClientIp.BracketsKeepThePort | src/lib/client-ip.ts:158-191 | for a forwarded header `[a.b.c.d:80]` the answer is the inside with its port |
| Csv.ParseCsvText | src/lib/csv-import.ts:27-97 | the reader's loop computes the scan the lemmas are about |
| Csv.ReaderAgreesIff | src/lib/csv-import.ts:20-97 | on a text of section 2 of RFC 4180, in any quoting, with or without a final break, the reader recovers the field values, blank records left out, exactly when the first field loses no byte order mark |
| Csv.AnyBreakReadsAlike | src/lib/csv-import.ts:69-87 | records separated by line feeds or by carriage returns alone are read like those separated by both |
| Csv.GrammarAmbiguity | src/lib/csv-import.ts:20-97 | files with the same text have the same values, or one has an empty last record where the other has a final line break |
| Csv.BreakIsEmptyRecord | src/lib/csv-import.ts:20-97 | that one ambiguity is there for every file |
| Csv.PrintsGrammar | src/lib/audit-log.ts:283-300 | a printed row is a record of the grammar with the row's fields as values |
| Csv.PrintRowInjective | src/lib/audit-log.ts:283-300 | different rows print differently |
| Csv.ReadsBackIff | src/lib/audit-log.ts:282-300 | printed rows read back, blank ones apart, exactly when the first field does not lose a byte order mark |
| AuditLog.IdBatch | src/lib/audit-log.ts:266-271 | the next ids in order, as far as the ledger goes |
| AuditLog.IterateAuditLogEntries | src/lib/audit-log.ts:254-278 | the batches yield the filtered walk of all ids in order, each id read once |
| AuditLog.EachIdOnce | src/lib/audit-log.ts:260-271 | the ids read are 1 to N, none twice |
| AuditLog.AscendingIsReverse | src/lib/audit-log.ts:248-278 | ascending output is descending output backwards |
| AuditLog.WalkFinds | src/lib/audit-log.ts:254-278 | an entry is yielded exactly when it is readable under some id and has the wanted actor, action and target and a time within the bounds |
| AuditLog.CellsUnderHeaders | src/lib/audit-log.ts:289-303 | which field stands under which header of the export |
| AuditLog.Export | src/app/api/audit-log/export/route.ts:91-103 | the streamed file is the header and one line for each entry of the walk |
| AuditLog.ExportReadsBack | src/lib/audit-log.ts:289-303 | the exported file reads back as the header and each entry's cells |
| AuditLog.ExportInjective | src/lib/audit-log.ts:289-303 | the file determines the entries |
| PaymentHistory.FetchOnChainPayments | src/lib/contracts.ts:467-551 | chunks and reversal give the readable records of the id window, newest first |
| PaymentHistory.FetchedIds | src/lib/contracts.ts:495-550 | their ids are the readable ids of the window in descending order |
| PaymentHistory.FullPage | src/app/api/events/history/route.ts:86-106 | ids and cursor of a page whose window can be read |
| PaymentHistory.GappedPage | src/app/api/events/history/route.ts:86-106 | an unreadable id in the window makes the page the last one |
| PaymentHistory.FollowFull | src/lib/pagination-utils.ts:131-153 | following the cursors of full pages lists everything below the anchor |
| PaymentHistory.KeysetWalk | src/app/api/events/history/route.ts:47-51 | with readable records, following cursors lists every id below the anchor once, in order, in the least number of pages, none empty, while records are appended |
| PaymentHistory.KeysetWalkFromStart | src/app/api/events/history/route.ts:69-89 | the same from a first request without a cursor: total, ..., 1 |
| PaymentHistory.WalkListing | src/lib/pagination-utils.ts:135-153 | whatever each call is answered, the listed ids: a full page for each call that is readable and not the last, a restart at the count where it is low, and at the last call the readable ids of its window |
| PaymentHistory.WalkCompleteIff | src/app/api/events/history/route.ts:47-51 | a walk lists all the records one wants exactly when none lies between a low count and its anchor, and none lies below the window of the last call or is unreadable in it |
| PaymentHistory.FailedCountHidesOlder | src/lib/contracts.ts:477-492 | a count that cannot be read ends the walk: complete exactly when nothing wanted lies below that call's anchor |
| PaymentHistory.FailedReadHidesOlder | src/app/api/events/history/route.ts:86-106 | when only the read of the newest record fails, and only at the first call, a single page of the others is ever listed |
| MultiWallet.Provider.BeginLoad | src/hooks/useMultiWallet.tsx:62-63 | the section of `loadBalance` before its await |
| MultiWallet.Provider.EndLoad | src/hooks/useMultiWallet.tsx:64-79 | a resolved or failed balance changes only a wallet still showing its account |
| MultiWallet.Provider.AutoReconnect | src/hooks/useMultiWallet.tsx:94-106 | the reconnect section |
| MultiWallet.Provider.BeginConnect | src/hooks/useMultiWallet.tsx:121-124 | the start of `connect` |
| MultiWallet.Provider.FailConnect | src/hooks/useMultiWallet.tsx:188-194 | its failure |
| MultiWallet.Provider.Connect | src/hooks/useMultiWallet.tsx:146-158 | the section after the wallet answers |
| MultiWallet.Provider.EndSession | src/hooks/useMultiWallet.tsx:162-194 | the section after the server answers, with its roll-back |
| MultiWallet.Provider.DisconnectWallet | src/hooks/useMultiWallet.tsx:199-207 | the synchronous reset |
| MultiWallet.InvariantStep | src/hooks/useMultiWallet.tsx:62-228 | every section keeps: a balance belongs to the connected account, a disconnected wallet is the initial one but for the spinner, the module's wallet id is the shown one |
| MultiWallet.WhatCanEnd | src/hooks/useMultiWallet.tsx:62-228 | whatever is awaited can end in each of its ways, and nothing else can |
| MultiWallet.ReachableWallets | src/hooks/useMultiWallet.tsx:62-228 | these hold in every reachable state |
| MultiWallet.AwaitedIsConserved | src/hooks/useMultiWallet.tsx:62-228 | in every run, the connects, reconnects, revocations and balance requests awaited are those started and not ended |
| MultiWallet.WalletFollowsLastDecision | src/hooks/useMultiWallet.tsx:62-228 | the wallet shown is that of the last connect, reconnect, roll-back or disconnect, however answers arrive |
| MultiWallet.ShownBalanceIsLastAnswer | src/hooks/useMultiWallet.tsx:62-80 | in every run, a balance is shown exactly when it is the last answer for the account of the wallet shown, that wallet being the same since |
| MultiWallet.DisconnectIsFinalIff | src/hooks/useMultiWallet.tsx:199-207 | after a disconnect no late answer brings an account back, exactly when no connect and no reconnect was still waiting for its wallet |
| MultiWallet.RequestsMade | src/hooks/useMultiWallet.tsx:94-194 | every wallet shown asks for a session, with proof only from `connect`, and a caller that goes on is done with its request |
| MultiWallet.SessionRoute | src/app/api/auth/session/route.ts:40-108 | a posted request is granted exactly for a valid account with proof or its own cookie, and sets the cookie with proof or when renewal is due |
| MultiWallet.TeardownIff | src/hooks/useMultiWallet.tsx:199-228 | when what is awaited has run out and no revocation was lost, a disconnect surely leaves no session, exactly when no connect waits for its wallet, no reconnect does while there is a cookie, and no awaited request for a valid account has or can still get proof, or carries or can still carry the account's cookie |
| MultiWallet.SessionOutlivesWallet | src/hooks/useMultiWallet.tsx:199-228 | otherwise a run ends with the initial wallet and a live session |
| MultiWallet.SpinnerStopsIff | src/hooks/useMultiWallet.tsx:62-80 | in every reachable state, balance loads can stop a turning spinner exactly when a wallet with a non-empty account is shown |
| MultiWallet.EmptyAccountSpins | src/hooks/useMultiWallet.tsx:146-158 | a connect that yields an empty account leads there and its spinner never stops by loading |
| MultiWallet.RollBackTakesDownOtherIff | src/hooks/useMultiWallet.tsx:169-179 | in every run, the roll-back of a connect takes down another one's wallet exactly when one was shown after it and not taken down since |
| MultiWallet.RollBackTakesDownLaterWallet | src/hooks/useMultiWallet.tsx:169-179 | two overlapping connects lead there |
| AddressBook.ProblemFreeIff | src/lib/address-book.ts:76-98 | a row has no error exactly when it is acceptable by itself and its address was not accepted before in the file |
| AddressBook.ProblemsMean | src/lib/address-book.ts:79-98 | exactly which problems a row is reported with |
| AddressBook.LengthIs | src/lib/address-book.ts:84-93 | lengths count characters, those beyond the basic plane twice |
| Stellar.AddressesAre | src/lib/stellar.ts:776-778 | the shape of addresses, in code points |
| Text.SpacesAre | src/lib/address-book.ts:76-78 | the characters that `trim` removes, one by one |
| AddressBook.FindHeader | src/lib/address-book.ts:51-56 | the first column of the wanted name |
| AddressBook.LettersOfEitherCase | src/lib/address-book.ts:51 | which characters of a header are read as a letter of a name |
| AddressBook.ContactIsUnderHeaders | src/lib/address-book.ts:51-76 | label, address and memo of a row are the trimmed cells under the first headers of those names |
| AddressBook.MergeAllIsMerge | src/lib/address-book.ts:100-113 | merging in place is: old entries in place, each updated by its contact, then the new ones in file order |
| AddressBook.ImportMeaning | src/lib/address-book.ts:40-120 | the result of an import, its counts, and that every data row is counted once |
| AddressBook.RefusedAsAWhole | src/lib/address-book.ts:40-65 | a file without data rows, or without a header for label or address, is refused with one message; every other file is imported row by row |
| AddressBook.LinesReported | src/lib/address-book.ts:74-98 | the lines reported for a file, counted from two |
| AddressBook.EntryAfterImport | src/lib/address-book.ts:33-39 | an entry keeps its address and last use, takes the label, and its memo unless replaced by a non-empty one |
| AddressBook.RejectedIff | src/lib/address-book.ts:81-98 | a line is reported exactly when its row is not the first acceptable one of its address |
| AddressBook.ImportTwice | src/lib/address-book.ts:33-39 | importing again changes nothing, adds nothing, and reports the same rows |
| AddressBook.AlwaysDistinct | src/lib/address-book.ts:40-148 | no address occurs twice in a book made by any sequence of operations |
| AddressBook.SavedFacts | src/lib/address-book.ts:133-142 | saving changes one entry and leaves the others in place |
| AddressBook.RemoveUndoesSave | src/lib/address-book.ts:133-148 | removing a newly saved address gives the book back |
| AddressBook.Storage.ImportDataRows | src/lib/address-book.ts:69-114 | the loop over the data rows, against the row-by-row function |
| AddressBook.Storage.ImportAddressBookCsv | src/lib/address-book.ts:40-120 | book, counts and rejections after an import, header errors included |
| AddressBook.Storage.SaveAddress | src/lib/address-book.ts:133-142 | the book after saving |
| AddressBook.Storage.RemoveAddress | src/lib/address-book.ts:145-148 | the book after removing |
| AddressBook.SelectedOnce | src/lib/address-book.ts:175-181 | an entry merged once is not offered again, if its saved address has no white space around it |
| VirtualRows.InViewIsMounted | src/hooks/useVirtualRows.ts:113-120 | with overscan at least one, every row in view is mounted at any scroll offset |
| VirtualRows.HeightIsConserved | src/hooks/useVirtualRows.ts:122-127 | spacers and mounted rows add up to the height of the list |
| VirtualRows.RowsStayInPlace | src/hooks/useVirtualRows.ts:122-127 | every mounted row is drawn at its own place below the top of the list |
| VirtualRows.MountedIsBounded | src/hooks/useVirtualRows.ts:115-120 | the number of mounted rows is that of viewport and overscan, or all rows |
| VirtualRows.RowsOfViewport | src/hooks/useVirtualRows.ts:113-116 | the viewport counts its measured height, or the rows assumed before it is measured |
| VirtualRows.ShortListIsWhole | src/hooks/useVirtualRows.ts:101-111 | a list up to the threshold is mounted as a whole, without spacers, and no longer one is |
| VirtualRows.CoversIff | src/hooks/useVirtualRows.ts:115-120 | for a list longer than the viewport, coverage at every legal offset is exactly overscan at least one |

## Left out

- The Soroban contract, and Stellar SDK, Horizon and RPC calls: what the contract answers is a function of the id.
- SHA-256, HMAC, Argon2, JSON and ioredis: functions and objects with stated contracts. A timing-safe comparison is modelled by its Boolean meaning only.
- Texts are sequences of Unicode characters: unpaired surrogates do not occur, and lengths count UTF-16 units only where the code compares them (`AddressBook.Length`).
- Crc32.CalculateCrc32: works on bytes; the UTF-8 encoding of non-ASCII text is not modelled, since every text it is applied to here is ASCII.
- ApiAuth.KeyStore.BeginRequest: does not model the header extraction before it or a database error, which returns null; ApiAuth.KeyStore.EndRequest does not model the last-used and request-log writes.
- ApiAuth.InvariantStep: assumes that two rows are never inserted for one raw key, each being drawn from 32 random bytes.
- Idempotency.OneActiveRequest: assumes that leases outlast handlers and that the broker answers; `Idempotency.LeasedRunsOverlapOnlyAfterExpiry` says what holds without that.
- Idempotency.RunsAgainIffProbed: the same assumptions; without the broker every request runs its handler (`Idempotency.HandlerRunsWithoutBroker`).
- Idempotency.TwoCommitsWithOneKey: stops at the handlers; the unique database index that some routes keep on the key is not part of the model.
- ApiFetch.Client.Call: states one call at a time; two calls sharing one pending CSRF mint are not interleaved. Parsing of the success body is not modelled.
- The order of checks in `apiRoute`, `requireIdempotencyKey` and `requireScope`: early returns without state. The bounded polling of `submitContractInvocation`.
- ReadCache.Cache.CachedRead: runs without interruption; `CacheFreshness` and `CacheStaleness` interleave it, `UninterruptedRead` in each ties it to their steps. Two first uses sharing one pending connection are not modelled, nor is a loader that answers `undefined`.
- ReadCache.Cache.ScanDelete: takes what SCAN answers as given; a subject holding glob characters makes the MATCH pattern wider than the prefix, which is outside `ReadCache.FullScan`.
- CacheFreshness.ReadsAreCurrent: one process without Redis, as the in-flight condition cannot be met across replicas.
- ClientIp.TrustedDepth: integer depths; the code would also accept a fractional depth and then select nothing.
- AuditLog.IterateAuditLogEntries: over one fixed ledger; the generator is a method that returns all it yields, so a consumer that stops early is not modelled.
- AuditLog.ExportReadsBack: ids, timestamps and targets are natural numbers that print in plain decimal, as all safe integers do.
- PaymentHistory.KeysetWalk: the opaque cursor is its anchor id; its base64 form and validation are not modelled.
- MultiWallet.InvariantStep: the loop that picks the wallet to reconnect and the network warnings are left out.
- MultiWallet.TeardownIff: one browser's cookie; expiry of sessions and challenges, rate limits and the server's list of revoked wallets are not modelled.
- AddressBook.Storage.SaveAddress: an entry with `memo: undefined` set explicitly is treated as one without a memo. Local storage is the book itself; a corrupt stored book, read as empty, is not modelled.
- AddressBook.SelectedOnce: stated for trimmed saved addresses only; the code compares the saved address untrimmed.
- VirtualRows.InViewIsMounted: heights and offsets are real numbers, not floating-point ones.
- `getRecentAddresses`, `searchAddressBook`, analytics, progress and usage aggregations, response builders, formatting of amounts: simple filters and sums.
- React rendering, pages, service worker, rate-limit store, session revocation, CSRF token mathematics.
