# go-clipboard: verified model

A Dafny model of the parts of go-clipboard that have to be right under contention: the
rate limiter in front of the anonymous endpoints, the lease protocol that hands out clip
names, and the deployment script that several CI runs may start on one host. Times are
integers in nanoseconds.

| file | what it models |
|---|---|
| `Limiter.dfy` | `MemoryLimiter`: lazy window reset, oldest-entry eviction in arbitrary map order |
| `LimiterRuns.dfy`, `LimiterCapacity.dfy` | whole runs of the limiter: cost of eviction, agreement with a private counter per client, the cap |
| `LimiterRate.dfy`, `LimiterOverload.dfy`, `LimiterWait.dfy` | how much one client gets through, with its entry spared and without; what a refused client is told and what happens if it obeys |
| `ForwardedFor.dfy`, `ClientKey.dfy` | the X-Forwarded-For scan, prefix masking and the resulting key |
| `Ttl.dfy`, `ClipStore.dfy`, `ClipService.dfy` | lifetimes, the lease table (in memory and in SQL), the service and the sweeper |
| `Leases.dfy`, `SweepErasure.dfy`, `LeaseTable.dfy` | whole runs of claims, reads, hints and sweeps under one clock or under statement-time clocks |
| `CreateEndpoint.dfy` | `POST /api/clips` from client address to clip table |
| `Deploy.dfy`, `DeployHistory.dfy`, `DeployGates.dfy` | `deploy/deploy.sh` as a state machine of concurrent runs with crashes; lock, state file and health gates over whole runs |
| `DeployTurns.dfy` | what one run does to the host while nobody else has the lock |
| `DeployGuard.dfy`, `DeployProbes.dfy` | what the check of the state file protects, against whom and until when; how long a health check stays relevant |
| `DeployScript.dfy` | the script itself on a host it mutates, alone and side by side with others |

How the pieces are stated:

- Code that updates a structure in place is a class whose methods are proved equal to a
  specification function on the old state; the lemmas are about runs of that function.
- What the program leaves open is an argument: the entry that eviction picks among the
  oldest (`victim`), the rows a sweep reaches, the outcome of every command of a deploy.
  A theorem about a run holds for every legal choice.
- The three clocks of a create request (limiter, service, store) are separate samples.
  In `Leases.dfy` an event carries the store clock it sampled, `snap`, and the instant it
  takes effect, `at`. They coincide under the in-memory store's lock (`Atomic`). In
  Postgres `now()` is fixed at statement start and may be older (`Stale`).
- Rate and window are positive as internal/config/config.go:196-234 enforces; lemmas that
  need it say so. Clock readings of a run are nondecreasing where a lemma says `Clocked`,
  `Atomic` or `Stale`.

Where documentation or tests promise more than the code does, the code is modelled and
the exact condition is proved:

- The cap on tracked keys that the rate-limiting requirements demand fails for the empty
  key, which `makeRoom` takes for "nothing found": `CapHoldsIffEvictable`. Keys made by
  `ClientIP` are never empty: `MemoryIsBounded`.
- The cap is not free: a population gets exact per-client limiting in every run if and
  only if it fits the table: `CapUnnoticedIffPopulationFits`.
- What a client gains by having its live entry evicted has to be paid for in requests of
  other keys, as long as it never follows another key at the same instant: `GainIsPaidFor`.
  At one instant it can be had for less: `GainCanBeCheapAtOneInstant`.
- `Retry-After` is rounded down, so obeying it exactly can be too early:
  `HeaderSufficesIffWholeSeconds`. The second refusal is the last: `ObedientClient`.
- "Stopping the sweeper does not change the observable behaviour of claim or read"
  (the clip-sweeper requirements) holds for the in-memory store, and in Postgres
  as long as no statement's `now()` is older than an earlier sweep's:
  `SweepInvisibleIffNotAhead`, with a counterexample in `SweepErasureFailsUnderStaleClocks`.
- The test expectation that a wait is at most the window (internal/ratelimit/memory_test.go:31)
  depends on windows of a second or more: `WaitWithinWindowIff`.
- The image in service need not have been probed on the current schema, since a release
  can be refused after migrating: `RefusedReleaseLeavesSchemaMigrated`. It stays probed
  through every refusal iff the release brings no new migration or is turned away at the
  check: `RefusalSparesProofIff`. It never has pending migrations, though.
- "An older run cannot overwrite a newer deployment" (the deployment-pipeline requirements)
  is more than the script does, which compares identities and knows no age. An older run
  that starts once the newer deployment is recorded, and reads its expectation from the
  state file as .github/workflows/ci.yml:250-265 does, replaces it without any crash:
  `OlderRunCanFollow`. While the file names the service a run can replace another image
  iff it has no expectation or expects just that image: `ReplacesWhatItExpects`, and for
  every reachable state `CanTakeOverIff`. A run that took its expectation from the file at
  some moment is turned away iff what has been written there last since then is neither
  that nor its own image: `TurnedAwayIffOvertaken`.
- "Refuse to clobber a live deployment that is not the expected predecessor"
  (deploy/deploy.sh:115) is checked against the file and not against the service, and a run
  that swaps and dies before its record leaves the file behind: `OlderRunCanClobber`. Runs
  with an expectation find it in service iff the file names what is served, or has been
  torn, which keeps them all out: `GuardedIff`. Over whole runs that is until a swap is
  left unrecorded: `GuardedIffNoLooseEnd`, `ClobberNeedsLooseSwap`.
- A run that ends from its swap on without a record leaves a stale state file exactly when
  it deployed something new, a failing `compose up` that replaced the container included:
  `StaleFileIffUnrecorded`, and over whole runs `FileNamesServedIffNoLooseEnd`.

## Model

| member | source | states |
|---|---|---|
| Limiter.MemoryLimiter.constructor | internal/ratelimit/memory.go:40-52 | a new limiter tracks nobody and has the given settings |
| Limiter.MemoryLimiter.Allow | internal/ratelimit/memory.go:54-80 | the decision, the wait and the whole new table for every state, key and instant, for some oldest victim |
| Limiter.MemoryLimiter.MakeRoom | internal/ratelimit/memory.go:82-99 | nothing happens unless the table is full and bounded; then an entry no younger than any other goes, unless its key is empty, whatever the iteration order |
| LimiterRuns.Anchored | internal/ratelimit/memory.go:60-66 | every tracked entry stems from a request of its key that opened its window at its window start |
| LimiterRuns.EvictionCost | internal/ratelimit/memory.go:82-99 | evicting a key whose window began at s takes at least maxKeys other distinct keys that opened a window between s and now |
| LimiterRuns.UnexpiredEvictionIsOverload | internal/ratelimit/memory.go:60-99 | an unexpired entry is evicted only if more than maxKeys keys were active within one window length |
| LimiterRuns.LightLoadSpares | internal/ratelimit/memory.go:82-99 | with at most maxKeys active keys per window length no unexpired entry is ever evicted |
| LimiterRuns.SparedKeyTracks | internal/ratelimit/memory.go:54-80 | a key that is spared while unexpired has the entry of a private counter, or none when that one has expired |
| LimiterRuns.SparedKeyAgrees | internal/ratelimit/memory.go:54-80 | decisions and waits of such a key are those of a counter that no other client touches |
| LimiterRuns.BoundedAgreesUnderLoad | internal/ratelimit/memory.go:54-99 | under that load, or with bounding off, every decision and wait in the run is that of a private counter per client |
| LimiterCapacity.CapacityInvariant | internal/ratelimit/memory.go:54-99 | in every reachable state counts are in 1..rate, and with nonempty keys the table holds at most maxKeys entries |
| LimiterCapacity.CapHoldsIffEvictable | internal/ratelimit/memory.go:96-98 | a population keeps the cap in all runs iff it is no larger than the cap or does not contain the empty key |
| LimiterCapacity.GrowPastCap | internal/ratelimit/memory.go:89-98 | with the empty key among the clients some legal run tracks all of them at once |
| LimiterCapacity.OneTooMany | internal/ratelimit/memory.go:82-99 | any population larger than the table has a legal run in which a client is admitted that a private counter refuses |
| LimiterCapacity.CapUnnoticedIffPopulationFits | internal/ratelimit/memory.go:54-99 | any population gets private-counter decisions in all runs iff it is no larger than maxKeys |
| LimiterCapacity.EvictionUnnoticedIffExpired | internal/ratelimit/memory.go:61-66 | losing its entry can never be noticed by a client, over all future requests, iff the entry has expired |
| LimiterCapacity.EvictionCanAlsoRefuse | internal/ratelimit/memory.go:61-75 | a legal run in which the capped limiter refuses a request that a private counter admits |
| LimiterRate.CountIsAdmissions | internal/ratelimit/memory.go:65-79 | a counter equals the number of admissions since its window opened |
| LimiterRate.RefusedIffRateSpent | internal/ratelimit/memory.go:60-79 | a request is refused iff its client has had rate admissions in a window that is still open |
| LimiterRate.RateBound | internal/ratelimit/memory.go:60-79 | a spared client gets at most (n+1)*rate-1 requests through in any half-open interval of n windows |
| LimiterRate.RateBoundAttained | internal/ratelimit/memory.go:60-79 | for every n some legal run reaches that number, so the bound is exact |
| LimiterOverload.RateBoundWithRobberies | internal/ratelimit/memory.go:60-99 | whatever is evicted, a client gets at most (n+1)*rate-1 requests through in n windows plus one rate for each time its own live entry is evicted |
| LimiterOverload.RobberyCosts | internal/ratelimit/memory.go:82-99 | each such eviction takes maxKeys windows opened by other keys since the lost window began |
| LimiterOverload.RobberiesCost | internal/ratelimit/memory.go:82-99 | no two evictions share that cost, as long as the client never follows another key at the same instant |
| LimiterOverload.GainIsPaidFor | internal/ratelimit/memory.go:54-99 | under the same condition every rate's worth of admissions beyond (n+1)*rate-1 takes maxKeys windows opened by other keys |
| LimiterOverload.GainCanBeCheapAtOneInstant | internal/ratelimit/memory.go:82-99 | legal runs at one instant in which every other key's opening buys an admission, more than that price allows, so the condition is needed |
| LimiterWait.OthersCannotTouch | internal/ratelimit/memory.go:60-99 | requests of other keys can remove an entry but not change it |
| LimiterWait.WaitSuffices | internal/ratelimit/memory.go:69-75 | a refused client that stays quiet for RetryAfter is admitted under any traffic from others |
| LimiterWait.WaitIsTight | internal/ratelimit/memory.go:60-75 | while its entry is kept a refused client stays refused until the window ends, and its tries do not change the entry |
| LimiterWait.WaitWithinWindowIff | internal/ratelimit/memory.go:69-75 | a wait is positive, and at most the window iff the window is a second or more |
| LimiterWait.HeaderSufficesIffWholeSeconds | internal/httpapi/ratelimit.go:19-23 | sleeping exactly the header is enough iff the rest of the window was at most a second or a whole number of seconds |
| LimiterWait.HeaderCanBeShort | internal/httpapi/ratelimit.go:19-23 | a concrete refusal whose header is one try too early |
| LimiterWait.ObedientClient | internal/httpapi/ratelimit.go:17-24 | a client that sleeps exactly its header is refused at most once more, whatever other keys do |
| ForwardedFor.SplitIsExact | internal/httpapi/clientip.go:52 | splitting at commas loses nothing and leaves no comma in a part |
| ForwardedFor.ParseForwardedFor | internal/httpapi/clientip.go:48-63 | the loop returns the parse of the right-most part that parses, or nothing if none does |
| ForwardedFor.RightmostWins | internal/httpapi/clientip.go:48-63 | prepending any text and a comma changes the result only if the rest had no parseable part |
| ForwardedFor.LastPartDecides | internal/httpapi/clientip.go:48-63 | for any header, in terms of its text alone: the last part with the Unicode white space around it dropped decides if it is an address; if it is not, or is blank, the rest of the header does |
| ForwardedFor.TrimSpaceExact | internal/httpapi/clientip.go:54 | trimming takes away exactly the white space on both sides |
| ClientKey.MaskByteIsInvertedShift | internal/httpapi/clientip.go:75 | the tabulated mask bytes are the complemented shifts of net.CIDRMask |
| ClientKey.MaskedKeepsLeadingBits | internal/httpapi/clientip.go:75-76 | two addresses have the same network iff they share their first n bits |
| ClientKey.MaskedBits | internal/httpapi/clientip.go:75-76 | a network has the first n bits of the address and zeros behind them |
| ClientKey.MaskingNeverYieldsMapped | internal/httpapi/clientip.go:69-76 | masking an address that is not IPv4-mapped never makes it IPv4-mapped |
| ClientKey.BucketsByShape | internal/httpapi/clientip.go:65-78 | "unknown" for no address, the dotted quad of the last four bytes behind ten zero bytes and ff ff, else the network of the configured length, or of 64 bits if that is not in 1..128, with that length |
| ClientKey.KeyPartition | internal/httpapi/clientip.go:65-78 | keys are equal iff both addresses are unparseable, or the same behind the IPv4 prefix bytes, or both without them and equal in the configured prefix (64 bits if that is not in 1..128) |
| ClientKey.NetworkTextHasSlash | internal/httpapi/clientip.go:65-78 | a key has a slash iff it is an IPv6 bucket, is "unknown" only without an address, and is never empty |
| ClientKey.SenderByHop | internal/httpapi/clientip.go:18-46 | the right-most forwarded address iff a trusted proxy is configured and is the host part of the remote address, or all of it if it has no parts; else that host as an address |
| ClientKey.ClientIp | internal/httpapi/clientip.go:18-27 | the key is the bucket of the forwarded address behind the trusted hop, else of the peer, and is not empty |
| ClientKey.ForgedHeaderIsIgnored | internal/httpapi/clientip.go:18-46 | unless the peer is the configured proxy the header is ignored; behind it everything in front of the appended address is, whatever white space surrounds that |
| Ttl.TtlFromSecondsExact | internal/clips/clips.go:42-53 | for every int64 no overflow, exactly 600, 3600 and 7200 are accepted, and ResolveTTL leaves the result alone |
| Ttl.ResolvedIsPreset | internal/clips/clips.go:56-66 | a duration resolves iff it is zero or a preset, to a preset within the anonymous ceiling |
| ClipStore.Store.ClaimClip | internal/clips/fake/store.go:38-75 | a claim is refused iff a live row holds the name; otherwise the row is put under it; all other rows stay |
| ClipStore.Store.GetLiveClip | internal/clips/fake/store.go:77-92 | the row if it is live, else not found |
| ClipStore.Store.DeleteExpiredClips | internal/clips/fake/store.go:94-108 | in any visiting order exactly the expired rows go, and their number is returned |
| ClipStore.Store.SlugIsLive | internal/clips/fake/store.go:110-120 | whether a live row holds the name |
| ClipStore.PgStore.InsertOrReclaim | internal/db/clips.sql.go:14-23 | the upsert returns a row iff no live row conflicts and changes the table as the in-memory claim does |
| ClipStore.PgStore.ClaimClip | internal/clips/pgstore.go:22-42 | no returned row is reported as a name in use; same result and table as the in-memory store |
| ClipStore.PgStore.GetLiveClip | internal/db/clips.sql.go:62-68 | the live row, or not found |
| ClipStore.PgStore.SlugIsLive | internal/db/clips.sql.go:82-89 | whether a live row holds the name |
| ClipStore.PgStore.DeleteExpiredClips | internal/db/clips.sql.go:49-60 | deletes what the in-memory sweep deletes and reports as many rows |
| ClipService.Service.Create | internal/clips/service.go:50-78 | slug, body and lifetime are checked in that order before a claim with expiry anchored to the service clock; errors leave the store alone |
| ClipService.Service.Read | internal/clips/service.go:80-89 | the live row, or not found |
| ClipService.Service.Availability | internal/clips/service.go:91-101 | the slug error, or whether no live row holds the name |
| ClipService.Service.DeleteExpired | internal/clips/service.go:103-105 | a complete sweep |
| ClipService.SlugErrorExact | internal/slug/slug.go:43-63 | "status" is reserved; other names are valid iff they have 3 to 64 ASCII letters, digits, underscores and hyphens |
| ClipService.RequestedExact | internal/clips/service.go:50-66 | the first of name, 256 KiB limit and lifetime that is wrong is the error; else the row expires 7200 s, or the chosen 600, 3600 or 7200 s, after the service clock |
| ClipService.Sweeper.Run | internal/sweeper/sweeper.go:27-50 | over any ticks, failed ones included, a row is gone iff it had expired at a tick that got through; the rest is untouched |
| Leases.LiveRowIsUntouchable | internal/db/clips.sql.go:17-21 | no step overwrites or deletes a row that is live when the step takes effect, however old its clock sample |
| Leases.ProvenanceHolds | internal/clips/fake/store.go:38-108 | under any clocks a row is the last successful claim of its name, and a claimed name without a row was swept past its expiry |
| Leases.LiveLeasePersists | internal/db/clips.sql.go:14-23 | from a claim until its expiry its row stands, over any claims and sweeps with stale clocks |
| Leases.NoSecondWinner | internal/clips/fake/store.go:43-61 | while a lease runs every other admissible claim of its name is refused as in use |
| Leases.LeasesAreExclusive | internal/db/clips.sql.go:14-23 | of two successful claims of a name the later takes effect at or after the earlier expiry, for stale clocks and any service clock |
| Leases.StaleReadIsLastGrant | internal/db/clips.sql.go:62-68 | a read with a stale clock returns the last claim or nothing; that claim while live at execution; nothing once expired by its sample |
| Leases.TableRefinesLog | internal/clips/fake/store.go:38-120 | every answer is that of an append-only log of claims, if no statement is behind an earlier sweep |
| Leases.AtomicTableRefinesLog | internal/clips/fake/store.go:38-120 | the same for every run of the in-memory store under its lock |
| SweepErasure.SweepErasure | internal/sweeper/sweeper.go:41-50 | dropping or inserting any sweeps, reads and hints leaves all other answers unchanged, if no statement is behind an earlier sweep |
| SweepErasure.AtomicSweepErasure | internal/clips/fake/store.go:94-108 | the same for every run of the in-memory store |
| SweepErasure.SweeperIsUnobservable | internal/sweeper/sweeper.go:27-50 | two runs with the same client events and different sweeps give the same answers |
| SweepErasure.SweepSeenIff | internal/db/clips.sql.go:21 | a sweep changes the answer to a claim iff it deletes the row of that name and the claim's sample is older than the expiry |
| SweepErasure.SweepInvisibleIffNotAhead | internal/db/clips.sql.go:49-52 | over all runs with statement-time clocks a sweep is invisible to every later statement with a given sample iff its own sample is no later |
| SweepErasure.SweepErasureFailsUnderStaleClocks | internal/db/clips.sql.go:14-23 | a legal run with statement-time clocks in which a claim wins with the sweep and loses without it |
| LeaseTable.RowsAreWellFormed | internal/clips/service.go:58-66 | every row of every reachable table has a valid name and body and a preset lease within the ceiling |
| LeaseTable.LedgerBalances | internal/clips/fake/store.go:43-74 | rows present are fresh inserts minus the counts sweeps returned |
| LeaseTable.TableStaysFresh | internal/clips/fake/store.go:94-108 | after a complete sweep every row expires after its sample and was created less than two hours before it, given small clock lag |
| LeaseTable.UnreadableIffLagged | internal/clips/service.go:63-66 | no statement with a sample as late as the claim's will ever read a claimed row, whatever follows, iff the service clock lagged the store clock by the whole lifetime |
| LeaseTable.HintAgreesWithClaim | internal/clips/service.go:91-101 | availability is true iff an admissible create at that moment succeeds, and invalid names fail alike |
| LeaseTable.GrantIsReadable | internal/clips/service.go:63-89 | after a successful claim readers get exactly its row until it expires and the name is free from then on |
| CreateEndpoint.Server.PostClip | internal/httpapi/ratelimit.go:15-28 | response, limiter table and clip table of one request, through key, limiter, lifetime and claim |
| CreateEndpoint.AnswerTable | internal/httpapi/ratelimit.go:15-28 | every answer and the resulting table, from the request and the two tables alone: refused by the limiter with the rest of the window in seconds, then lifetime, name, size, name in use, Created |
| CreateEndpoint.InsertionBound | internal/httpapi/clips.go:138-139 | one spared client key creates at most (n+1)*rate-1 clips in n windows |
| CreateEndpoint.MemoryIsBounded | internal/httpapi/clientip.go:65-78 | driven by real senders the limiter holds at most maxKeys counters, each in 1..rate |
| CreateEndpoint.RowsWereAcknowledged | internal/httpapi/ratelimit.go:18-25 | every row goes back, through all sweeps, to the last claim of its name, and if a request made it its client was answered Created with that name and expiry: refusals store nothing |
| CreateEndpoint.CreatedIsKept | internal/httpapi/clips.go:45-68 | from a Created answer until its expiry the row is there, over requests, other claims and sweeps with stale clocks |
| CreateEndpoint.ClaimsAreExclusive | internal/db/clips.sql.go:14-23 | two claims of one name never overlap, through this endpoint or another way |
| CreateEndpoint.CreatedAnswersNeverOverlap | internal/httpapi/clips.go:45-68 | of two Created answers for one name the later claim takes effect at or after the expiry the earlier answer gave |
| CreateEndpoint.TakenNameIsRefused | internal/httpapi/clips.go:122-123 | while a lease runs every other well-formed request for its name that the limiter admits is answered "in use", under stale clocks |
| CreateEndpoint.AcceptedLifetimes | internal/httpapi/clips.go:45-56 | over HTTP exactly the three presets and "not chosen" are accepted, with these leases |
| DeployHistory.MutualExclusion | deploy/deploy.sh:109-113 | in every interleaving exactly the run named by the lock is between lock and end |
| DeployHistory.AllCurrent | deploy/deploy.sh:115-203 | what the lock holder read of the state file and the service stays true until it changes it |
| DeployHistory.OnlyExpectedSuccessorsAct | deploy/deploy.sh:117-123 | whenever a step changes schema, service or state file, its run accepts the state file of that moment, stale or not |
| DeployHistory.EndingBeforeSwapKeepsService | deploy/deploy.sh:176-199 | a run that ends before its swap leaves the service it found at the lock |
| DeployHistory.StateFileIsChain | deploy/deploy.sh:116-123 | every write, torn ones included, replaces exactly what the previous write left; a run with an expectation and a file to compare replaces that expectation or its own identity |
| DeployHistory.HostIsSumOfMoves | deploy/deploy.sh:109-206 | schema, service and state file are exactly what the migrations, swaps and writes carried out so far, failing ones included, have made of them |
| DeployGates.EverySwapWasGated | deploy/deploy.sh:161-203 | every swapped-in image, and the previous one whenever one is named, passed a probe of the same run against exactly that schema |
| DeployGates.ProbesTookPlace | deploy/deploy.sh:136-148 | every noted probe is a command of its run that polled that image healthy on that schema |
| DeployGates.SwapsFollowHealthyPolls | deploy/deploy.sh:161-203 | before any swap its run has polled the candidate healthy, and the previous image if it is another one, with the schema as at the swap |
| DeployGates.SchemaOnlyGrows | deploy/deploy.sh:155-159 | no step of any run removes a migration |
| DeployGates.ServedHasNoPendingMigrations | deploy/deploy.sh:195-203 | through refusals, failed swaps and crashes the schema has every migration of the served image |
| DeployProbes.StillProvenIff | deploy/deploy.sh:154-182 | while one run has the lock, an image probed on the present schema stays so iff the run migrates nothing or one of its gates passes for that image |
| DeployProbes.RefusalSparesProofIff | deploy/deploy.sh:117-180 | a probed image stays so through every way a waiting release can end without changing the service iff the release does not accept the state file or its migrations are all in the schema |
| DeployProbes.MigrationSparesProofIff | deploy/deploy.sh:154-159 | the same at the migration, over all its outcomes: iff the schema has every migration of the image |
| DeployProbes.RefusedReleaseLeavesSchemaMigrated | deploy/deploy.sh:176-180 | a legal run after which the served image was never probed on the schema in place |
| DeployGuard.StaleFileIffUnrecorded | deploy/deploy.sh:201-205 | for every way a run can end from its swap on: a replaced service without a record leaves a wrong state file iff the run was not redeploying what the file named; recording makes it right |
| DeployGuard.FileKeepsNamingServed | deploy/deploy.sh:203-205 | only a swap or a torn write can part state file and service |
| DeployGuard.FileNamesServedIffNoLooseEnd | deploy/deploy.sh:201-205 | over every interleaving with crashes the file names the service iff the last change to either was not an unrecorded swap or a torn write |
| DeployGuard.GuardedIff | deploy/deploy.sh:115-123 | on any host, every run with an expectation that passes the check finds it, or its own image, in service iff the file names the service or is empty |
| DeployGuard.GuardedIffNoLooseEnd | deploy/deploy.sh:115-123 | the same condition over every interleaving with crashes, in terms of unrecorded swaps |
| DeployGuard.ClobberNeedsLooseSwap | deploy/deploy.sh:115-123 | a run with an expectation replaces an image it did not expect only after an unrecorded swap or loss of the service |
| DeployGuard.OlderRunCanClobber | deploy/deploy.sh:201-205 | for any two releases expecting what is deployed, a legal run in which one swaps and dies and the other replaces its image |
| DeployGuard.OlderRunCanFollow | deploy/deploy.sh:115-123 | for any two releases of which the second expects the first, a legal run without a crash in which both complete, the file naming the service in between |
| DeployGuard.CanTakeOverIff | deploy/deploy.sh:115-203 | from every reachable state a waiting run can come to replace what is served iff it accepts the state file and its previous image can be healthy on the migrated schema |
| DeployGuard.ReplacesWhatItExpects | deploy/deploy.sh:115-123 | while the file names the service, a run with another image can replace it iff it has no expectation or expects just that image |
| DeployGuard.TurnedAwayIffOvertaken | deploy/deploy.sh:115-123 | a run that took its expectation from the file at some moment is stopped at its check iff the last write since then is torn or neither that nor its own image, and changes nothing while that is so |
| DeployScript.WaitHealthy | deploy/deploy.sh:136-148 | healthy iff some poll succeeds; polling stops at the first that does, and all before it, or all if none does, failed |
| DeployScript.Script.TakeLock | deploy/deploy.sh:109-113 | takes a free lock or exits without touching the host |
| DeployScript.Script.Check | deploy/deploy.sh:115-123 | goes on iff there is no expectation, no file, or the file is the expectation or the own identity |
| DeployScript.Script.GatePrevious | deploy/deploy.sh:161-182 | probes a different previous image and exits if it is unhealthy |
| DeployScript.Script.GateCandidate | deploy/deploy.sh:184-199 | exits if the candidate never becomes healthy |
| DeployScript.Script.Deploy | deploy/deploy.sh:109-206 | alone on the host it completes iff lock, check and every command succeed; then file and service are the new image; the schema gains what was applied; the service changes only past healthy polls of the candidate and of a different previous image; it always frees the lock |
| DeployScript.Interleave | deploy/deploy.sh:109-206 | any number of scripts on one host, their commands in any possible order, bring the host and every script to the state of the state machine's execution |

## Left out

- HTTP plumbing: JSON decoding, size limits on the raw request, routing, host matching, static files, logging, error bodies.
- Go's map, mutex and time semantics beyond what is stated: every `Allow` and every store call is one atomic step; `time.Time` and `Duration` are unbounded integers, so saturation of `Sub` and the float in `Duration.Seconds()` (exact for these ranges up to rounding) are not modelled.
- `net.ParseIP`, `net.SplitHostPort` and the text of addresses: functions of the `Library` argument, assumed to give different texts to different addresses and a dotted quad to IPv4.
- Postgres internals: each statement is one atomic operation per row with a sampled `now()`; a DELETE may reach any set of rows, so interleaving inside it is covered row by row. Reads see the table at the instant they take effect, not a snapshot of their start. Timestamp precision is not modelled.
- The limiter of the availability endpoint: the same class with other settings, so it would add only easy members.
- `Sweeper.Run`: the ticker and the endless loop are a finite list of ticks; a cancelled context ends the list.
- deploy.sh before the lock (argument parsing, `reject_moving_tag`, sourcing the env file, which is assumed not to set `IMAGE`) and `assert_repo_digest`: a run that fails there dies in the model without effect.
- Image references are a repository and a pin, where the pin is what `image_identity` extracts; the extraction itself is not modelled.
- A dead script's lock is free at once; a docker child that keeps the inherited lock descriptor open a little longer is not modelled.
- A run killed during `docker run … migrate up` can leave the container migrating without the lock, so that the schema changes under another run's gates; in the model a migration ends with its run.
- Only deploy runs change schema, service and state file; manual `migrate`, backup, restore and edits by hand are not modelled. Migrations are a set, without goose's version order.
- The React frontend, CI, smoke tests, and the features only described in docs/slices.
