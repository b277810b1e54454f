# Verified models of the console's state keepers

The console sits between a fleet server's read API and a browser. It keeps a little state of its own: a
stale-while-revalidate cache in front of the read API, a triage store with an audit log, single-use login
attempts, a login rate limiter, and, in the browser, paged lists and keyboard shortcuts. This project models
that state and proves what the code is relied on for over whole runs, for every input and every interleaving.

`dafny verify dfyconfig.toml` checks everything. One module per file:

| part | modules |
|---|---|
| fleet read cache | `Upstream`, `Policies` (windows, keys), `CacheSpec` (what a history of stores leaves), `CacheStore` (map and list, updated in place), `CacheProtocol` (the steps of `getCached`), `CacheInvariants`, `CacheTheorems`, `CacheOrigins` (where values come from), `CacheFlights` (who shares a call), `CacheRevalidation` (what happens at which age), `CacheOutage`, `CacheOutageLimits` (what an outage leaves standing) |
| retry | `Retry`, `RetryHeader`, `CacheRetry` (a read through both) |
| triage store | `Lex` (text order, digits), `Timestamps`, `Cursors`, `Triage` (statements and histories), `TriageTime`, `TriageHistory` (rows, notes and log told from the calls), `Keyset` (the list query), `Walk` (pages over changing tables), `ListPages` (sessions with textual cursors), `SessionRepeats` (when rows repeat), `SessionStarts` (pages as slices of one list), `SessionEndings` (when a session ends), `SessionTables` (both judged from the table), `TriageAnswers` (answers told from the calls), `TriageRepo` (the class) |
| login | `LoginAttempts`, `RateLimiter` |
| mock fleet | `MockIds`, `MockRows`, `MockPaging` |
| query strings and browser | `CommaList`, `PagedFleet`, `Shortcuts` |

How things are modelled. Code that updates objects is a class whose methods are proved against a function of the
old state (`CacheStore.Cache`, `TriageRepo.Repo`, `LoginAttempts.Attempts`, `RateLimiter.Limiter`,
`Shortcuts.Keyboard`); loops stay loops. What the code promises is proved about those functions over histories of
calls: by the positions of the calls and in the settings callers give, not by the functions that compute it. The
concurrent part of the cache is a state machine whose steps are the points where `getCached` touches
shared state: reading the clock, copying an entry, claiming the refresh guard, counting, spawning, joining and
leaving a flight, the upstream answering, storing, closing. Readers, refreshers, clock ticks and upstream changes
interleave freely. `singleflight.Do` is assumed to keep at most one open call per key and to hand its result to
everyone waiting. SQL becomes filter, sort and take, and each transaction is one step, since the store has a
single connection. Clocks, random values and upstream replies are parameters.

Where code and comment differ, the model follows the code:

- Misses of one key share an upstream call only while it is open. A reader that saw a miss and joins after the
  first call has closed starts another one: `CacheFlights.SharedWhileInFlight`, with such a run in `CacheFlights.SecondFlightRun`.
- `MaxStale` smaller than `TTL` is accepted, so the window in which the cache answers is the larger of the two.
- `MaxStale` is described as how far past `TTL` an entry may be served, but the code compares the whole age with it
  (`CacheProtocol.Decide`).
- The same comment reads as a limit while the upstream is unavailable. A degraded answer has none: the older entry is
  handed out whatever its age (`CacheTheorems.Degraded`, `CacheOutage.OutageKeepsAnswering`).
- A backoff is clamped to `MaxDelay` before the jitter is added, so `MaxDelay` does not bound it:
  `Retry.WaitCeiling` says when it does, `Retry.CeilingExceeded` gives a wait above it. With the default delays it does
  exactly up to six attempts, so the default of three stays within (`Retry.DefaultDelays`). The shift leaves nothing
  from attempt 65 on (`Retry.ShiftedOut`).
- Pages of the triage list are stable only while the rows that end them have hosts without `|`. Behind such a row
  the list steps back and shows rows again (`SessionRepeats.TwiceIff`; from the table, `SessionTables.TwiceOnTable`).
  It then never ends exactly if a cursor comes round (`SessionEndings.EndsIff`), with pages of one row exactly if such a
  row is not the last (`SessionTables.OneRowPages`); two upserts suffice (`SessionTables.EndlessHistory`). No row is lost
  in a session that does end (`ListPages.EveryStillRow`).
- `Retry-After` seconds are multiplied in 64 bits and can come round to a short wait (`RetryHeader.WrappedSeconds`).
- `ClearAssignee` is ignored by the upsert that creates the row (`TriageHistory.AssigneeNow`).
- A status left empty on insert becomes `open` although the comment on `UpsertInput` calls it required.
- A limit below one still lets the first attempt of each window through (`RateLimiter.ExceededIff`).
- A bare Shift press counts as a key and takes the `g` leader down, although the comment speaks of the next
  non-modifier key (`Shortcuts.ShiftCounts`).
- The counter of an event identifier is laid out low bits first, so it orders identifiers within one millisecond
  only below 4096 (`MockIds.CounterWithinGroup`).

## Model

| member | source | states |
|---|---|---|
| Policies.WithDefaults | internal/fleet/cache.go:93-111 | settings that are zero or negative are replaced, so windows and bound are positive |
| Policies.DefaultsAre | internal/fleet/cache.go:93-111 | positive settings are kept each as it is; without them it is five seconds, a minute and 512 entries |
| Policies.KeyNamesEndpoint | internal/fleet/cache.go:149-162 | a cache key names its endpoint whatever the id behind it contains |
| Policies.KeysDoNotCollide | internal/fleet/cache.go:149-162 | two requests share a key exactly when they are the same request |
| CacheSpec.StoreAllIsRecent | internal/fleet/cache.go:232-258 | any run of stores leaves exactly the most recently stored distinct keys that fit, oldest store first |
| CacheSpec.LastStoresAre | internal/fleet/cache.go:232-258 | the entries kept per key are the last ones stored under it, and all of those |
| CacheSpec.ResidentIff | internal/fleet/cache.go:232-258 | the last store of a key is resident exactly while fewer than the bound of distinct other keys have been stored after it |
| CacheSpec.Residents | internal/fleet/cache.go:232-258 | an entry is resident exactly if it is such a last store, told from the history alone |
| CacheSpec.ContentsChronological | internal/fleet/cache.go:74-78 | with stores in time order the contents are sorted by fetch time, distinct, and within the bound |
| CacheStore.Cache.constructor | internal/fleet/cache.go:102-126 | a new cache is empty and has a positive bound |
| CacheStore.Cache.Lookup | internal/fleet/cache.go:181-188 | what is copied out is the resident entry of the key, found exactly when there is one |
| CacheStore.Cache.Store | internal/fleet/cache.go:232-258 | map and list hold the same nodes and their contents are those of the store history with this store appended |
| CacheStore.Cache.Restamp | internal/fleet/cache.go:241-246 | a known key keeps its node, restamped and moved behind all others |
| CacheStore.Cache.MoveToBack | internal/fleet/cache.go:245 | relinking moves one node to the end and keeps the order of the rest |
| CacheStore.Cache.Evict | internal/fleet/cache.go:250-257 | eviction removes from the front of list and map alike until the bound holds, and no further |
| CacheStore.CacheIsRecent | internal/fleet/cache.go:74-78 | every reachable cache holds the most recently stored distinct keys with their last value and time, by fetch time |
| CacheInvariants.InitialInv | internal/fleet/cache.go:112-125 | the invariant holds before the first call |
| CacheInvariants.StepKeepsInv | internal/fleet/cache.go:160-230 | every step of readers, refreshers, flights, clock and upstream keeps the invariant |
| CacheTheorems.MonotoneReads | internal/fleet/cache.go:160-258 | if upstream versions never decrease, a read of a key that starts after another returned is never older, across flights, refreshes, degraded answers and evictions |
| CacheTheorems.SeenWasResident | internal/fleet/cache.go:181-188 | the entry a read carries is what was resident under its key at its own lookup |
| CacheTheorems.CallWasInFlight | internal/fleet/cache.go:213-224 | the call a read waits for was in flight when that read joined it |
| CacheTheorems.EveryAnswerIsFresh | internal/fleet/cache.go:160-230 | every value returned is the resident entry this read copied out, younger than its window at the instant the read took; or the success of the call it joined in flight; or, after that call failed transiently, the too old entry it copied out; and it has the endpoint's type |
| CacheTheorems.FoundNeverRetryable | internal/fleet/cache.go:208-221 | a call that found an entry never fails with a 503 or a network timeout; past the window every other error surfaces unchanged |
| CacheTheorems.Caps | internal/fleet/cache.go:196-207 | one fetch in flight per key, one refresher per key, guard entries exactly for live refreshers, an exact counter, contents in order and bounded |
| CacheOrigins.UpstreamIs | internal/fleet/cache.go:166-173 | what the upstream has of a key at a step is the version last published before it |
| CacheOrigins.CallWasFetched | internal/fleet/cache.go:166-173 | whatever outcome a call has, at an earlier step, while it had none, it met the version the upstream had then of that key, or that very fault |
| CacheOrigins.StoreWasFetched | internal/fleet/cache.go:232-258 | every entry ever stored was fetched so by one call and then stored by it with the clock of that step |
| CacheOrigins.AnswerWasFetched | internal/fleet/cache.go:160-230 | every value or error that any read returns is one a call of that key met upstream; a value from the cache is that of such a store |
| CacheFlights.SharedWhileInFlight | internal/fleet/cache.go:166-173 | in every run a reader or a refresher shares a call of its key exactly if that call is in flight when it joins, and opens one exactly if none is |
| CacheFlights.SecondFlightRun | internal/fleet/cache.go:166-173 | for every endpoint and key there is a run from the empty cache in which two readers miss together and two upstream calls are made, the second while the entry is resident |
| CacheRevalidation.OnlyNeededCalls | internal/fleet/cache.go:190-224 | in every run an upstream call is opened only for a reader that found nothing or an entry past the TTL set, twelve times that for metadata and single events, or for its refresher |
| CacheRevalidation.AgedMeansRefreshed | internal/fleet/cache.go:193-207 | an entry past that TTL is served only by a read that has started a refresh of its key, or before whose answer another read's refresh of it was under way |
| CacheRevalidation.LookupByAge | internal/fleet/cache.go:190-207 | in terms of the two settings, twelve times them for metadata and single events: an entry younger than TTL is the answer, one younger than MaxStale leads to the refresh guard, any other and a miss to a flight |
| CacheRevalidation.AnswersByAge | internal/fleet/cache.go:50-221 | every read of every run answers by the age of what its lookup found: below TTL with that and no refresh of its own, up to MaxStale with that and a refresh of the key, else with what came of a call |
| CacheOutage.OutageResident | internal/fleet/cache.go:232-258 | while all upstream calls fail transiently the last store of a settled key shows the same value, is resident exactly while fewer than the bound of other keys follow it, and only keys with a success already fetched can be added to those |
| CacheOutage.OutageKeepsAnswering | internal/fleet/cache.go:208-221 | a read that starts in the outage returns the resident value of its key, whatever other keys still store, as long as no other outcome of its own key was pending and the entry has room for what was |
| CacheOutage.OutageFreezes | internal/fleet/cache.go:208-221 | if nothing was pending the cache does not change, and the entries with room are exactly the resident ones |
| CacheOutage.OutageStaysCalm | internal/fleet/cache.go:166-173 | no failed fetch, refresh or reader of the key hands out anything else on the way |
| CacheOutageLimits.OutageIff | internal/fleet/cache.go:166-221 | from any state of any run, every read started in the outage gets the last stored value, however the outage goes on, exactly if then no other outcome of the key is fetched and pending and the keys behind it, pending ones included, leave it room |
| CacheOutageLimits.PendingFailure | internal/fleet/cache.go:208-221 | for every request a run leaves its value resident with room and a terminal failure pending, which takes the answer away |
| CacheOutageLimits.PendingSuccess | internal/fleet/cache.go:208-258 | and another leaves a success of a newer version pending, which does too |
| CacheRetry.FoundMeansOneAttempt | internal/api/v1/fleet.go:280-287 | the retry wrapper makes exactly one attempt when the cached read found an entry |
| Retry.Attempts | internal/fleet/retry.go:39-65 | the number of calls is the position of the first outcome that is no 503 and no network timeout, or the last attempt |
| Retry.Do | internal/fleet/retry.go:39-65 | with the policy's own positive settings, and three attempts, 200 ms and 5 s for the others: calls stop there and return that outcome, or stop at the first cancelled sleep with its error; each sleep is the backoff of the failure before it |
| Retry.WithFleetRetry | internal/api/v1/fleet.go:285-287 | under the shipped policy a first and a second transient failure each cost one more call, after 200 ms or 400 ms and jitter, or what a 503 asks for up to 5 s; anything else is returned at once |
| Retry.WaitBounds | internal/fleet/retry.go:84-102 | a 503 waits in (0, max] and exactly its Retry-After when that fits; any wait stays below max plus base |
| Retry.WaitFloor | internal/fleet/retry.go:97-101 | for every jitter the wait reaches the smaller of base and max exactly when the 64-bit doubled delay does |
| Retry.WaitCeiling | internal/fleet/retry.go:84-102 | every draw stays within MaxDelay exactly when there is nothing to draw or the doubled delay leaves room for the largest draw |
| Retry.CeilingExceeded | internal/fleet/retry.go:97-101 | with 200 ms and 5 s the sixth wait, if there is one, is over MaxDelay for every draw but zero |
| Retry.DefaultDelays | internal/fleet/retry.go:24-28 | with the default delays all waits stay within MaxDelay for every draw exactly if there are at most six attempts; the default policy makes three |
| Retry.NoOverflow | internal/fleet/retry.go:97 | as long as the product fits 64 bits the doubled delay is the real one and the floor holds |
| Retry.ShiftedOut | internal/fleet/retry.go:97 | from attempt 65 on the doubled delay is zero, below the floor |
| Retry.TotalWait | internal/fleet/retry.go:50-65 | the time slept, a negative wait counting nothing, stays strictly below the number of waits times max plus base |
| RetryHeader.HeaderHonoured | internal/fleet/http.go:175-187 | the wait is what the header asks for exactly when the 64-bit nanosecond product does not come round to a delay that fits |
| RetryHeader.PrintedSeconds | internal/fleet/http.go:178-187 | a number of seconds, with spaces around it, a plus sign or leading zeros, is read back as that many nanoseconds |
| RetryHeader.FallsBack | internal/fleet/http.go:178-187 | a header that is missing, no number or negative makes the client wait 5 s, or MaxDelay where that is less |
| RetryHeader.WrappedSeconds | internal/fleet/http.go:186 | a header of 18446744074 seconds makes the client wait 0.29 seconds |
| Timestamps.FromToCivil | internal/triage/repo.go:454 | calendar fields name their instant, for every instant of the years 0 to 9999 |
| Timestamps.ToFromCivil | internal/triage/repo.go:454 | every valid set of calendar fields is that of its instant |
| Timestamps.YearsAreGregorian | internal/triage/repo.go:454 | the calendar of those fields has a leap day every fourth year, except in three of four century years |
| Timestamps.MonthsAreGregorian | internal/triage/repo.go:454 | and the months' lengths, February taking the leap day |
| Timestamps.TextOrderIsTimeOrder | internal/triage/repo.go:447-454 | stored timestamps sort as text exactly as they do in time |
| Timestamps.ParseFormat | internal/triage/repo.go:454-463 | a stored timestamp parses back to its instant |
| Timestamps.SuppressedOrder | internal/triage/repo.go:447-451 | with trailing zeros suppressed text order is time order exactly when the two lie in different seconds or the earlier fraction does not begin the later one |
| Timestamps.WholeSecondMisordered | internal/triage/repo.go:447-451 | suppressed, a whole second sorts after every later instant of that second |
| Timestamps.ParseSuppressed | internal/triage/repo.go:456-463 | suppressed timestamps still parse back to their instant |
| Cursors.CursorRoundTrip | internal/triage/repo.go:427-445 | a cursor decodes to what was encoded exactly when the host holds no separator; the event text is free |
| Cursors.DecodeIff | internal/triage/repo.go:435-445 | exactly text of a readable stamp, a host without separator and any rest is read as a cursor, and as those parts |
| Cursors.CursorCut | internal/triage/repo.go:435-445 | a host with the separator is read back as its part before it |
| TriageHistory.RowIsTold | internal/triage/repo.go:76-161 | after any history a row exists exactly if a complete upsert brought its evidence, and what is read of it is told by positions: the status last named, the assignee last cleared or set after the first write or else the first one's, evidence and creation time of the first, update time of the last |
| TriageHistory.ToldOnce | internal/triage/repo.go:76-161 | the calls tell one row at most |
| TriageHistory.NotesAreTold | internal/triage/repo.go:253-270 | the notes are, in order and numbered from one, author, body and time of exactly the complete note calls on rows existing by then |
| TriageHistory.LogIsTold | internal/triage/repo.go:109-155 | the log has, in order and numbered from one, exactly one entry for each call that gave a row its first status or another one, with that call's actor, statuses and time |
| Triage.ZeroTime | internal/triage/repo.go:456-463 | an unreadable stamp scans to the start of year 1 |
| Triage.AuditedStep | internal/triage/repo.go:253-270 | every upsert and note keeps log, rows and notes in agreement, also when refused |
| Triage.AlwaysAudited | internal/triage/repo.go:394-409 | in every reachable database a key has log entries exactly when it has a row, they chain from nothing to the current status without idle transitions, and every note has a row |
| TriageTime.AlwaysInTime | internal/triage/repo.go:76-161 | with a clock that never goes back creation is never after update and the log is in time order |
| TriageTime.OrderedAscends | internal/triage/repo.go:305-340 | the log listing is sorted by time, then id |
| TriageTime.ListedLogIsChain | internal/triage/repo.go:305-340 | listing a key's log yields a chain that ends in the row's current status |
| TriageRepo.Repo.Upsert | internal/triage/repo.go:76-161 | the in-place statements reach the specified database; the answer is the row that the calls so far and this one tell, or the error due, in the order of the checks |
| TriageRepo.Repo.AppendLogTx | internal/triage/repo.go:394-409 | one entry with the next id is appended, nothing else changes |
| TriageRepo.Repo.GetByEventKey | internal/triage/repo.go:163-174 | the row of the key as the calls so far tell it, or not found |
| TriageRepo.Repo.AppendNote | internal/triage/repo.go:253-270 | a complete note on an existing row is stored with the next id and handed back as given, anything else leaves the store alone |
| TriageRepo.Repo.ListLog | internal/triage/repo.go:305-340 | the entries of the key ordered by time and id, read as the calls that moved the row, or not found |
| TriageRepo.Repo.SelectRows | internal/triage/repo.go:193-226 | the query returns the first n matching rows behind the position, newest first |
| TriageRepo.Repo.ListByStatus | internal/triage/repo.go:177-244 | the page that the calls so far tell: size, filter, order, cursor and the two errors |
| TriageAnswers.ListIsTold | internal/triage/repo.go:177-244 | after any history, for all options: unknown statuses and unreadable cursors are refused in this order; else the rows told by the calls with a status asked for, behind the cursor, newest first, then by host and event, up to the limit (50 without one, 1000 at most), and a cursor to the last one exactly if there are more |
| TriageAnswers.UpsertIsTold | internal/triage/repo.go:76-161 | after any history an upsert answers the row with this call in, or what is missing or unknown |
| TriageAnswers.EntriesAreTold | internal/triage/repo.go:305-340 | with a clock that never goes back the log of a row is read as exactly the calls that moved it, in order, each with actor, statuses and time |
| Keyset.SelectionUnique | internal/triage/repo.go:193-226 | filter, order and limit leave one possible answer |
| Keyset.SortedHits | internal/triage/repo.go:193-226 | the matching rows can be listed in order, each once |
| Walk.NoRowTwice | internal/triage/repo.go:199-226 | over changing tables whose rows only move to newer stamps no position walk returns a key twice |
| Walk.EveryStillRow | internal/triage/repo.go:199-226 | a complete position walk, even one that steps back between pages, returns every matching row that does not change meanwhile |
| ListPages.CursorResumes | internal/triage/repo.go:229-243 | the textual cursor of a row resumes exactly behind it if its host holds no separator, and before it otherwise, so that the row matches again |
| ListPages.NoRowTwice | internal/triage/repo.go:177-244 | following NextCursor with any calls in between and a clock that never goes back, no key comes back twice if the rows that end pages have plain hosts |
| ListPages.EveryStillRow | internal/triage/repo.go:177-244 | a session that ran to the end returned every matching row that nobody touched, as the calls before it tell it, whatever the hosts |
| SessionRepeats.TwiceIff | internal/triage/repo.go:228-243 | without writes a session shows nothing twice exactly when the rows that end its pages have plain hosts |
| SessionRepeats.ListingIff | internal/triage/repo.go:177-244 | without writes the pages of a finished session show, column by column, the whole filtered table sorted by update time, host, event exactly under the same condition |
| SessionStarts.PageIsSlice | internal/triage/repo.go:193-243 | without writes page i begins where the start computed from the table says, shows the rows from there on, and offers another page exactly if more rows follow |
| SessionEndings.RepeatNeverEnds | internal/triage/repo.go:228-243 | once a cursor has been handed out twice no later page of the session is the last |
| SessionEndings.Pigeonhole | internal/triage/repo.go:228-243 | a session longer than the rows of the table plus one has had a cursor twice |
| SessionEndings.EndsIff | internal/triage/repo.go:228-243 | over any table, status filter and limit some session comes to a last page exactly if none is ever handed a cursor twice, and then after at most one page per row and one more |
| SessionTables.EndsOnTable | internal/triage/repo.go:193-243 | following cursors ends exactly if the page starts computed from the table reach a last page |
| SessionTables.OneRowPages | internal/triage/repo.go:228-243 | pages of one row come to an end exactly over a table in which no listed row but the last has a host with the separator |
| SessionTables.SeparatorLoops | internal/triage/repo.go:228-243 | with pages of one row, a row with the separator anywhere before the last of the list keeps every page, however many are asked for, from being the last; if it is the first row, every page shows it |
| SessionTables.PlainEnds | internal/triage/repo.go:228-243 | for every limit a table whose rows at the multiples of the limit have plain hosts is listed to an end |
| SessionTables.TwiceOnTable | internal/triage/repo.go:228-243 | whether a session repeats a row can be told from the hosts at the multiples of the limit in the sorted table, before it starts |
| SessionTables.ListedOnTable | internal/triage/repo.go:177-244 | a finished session that lists the whole filtered table once and in order exists exactly under that condition on the table |
| SessionTables.EndlessHistory | internal/triage/repo.go:76-161 | for every host with the separator two upserts leave a store over which sessions of every length exist, one row a page, all the same |
| ListPages.SessionEnds | internal/triage/repo.go:228-243 | with plain hosts at the page ends the number of pages is bounded by the rows there are |
| LoginAttempts.Attempts.Begin | internal/auth/oidc.go:117-133 | the purge loop keeps exactly the unexpired attempts, then the cap decides whether the new one is added |
| LoginAttempts.Attempts.Consume | internal/auth/oidc.go:135-147 | a match removes the attempt and returns it if it has not expired, anything else changes nothing |
| LoginAttempts.AlwaysAgrees | internal/auth/oidc.go:61-73 | the table holds only issued, unused attempts, and all of those not expired |
| LoginAttempts.ConsumeIff | internal/auth/oidc.go:135-147 | consume succeeds exactly for a state issued with that binding less than five minutes ago and not presented with it since, and returns that attempt |
| LoginAttempts.FailedConsume | internal/auth/oidc.go:135-147 | a failed consume never loses a live attempt, and a wrong binding changes nothing |
| LoginAttempts.EmptyBinding | internal/auth/oidc.go:135-147 | without a binding nothing is ever consumed |
| LoginAttempts.BeginPurges | internal/auth/oidc.go:117-133 | a Begin leaves nothing expired behind, even when it is refused |
| LoginAttempts.AtMostOnce | internal/auth/oidc.go:58-68 | no state is consumed twice in a run, whatever the clock does |
| LoginAttempts.BeginIff | internal/auth/oidc.go:117-133 | Begin refuses exactly when 1024 attempts are pending |
| LoginAttempts.Bounded | internal/auth/oidc.go:73 | the table never exceeds 1024, whatever the clock and the callers do |
| RateLimiter.Limiter.Allow | internal/api/v1/ratelimit.go:37-65 | decision, remaining time and new windows are those of the specification, sweep included |
| RateLimiter.Limiter.OpenWindow | internal/api/v1/ratelimit.go:45-58 | a new window replaces the old one, after a sweep when more than 1024 are kept |
| RateLimiter.Limiter.Sweep | internal/api/v1/ratelimit.go:50-56 | the sweep drops exactly the expired windows |
| RateLimiter.SweepUnobservable | internal/api/v1/ratelimit.go:48-56 | in every run each decision is that of a limiter that never sweeps |
| RateLimiter.NoSweepBelow | internal/api/v1/ratelimit.go:48-56 | up to 1024 windows are left alone |
| RateLimiter.TableStaysSmall | internal/api/v1/ratelimit.go:48-58 | in every run with a clock that never goes back the sweep leaves at most 1025 windows, or no more than there were addresses trying within one window length before some attempt |
| RateLimiter.SlidingBound | internal/api/v1/ratelimit.go:12-17 | in any closed interval of n window lengths a key is let through at most (n + 1) * max times, one less for n at least 1 |
| RateLimiter.BoundIsReached | internal/api/v1/ratelimit.go:39-65 | for every max, window and number n of windows up to the window length in nanoseconds a run reaches (n + 1) * max - 1 |
| RateLimiter.ExceededIff | internal/api/v1/ratelimit.go:39-65 | some run exceeds (n + 1) * max exactly when max is below one |
| RateLimiter.RetryAfterIsExact | internal/api/v1/ratelimit.go:76-80 | the advertised seconds are the least whole number after which the next attempt is let through, whatever others do meanwhile |
| MockIds.UuidOrder | internal/fleet/mock.go:594-606 | identifiers sort by milliseconds modulo 2^48, then by the groups of the counter, and are equal exactly when both agree |
| MockIds.CounterWithinGroup | internal/fleet/mock.go:600-605 | within a millisecond the counter orders identifiers below 4096; 4096 already sorts before 4095 |
| MockIds.LayoutIs | internal/fleet/mock.go:594-606 | the fields of an identifier and its version and variant digits stand where the layout has them |
| MockRows.BuildEvents | internal/fleet/mock.go:550-592 | the loop builds one event per recipe, staggered by 44 minutes, and sorts them by identifier |
| MockRows.BuiltEvents | internal/fleet/mock.go:587-591 | for every seed each recipe's event, 44 minutes older than the one before, is listed once and identifiers strictly descend; while milliseconds fit 48 bits the sort has nothing to do and the order is newest first |
| MockRows.EventsAre | internal/fleet/mock.go:251-274 | the filter lets through, in order, exactly the events from since on and before until of a host, severity and kind asked for and, for risk assessments, of at least the bucket asked for |
| MockRows.HostsAre | internal/fleet/mock.go:276-286 | exactly the hosts of a status and risk bucket asked for, with their status and risk |
| MockRows.RisksAre | internal/fleet/mock.go:145-175 | exactly the hosts with a risk of a tool asked for and at least the bucket asked for, low below medium below high below critical |
| MockRows.ComplianceIs | internal/fleet/mock.go:198-225 | one row per host, version 0 and not expired for a host without policy state |
| MockRows.SortByScoreSorts | internal/fleet/mock.go:176 | the risk order descends by score and keeps every row |
| MockRows.SortByScoreStable | internal/fleet/mock.go:176 | rows of equal score keep their order |
| MockRows.StableSortUnique | internal/fleet/mock.go:176 | no other list is sorted and stable, so any stable sort gives this one |
| MockRows.HostRowsDistinct | internal/fleet/mock.go:101-111 | filtering hosts keeps their identifiers apart |
| MockPaging.Events | internal/fleet/mock.go:63-87 | the page is the cut of the matching events below the cursor |
| MockPaging.Resume | internal/fleet/mock.go:113-133 | the page is the cut of the rows behind the cursor's row, from the start for an unknown cursor |
| MockPaging.RestIs | internal/fleet/mock.go:63-133 | a listing resumes behind the first row with the cursor's identifier, from the start without such a row, events at the first identifier below the cursor |
| MockPaging.FleetHosts | internal/fleet/mock.go:101-133 | pages of the hosts that match |
| MockPaging.FleetRisk | internal/fleet/mock.go:145-195 | pages of the matching risk rows by score |
| MockPaging.FleetCompliance | internal/fleet/mock.go:198-245 | pages of one row per host |
| MockPaging.WalkIsComplete | internal/fleet/mock.go:63-87 | following cursors from the start lists every row once, in order, with at most one fetch per limit rows and one more |
| MockPaging.MockWalks | internal/fleet/mock.go:101-245 | this holds for all four endpoints, every filter and every limit |
| CommaList.TrimIs | internal/api/v1/fleet.go:265 | trimming takes spaces off both ends and nothing else |
| CommaList.SpacesAre | internal/api/v1/fleet.go:271 | what is trimmed are the code points with Unicode's White_Space property |
| CommaList.Compact | internal/api/v1/fleet.go:262-277 | the in-place compaction leaves the trimmed nonempty parts in front and the array behind them as it was |
| CommaList.SplitComma | internal/api/v1/fleet.go:258-278 | the result is the trimmed nonempty parts in order |
| CommaList.ListConcat | internal/api/v1/fleet.go:258-278 | the list of two joined values is the concatenation of their lists |
| CommaList.ParseHostIds | internal/api/v1/fleet.go:246-256 | repeated parameters parse to the same list as one joined parameter |
| CommaList.JoinRoundTrip | internal/fleet/http.go:220-225 | a joined list is read back unchanged exactly when its elements are nonempty, trimmed and without comma |
| CommaList.HopsAreStable | web/src/api/fleet.ts:497-500 | a list read from any request survives every further hop |
| PagedFleet.AlwaysChain | web/src/hooks/usePagedFleet.ts:21-23 | however the server behaves, each page was asked for with the cursor of the page before and no cursor is asked for twice |
| PagedFleet.LoadsReplies | web/src/hooks/usePagedFleet.ts:21-23 | the pages shown are the replies as they came, up to the first one without a cursor or with one asked for before |
| PagedFleet.FetchBound | web/src/hooks/usePagedFleet.ts:21-23 | a server with N cursors is asked at most N + 1 times |
| PagedFleet.EndOfList | web/src/hooks/usePagedFleet.ts:39-40 | neither more pages nor a repeated cursor means exactly that the last page had no cursor |
| PagedFleet.NothingMissed | web/src/hooks/usePagedFleet.ts:21-23 | once there is no more to load every page reachable by cursors is loaded, even when cursors run in a circle |
| PagedFleet.Rows | web/src/hooks/usePagedFleet.ts:28-38 | the filter over the Set of seen identities yields the first occurrences |
| PagedFleet.FirstsAre | web/src/hooks/usePagedFleet.ts:28-38 | these are exactly the rows with no earlier row of their identity, in order |
| PagedFleet.DistinctIds | web/src/hooks/usePagedFleet.ts:28-38 | no two shown rows share an identity |
| PagedFleet.LoadMoreExtends | web/src/hooks/usePagedFleet.ts:41 | loading more only extends the list |
| Shortcuts.Keyboard.Clear | web/src/hooks/useShortcuts.ts:59-65 | clearing takes the leader down together with its timer |
| Shortcuts.Keyboard.TimerRings | web/src/hooks/useShortcuts.ts:97 | a timer that was cleared does nothing |
| Shortcuts.Keyboard.KeyDown | web/src/hooks/useShortcuts.ts:67-108 | leader, timers and the handlers called are those of the specification |
| Shortcuts.AlwaysOneTimer | web/src/hooks/useShortcuts.ts:57-65 | for every interleaving at most one timer is pending, it is the current leader's, and there is one exactly while the leader is up |
| Shortcuts.OneHandler | web/src/hooks/useShortcuts.ts:67-108 | a key calls at most one handler, one bound to it, and an ignored key changes nothing |
| Shortcuts.KeysInEveryRun | web/src/hooks/useShortcuts.ts:67-108 | in every run, however late timers ring, each key calls exactly what the keys and rings before it call for |
| Shortcuts.ComboIff | web/src/hooks/useShortcuts.ts:83-100 | a g binding fires exactly when the last key that counted was a g whose own timer has not rung since |
| Shortcuts.ShiftCounts | web/src/hooks/useShortcuts.ts:79-93 | a bare Shift between g and a takes the leader down, so that a fires alone |
| Shortcuts.KeysAsExpected | web/src/hooks/useShortcuts.ts:67-108 | when timers ring on time each key does what the last key that counted and the clock alone say |
| Shortcuts.LeaderIff | web/src/hooks/useShortcuts.ts:83-100 | when timers ring on time a g binding fires exactly when the last key that counted was a g less than 1000 ms before |
| Shortcuts.LateIff | web/src/hooks/useShortcuts.ts:83-100 | as long as no timer rings early a key does what the last key and the clock say, except exactly when the g that leads is overdue and the key has a binding behind g, which then fires too late |

## Left out

- Transport: HTTP, TLS, JSON, routing, cookies, the embedded browser bundle and process start-up.
- Libraries: SQLite, singleflight, container/list, the browser's query library, oauth2, go-oidc and jwt are replaced by the small contracts named above; a list element is a node in a sequence.
- Errors from the database and cancelled request contexts inside the triage store; a cancelled sleep is modelled in `Retry.Do`.
- ListNotes, which has the shape of ListLog, and the lookup of triage rows beside events.
- The rest of `OIDC.Complete`: token exchange and claim checks.
- Timestamps.ParseSuppressed: parsing accepts the layouts the store writes or has written, not the numeric zone offsets and other spellings that `time.Parse` also takes.
- Policies.WithDefaults: twelve times a window is unbounded here, so a TTL beyond 24 years, whose product leaves 64 bits, is not modelled.
- Leaving a flight and releasing the refresh guard are one step of a refresher, because nothing can observe the point in between except a later claim.
- ListPages.NoRowTwice: with writes in between, plain hosts at the page ends are shown to suffice; that they are also needed is shown for sessions without writes, since a write may move the row away in time.
- ListPages.SessionEnds: the same condition, with writes in between; for sessions without writes `SessionEndings.EndsIff` is exact.
- CacheOutage.OutageKeepsAnswering: asks that no other outcome of the key itself was fetched and pending when the outage began and that the entry has room; `CacheOutageLimits.OutageIff` shows that both are needed.
- TriageAnswers.EntriesAreTold: assumes a clock that never goes back; otherwise the log is read in the order of its stamps.
- CacheTheorems.MonotoneReads: orders versions, not fetch times, and assumes as its premise that an endpoint's upstream version never decreases.
- LoginAttempts.ConsumeIff: assumes generated states are fresh and a clock that never goes back.
- RateLimiter.SlidingBound: assumes a window length of at least zero and a clock that never goes back; the constructor is only called with one minute.
- RateLimiter.RetryAfterIsExact: whole seconds are exact here; the code goes through a float, which can only round up.
- The exemption of loopback addresses and the choice of the client address.
- MockPaging.FleetRisk: the top tool of a host is taken as given, since picking it ranges over a map in no fixed order when scores tie; scores are reals.
- MockPaging.MockWalks: asks for distinct host identifiers that are not empty, as the fixtures have them; fixture contents are not modelled.
- MockRows.BuildEvents: events carry only the fields that filters read.
- The other filters of `parseEventsParams` and the other query builders, which repeat the same join.
- CommaList.TrimIs: text is Unicode scalar values, so byte sequences that are not UTF-8 are not modelled.
- PagedFleet.AlwaysChain: a refetch is a new chain over as many replies; concurrent refetches are the library's business.
- Shortcuts.LeaderIff: speaks of milliseconds, so it assumes that a due timer rings before the next key is handled, as does `Shortcuts.KeysAsExpected`; `Shortcuts.LateIff` says exactly what a late timer changes.
- React components, styles, configuration, compliance labels and error mapping: settled by reading one branch.
