# A verified model of the secret server's lookup protocol

The server stores encrypted secrets and releases one to a client that knows an
identifier and an authentication key. Guessing keys is limited per identifier:
`/fetch` and `/trash` share a map from hashed identifiers to rate-limit windows,
and every distinct candidate key reserves a slot of its identifier's window
before the database is asked. This project models that protocol and the smaller
mechanisms around it (token buckets, the `/attempts` snapshot and its cache, the
row lifecycle, the canary cache) and proves what they promise.

## How the model is built

- `Models` holds the data and the validated configuration ranges; `Limiter`
  holds the critical sections of the map lock as functions on the map.
- `Server` runs the handlers on shared state in place: the limiter behind its
  lock, the cancellation guard, and `/fetch`, `/trash` and `/store` from request
  to response. Every method's new state is tied to the functions of `Limiter`,
  `TokenBucket` and `Database`.
- `Protocol` is the concurrent machine: requests in flight, armed guards,
  deferred cleaners, detached finalizers, database jobs holding permits, the
  clock, the sweeper and cancellation at every await. One step is what a task
  does between two awaits; it uses the same functions as `Server`.
- `Ledger` pairs the map with a history: who opened each window, who holds each
  candidate, how every reservation ended. The history is bookkeeping for the
  theorems; no step reads it to decide anything.
- `LedgerProofs` and `ProtocolProofs` prove the inductive invariant step by step.
  `Theorems`, `Accounting`, `Decisions`, `Lockout`, `Drain`, `Tags` and
  `Tightness` state what holds in every reachable state or over every run.
- `Independence`, `Expiry` and `MachineRuns` compare whole runs with each other;
  `Telemetry` and `Snapshot` are about what `/attempts` publishes; `Instances`
  holds reachable runs that the documentation describes otherwise.
- `TokenBucket`, `SnapshotCache`, `EntityTags`, `Canary`, `Database` and `Utils`
  stand by themselves.

## What is assumed

- The clock does not run backwards. `requested_at` is read before the map lock is
  taken (`src/handlers/fetch.rs:231-233`), so requests may take the lock out of
  the order of their timestamps; `Config.skew` bounds the delay and may be
  anything from zero to the 30 s route timeout (`src/router.rs:20`). Only the
  claims that say so assume that it is zero. A sweep may use any earlier reading.
- The map lock serializes critical sections, and a database command is atomic and
  may fail for no stated reason.
- SHA-256 is a parameter, injective only where a claim says so. Bucket levels and
  refill are exact reals. Instants and durations are integer nanoseconds; counters
  keep their `u8` and `u64` widths and their saturation.
- A canary file is parsed as it is at one instant after its metadata is read. It
  may be rewritten or replaced between the two, but not in place while its lines
  are being read.
- A field line of `If-None-Match` is a list of entity-tags with optional
  whitespace and empty elements, or a lone `*`; a tag does not run over two lines.

## Where the code and its documentation differ

The model follows the code.

- `README.md:82` says `previous_attempt_at` is null when the request opened the
  window. For a new candidate that is exactly right (`NewStatusIsTrue`); a replay
  also gets null although it opened nothing (`ReplayedStatusIsTrue`, and in a
  run: `SomeReplayHasNoPrevious`).
- `README.md:54` says a duplicate pending candidate gets 503 before saturation. The
  code tests saturation first, so in a full window it gets 429, as `README.md:55`
  says (`AdmissionDecision`, and in a run: `SomePendingDuplicateIsLimited`).
- `README.md:105` tells clients to honour `Retry-After`, but the header rounds down:
  a client that waits exactly that long is let in by the window that locked it out
  if and only if less than a second remained (`ExactRetryAfterInRuns`). One second
  more always suffices (`OneMoreSecondSufficesInRuns`).
- The comment at `src/handlers/attempts.rs:74-75` appeals to the weak comparison of
  RFC 9110. The code answers from the first field line only, from none that has a
  byte beyond ASCII, and splits at every comma, those inside tags included. So it
  departs from section 13.1.2 when a matching tag shares its line with a tag that
  has such a byte (section 8.8.3 allows them as obs-text) or stands on a later line
  (section 5.2 makes them one list), and when nothing matches but some tag's text
  has `*` between two of its own commas (`AgreesIff` says exactly when;
  `ObsTextCounterexample`, `SecondLineCounterexample`, `CommaCounterexample`).
- A refund gives the slot back but not the time: `last_candidate_at` stays that of
  the last new candidate, refunded or not (`WindowInstants`).
- A published last attempt can lie before the published start of its window when
  readings of the clock and the lock are out of order (`OutOfOrderReadings`).

## Model

| member | source | states |
|---|---|---|
| Theorems.GuessBound | src/handlers/fetch.rs:159-294 | In every run, whatever cancellations, refunds, sweeps and late finalizers interleave, no interval of lock times of length at most cooldown - skew holds more than `max` distinct guesses (new admissions whose lookup returned) of one identifier |
| Theorems.GuessBoundAnyLength | src/handlers/fetch.rs:159-294 | An interval shorter than k periods of cooldown - skew (and a nanosecond each) holds at most k times `max` guesses |
| Tightness.GuessBoundIsTight | src/handlers/fetch.rs:231-293 | For every budget and skew there is a run with one guess more than the budget in an interval one nanosecond longer than the bound allows |
| Theorems.CompletionIsOwn | src/handlers/fetch.rs:18-35 | A completion by either path changes nothing when its owner's window is gone, even when a later window of the identifier is there, whose generation is then strictly later; otherwise its own candidate is committed by an answer and gone after a failure, with the entry if it was the last, the failed count grows by one exactly on a miss, and all instants, the request total and every other candidate and entry stay |
| Theorems.SingleOwner | src/handlers/fetch.rs:78-99 | Every pending candidate of a reachable state has exactly one owner: an armed handler, a deferred cleaner or a detached task |
| Theorems.OwnerFindsPending | src/handlers/fetch.rs:307-380 | An owner whose window still exists finds its own candidate pending in it, with cancellation possible at every await |
| Theorems.MapInvariants | src/handlers/fetch.rs:239-251 | The map never exceeds its capacity, no entry is empty or over budget, and a last candidate is never older than its window by more than the skew |
| Theorems.FailedNeverSaturates | src/handlers/fetch.rs:183-187 | A finalizer that acts always finds `failed_candidates` below `max`, so the saturating addition never saturates |
| Theorems.RowsAreExplained | src/database.rs:126-168 | In every run of all three routes, rows created minus rows released is presence, and a row there is the first one stored since its last release |
| ProtocolProofs.StepKeeps | src/handlers/fetch.rs:202-402 | Every step of the machine, cancellation, timeout, late completion and sweep included, keeps the invariant that ties tasks, permits, windows, history and rows together |
| LedgerProofs.AdmittedKeeps | src/handlers/fetch.rs:232-294 | One admission under the lock keeps windows and history in agreement, and any two unrefunded reservations close in lock time in one window |
| LedgerProofs.CompletedKeeps | src/handlers/fetch.rs:159-200 | One completion by either path keeps them, whether its window is still there or not |
| LedgerProofs.ActsIffLive | src/handlers/fetch.rs:166-175 | The test both completions make (generation equal and candidate pending) succeeds if and only if the window that was joined still exists |
| LedgerProofs.ReleaseIsFailedFinalize | src/handlers/fetch.rs:24-34 | `remove_pending` and a failed `finalize` do the same to the map wherever no entry is empty |
| Accounting.WindowAccounting | src/handlers/fetch.rs:176-192 | `failed_candidates` counts the misses finalized in the window, pending and committed candidates count its open and its answered reservations, `total_requests` the requests that reached it capped at u64, and failed <= committed <= candidates <= max <= 255 |
| Accounting.WindowInstants | src/handlers/fetch.rs:274-278 | A window starts at its opener's timestamp, and its last candidate time is that of the one new admission of the window with the greatest turn, refunded or not; its last request time is that of a request that reached it |
| Accounting.TurnsFollowTheLock | src/handlers/fetch.rs:232-294 | Turns number the new admissions in the order in which they held the lock: each step keeps them, and a new admission gets the next |
| Decisions.LastRequestFollowsTheLock | src/handlers/fetch.rs:252-256 | A request that takes the lock sets its window's last request time to its own, whatever it is answered, and no other step changes it |
| Accounting.EveryReservationIsAccountedFor | src/handlers/fetch.rs:347-380 | A reservation is open exactly while some task owns it, and a closed one is a hit, a miss, refunded or dropped; only returned lookups become hits or misses, and those stay committed while their window lives |
| Accounting.FateIsFinal | src/handlers/fetch.rs:171-175 | No step changes a reservation that has ended |
| Accounting.FateIsFinalInRuns | src/handlers/fetch.rs:75-99 | Neither does any run, late cleaners and finalizers included |
| Accounting.OnlyItsOwnerEndsIt | src/handlers/fetch.rs:324-330 | No step but a completion of its own owner ends a reservation |
| Accounting.HowItEnds | src/handlers/fetch.rs:176-199 | That completion records it as dropped if and only if the window is gone, and otherwise as hit, miss or refund by what the lookup returned |
| Decisions.AdmissionDecision | src/handlers/fetch.rs:232-294 | Exactly when a lookup is answered 503 for capacity, 429, 503 as a duplicate, a replay or a new admission, in terms of the windows in force and of who reserved the candidate before; in a full window the answer is the same for every candidate |
| Decisions.AdmittedGoesOn | src/handlers/fetch.rs:296-323 | A lookup goes on to wait for a permit, with its own operation and tag, exactly when it is admitted as new or as a replay, and changes no other task |
| Decisions.RefusedIff | src/handlers/fetch.rs:239-251 | Capacity refuses exactly when the identifier has no window in force and the others' unexpired entries fill the map; an identifier with an entry, even expired, is never refused |
| Decisions.AdmitSees | src/handlers/fetch.rs:234-256 | An admission that is not refused acts on the identifier's window in force, or on a fresh one in place of an expired or missing one |
| Decisions.AdmitElsewhere | src/handlers/fetch.rs:234-256 | An admission changes no other identifier's entry and removes one only if it is expired at the request's time |
| Decisions.ReservedIff | src/handlers/fetch.rs:267-281 | A candidate is pending, or committed, exactly when some reservation of that candidate in the window is open, or was answered |
| Decisions.NewStatusIsTrue | src/handlers/fetch.rs:102-119 | Every field of a new admission's status is the count or instant the history gives it; the previous attempt is null exactly when the request opened the window, and otherwise that of the admission before it |
| Decisions.ReplayedStatusIsTrue | src/handlers/fetch.rs:269-277 | A replay reserves nothing and keeps the candidates and the reset time; its totals are the history's and its previous attempt is null although another request opened the window |
| Lockout.FullCommitmentIsStable | src/handlers/fetch.rs:257-266 | Once `max` candidates are committed, every request of the identifier gets the same 429, whatever the candidates, the database and all other tasks do, until some step observes a time after the last candidate's cooldown |
| Lockout.FullStep | src/handlers/fetch.rs:232-266 | One such step keeps the lockout and answers any request of the identifier with it |
| Lockout.RetryAfterBounds | src/handlers/fetch.rs:128-130 | The remaining time is below Retry-After + 1 s, and Retry-After is at most the larger of one second and the remaining time |
| Lockout.OneMoreSecondSufficesInRuns | src/handlers/fetch.rs:121-146 | Along any run from a lockout, a request that comes Retry-After + 1 s later or more is admitted if the window is still there, and a 429 can only come from a window opened since |
| Lockout.ExactRetryAfterInRuns | src/handlers/fetch.rs:128-130 | Along any run that keeps the window, a request exactly Retry-After later is admitted if and only if less than a second remained, and locked out again if and only if at least a second did |
| Lockout.RetryDecision | src/handlers/fetch.rs:234-266 | Along any run, a window once fully committed and still there answers 429 exactly up to the end of its cooldown and admits exactly after it |
| Lockout.OneMoreSecondSuffices | src/handlers/fetch.rs:121-146 | The same of one map that nobody has touched since, full of pending or committed candidates |
| Lockout.ExactRetryAfterIff | src/handlers/fetch.rs:128-130 | Likewise for exactly Retry-After |
| Lockout.RetryAfterCanBeEarly | src/handlers/fetch.rs:128-130 | An instance: with 1.5 s left the header says 1 and honouring it is answered 429 |
| Drain.PermitsConserved | src/handlers/store.rs:87-116 | Free permits plus running jobs of `/store`, `/fetch` and `/trash` are always the semaphore's size |
| Drain.MeasureDrops | src/handlers/fetch.rs:309-402 | Every step a task takes makes the outstanding work smaller, and clock and sweeps leave it alone |
| Drain.RunsAreShort | src/handlers/fetch.rs:309-402 | A run without arrivals contains at most as many task steps as that measure |
| Drain.NeverStuck | src/handlers/fetch.rs:309-330 | Every task of a reachable state has an enabled step of its own that waits for no other task |
| Drain.Drains | src/handlers/fetch.rs:347-375 | From every state that satisfies the invariant some run of task steps no longer than the measure ends with no task left |
| Drain.QuiescentIsIdle | src/handlers/fetch.rs:347-380 | Every reachable state in which no task can step has all permits free and no pending candidate, cancelled handlers included |
| Expiry.LazyRefinesEager | src/handlers/fetch.rs:234-251 | With timestamps in lock order, the map that keeps expired entries around gives the admissions, lockouts, refusals and listings of a map that holds unexpired windows only |
| Expiry.SweepsAreUnobservable | src/rate_limit.rs:48-58 | Two runs that differ only in their sweeps are answered alike |
| Expiry.LateReadingsSeeSweeps | src/handlers/fetch.rs:231-238 | The order is needed: a sweep past the end of a lockout turns the 429 of a request that read the clock at its end into an admission |
| MachineRuns.RunIsLazy | src/handlers/fetch.rs:202-294 | A run of the machine, whatever the skew, is a run of those critical sections with the same map and answers |
| MachineRuns.RunInOrder | src/handlers/fetch.rs:231-233 | And without skew those sections observe times in order |
| MachineRuns.MachineAnswersEagerly | src/handlers/attempts.rs:109-113 | So every lookup of a run without skew is answered as by a map that forgets each window when its cooldown ends and never sweeps |
| MachineRuns.MachineTreatsIdentifiersAlone | src/handlers/fetch.rs:234-256 | In every run of the machine, whatever the skew, an identifier's entry and the answers to its lookups, capacity refusals apart, are those of a map that only it uses and that is cleared of expired entries at the same moments |
| Independence.IdentifiersAreIndependent | src/handlers/fetch.rs:234-256 | With readings in any order: deleting every operation of other identifiers but the moments at which they or a sweep or snapshot clear the map, and the requests refused for capacity, leaves one identifier's entry and its answers exactly as they were over the whole run |
| Independence.OwnOperationsSuffice | src/handlers/fetch.rs:234-256 | With timestamps in lock order those moments can be deleted too: the answers and the window in force stay the same |
| Independence.FullMapShowsToLateReadings | src/handlers/fetch.rs:239-245 | Out of that order they cannot: in a full map, another identifier's request that read the clock after the end of a lockout takes the locked entry away, and a request that read it before and enters later is admitted or refused instead of locked out |
| Independence.Elsewhere | src/handlers/fetch.rs:234-251 | A step of somebody else leaves an identifier's entry exactly as it is, or removes it, and then the entry is expired by that step's reading of the clock |
| TokenBucket.TokenBucket.constructor | src/rate_limit.rs:16-23 | A bucket starts full, at its creation instant |
| TokenBucket.TokenBucket.TryConsume | src/rate_limit.rs:27-38 | Refills in place for the time since the last call, never above capacity, and takes a token if there is one |
| TokenBucket.LevelIsTightest | src/rate_limit.rs:27-38 | The tokens a call finds are the least, over all calls up to it, of capacity + rate * (time since) minus the grants since then |
| TokenBucket.RefusedExactly | src/rate_limit.rs:32-37 | A call is refused if and only if, counted from some earlier call or from itself, one more grant would exceed capacity + rate * (time since) |
| TokenBucket.IntervalBound | src/rate_limit.rs:27-38 | No interval of calls grants more than capacity + rate * (its length) |
| TokenBucket.RefusedCallsAreFree | src/rate_limit.rs:27-38 | Deleting any refused calls from a trace changes no other answer |
| TokenBucket.WaitingOnePeriodSucceeds | src/rate_limit.rs:27-38 | With capacity at least one, a call one refill period after a refusal, with no grant between, succeeds |
| Snapshot.SnapshotIsCanonical | src/handlers/attempts.rs:107-142 | Whatever order the map is iterated in and whatever sort by hash is used, the listing is one and the same, strictly increasing, of exactly the unexpired entries |
| Snapshot.SortedCollection | src/handlers/attempts.rs:114-136 | Any sorted copy of the entries is strictly increasing and lists exactly the map |
| Snapshot.ListingIsUnique | src/handlers/attempts.rs:133-136 | Two strictly increasing listings of one map are equal |
| Snapshot.SortSorts | src/handlers/attempts.rs:136 | Insertion by hash yields a non-decreasing permutation |
| Snapshot.LessIsLexicographic | src/handlers/attempts.rs:136 | The order ascends: the first difference decides and a prefix comes first |
| Snapshot.TruncationIsMonotone | src/utils.rs:37-41 | Truncation keeps order, yields a full hour and loses less than an hour, before the epoch too |
| Telemetry.PublishedTimesAreOrdered | src/handlers/attempts.rs:116-123 | A published last attempt is at most an hour before the published window start, and never before it when requests take the lock in timestamp order |
| Telemetry.PublishedEntriesAreTrue | src/handlers/attempts.rs:114-124 | In every reachable state, each published entry counts the unrefunded reservations of its identifier's window as attempts, its misses as failures and the requests that reached it, capped at u64, and shows the hours of its opener and its last request |
| Telemetry.OutOfOrderReadings | src/handlers/attempts.rs:121-122 | With any positive skew there is a run that publishes a last attempt an hour before its window's start |
| Instances.SomeReplayHasNoPrevious | src/handlers/fetch.rs:269-277 | For every budget of two or more there is a run to a replay without a previous attempt in a window that another request opened |
| Instances.SomePendingDuplicateIsLimited | src/handlers/fetch.rs:257-268 | For every budget there is a run to a full window in which a duplicate of a pending candidate gets 429 |
| SnapshotCache.AttemptsCache.GetAttempts | src/handlers/attempts.rs:51-66 | In place: a snapshot younger than the TTL stays and is served; otherwise a rebuild replaces it, and one that fails leaves it |
| SnapshotCache.BuildsAreSpaced | src/handlers/attempts.rs:51-60 | Along any serialized run, each value of the cache is the one before it, or the build of the call in between, stamped at least a TTL later |
| SnapshotCache.SpacedPairs | src/handlers/attempts.rs:51-60 | So any two values of the cache are equal or stamped at least a TTL apart |
| SnapshotCache.ServedIsFresh | src/handlers/attempts.rs:51-66 | While the snapshot is younger than the TTL a call keeps and serves it, whatever a rebuild would yield; otherwise it installs and serves the rebuild, or fails and changes nothing; the header covers the remaining time and less than a second more |
| SnapshotCache.MaxAgeRoundsUp | src/handlers/attempts.rs:181-184 | max-age is at least 1, and while time remains it covers that time and less than a second more |
| EntityTags.NotModifiedIff | src/handlers/attempts.rs:68-79 | For every header of lines of entity-tags, with commas and bytes beyond ASCII inside tags: 304 if and only if there is a first line, it has no byte beyond ASCII, and some member of it weakly equals the server's tag or some tag's text in it has `*` or `W/*` between two commas |
| EntityTags.AgreesIff | src/handlers/attempts.rs:68-79 | The answer is that of section 13.1.2 of RFC 9110 for the list of all lines if and only if: on a first line of ASCII some member matches, or some tag has such a part exactly when a later line has a match; or the first line has a byte beyond ASCII and no line has a match |
| EntityTags.AgreesWithoutCommas | src/handlers/attempts.rs:68-79 | In particular it is, for every single line of ASCII whose tags have no commas inside |
| EntityTags.FieldValueIsOneList | src/handlers/attempts.rs:68-72 | The lines joined by commas, as section 5.2 of RFC 9110 has it, are the list of the members of all lines |
| EntityTags.CommaCounterexample | src/handlers/attempts.rs:72-77 | The well-formed tag `"a,*,b"` is answered 304 although it is not the server's |
| EntityTags.ObsTextCounterexample | src/handlers/attempts.rs:70 | A matching tag after a tag with the byte 0xE9 is answered 200 |
| EntityTags.SecondLineCounterexample | src/handlers/attempts.rs:68-69 | A matching tag on a second line is answered 200 |
| EntityTags.StarMatches | src/handlers/attempts.rs:72-77 | A lone `*` with any whitespace around it always matches |
| Database.Table.Insert | src/database.rs:126-136 | Adds the row if its id is new, leaves an existing one alone, and reports only errors |
| Database.Table.ReadAndTrashSecretById | src/database.rs:151-168 | Reads and deletes in one transaction; any error leaves the rows as they were |
| Database.RowIsFirstStored | src/database.rs:126-136 | A row is there exactly when an accepted store still stands, and it is the first such store since the last release |
| Database.LookupAnswersStanding | src/database.rs:138-149 | Every lookup in a history answers the store that stands at its point, or no row |
| Database.RowsAreConserved | src/database.rs:151-168 | Rows created minus rows released is 1 if the row is there and 0 if not |
| Database.ReleasedOnce | src/database.rs:155-167 | Between two releases of an id lies an accepted store of it, so racing trashes release a row once |
| Canary.ReadCanary | src/env.rs:181-193 | The line loop computes the state of the file, and reports a removed canary when every line is well formed and none has the key |
| Canary.FirstItemDecides | src/env.rs:185-192 | The first line that is malformed or has the key decides, whatever follows |
| Canary.CanaryCache.Read | src/env.rs:210-252 | Answers from the cache on an equal stamp, otherwise parses and caches; an unavailable file never replaces the cached entry |
| Canary.CacheAgreesIff | src/env.rs:210-252 | For every history of the file: every answer of every schedule of calls is a direct parse at some instant of its call if and only if, whenever a stamp is seen twice, every canary readable between is the one readable at the end |
| Canary.FaithfulStampsSuffice | src/env.rs:222-250 | Under that condition every answer of every schedule is such a parse, with writes between the metadata read and the parse |
| Canary.UnfaithfulStampsLie | src/env.rs:222-229 | Without it some schedule, from an empty cache, gets an answer that no instant of its call would give |
| Canary.NoStampRecurs | src/env.rs:222-229 | The condition holds when no modification time and length come back after a change |
| Utils.LowerThenValidate | src/handlers/fetch.rs:207-217 | Lower-casing then validating accepts exactly the valid inputs, makes them canonical and leaves canonical ones alone |
| Utils.LowerCharTable | src/handlers/fetch.rs:207-208 | Each capital letter becomes the small one of the alphabet, and nothing else changes |
| Utils.HexHashIff | src/utils.rs:20-22 | Valid are exactly the strings of 64 characters out of 0-9, a-f and A-F |
| Utils.SameRecordIffSameButCase | src/handlers/store.rs:22-26 | With an injective hash, valid inputs reach the same row exactly when identifier and key agree up to letter case, and the same bucket exactly when the identifiers do |
| Utils.SecretIdsAreDistinct | src/utils.rs:43-49 | With an injective hash, canonical (identifier, key) pairs map one-to-one to row ids |
| Utils.BucketsAreDistinct | src/utils.rs:30-32 | Likewise canonical identifiers to rate-limit buckets |
| Utils.BucketIsDigestOfRawBytes | src/utils.rs:30-32 | The bucket of the hexadecimal form of any 32 bytes is the digest of those bytes |
| Utils.RowIdIsDigestOfBothTexts | src/utils.rs:43-49 | The row id is the digest of the identifier's characters followed by the key's |
| Utils.DecodeEncode | src/utils.rs:24-32 | Decoding undoes the hexadecimal encoding of any 32 bytes |
| Utils.EncodeDecode | src/utils.rs:24-32 | Encoding undoes decoding on every canonical string |
| Tags.TagsStayHome | src/handlers/fetch.rs:218-230 | In every reachable state no candidate tag appears under two identifier hashes |
| Server.RateLimiter.RemovePendingEntry | src/handlers/fetch.rs:18-35 | The in-place removal has the effect `Limiter.RemovePending` specifies |
| Server.RateLimiter.FinalizeEntry | src/handlers/fetch.rs:159-200 | The in-place finalization has the effect `Limiter.Finalize` specifies, its early returns included |
| Server.RateLimiter.AdmitRequest | src/handlers/fetch.rs:232-294 | The critical section leaves the map and gives the outcome `Limiter.Admit` specifies |
| Server.RateLimiter.SweepExpired | src/rate_limit.rs:48-58 | The sweep keeps exactly the unexpired entries and reports how many went |
| Server.RateLimiter.BuildSnapshot | src/handlers/attempts.rs:107-142 | Drops expired entries, and returns for any iteration order an ascending listing of exactly those that remain, with their candidate, failure and request counts |
| Server.PendingGuard.Drop | src/handlers/fetch.rs:78-99 | A disarmed guard does nothing; an armed one removes its candidate now if the lock is free and otherwise leaves that to a task it spawns |
| Server.AppState.FetchSecret | src/handlers/fetch.rs:202-442 | `/fetch` and `/trash` from request to response, or to a handler dropped while it waits for a permit: which response is given and what is in it, the new map, rows and bucket, every permit given back, rows released only as they were stored, and the budget used by answers only |
| Server.AppState.LookUp | src/handlers/fetch.rs:299-442 | The part after admission, under its guard: a timeout, a database error or a dropped handler gives the slot back (or spawns the task that will), an answer commits it, a replay changes no window; 503, 500, 401 and the row are told apart exactly, with the counts of the status |
| Server.AppState.RunJob | src/handlers/fetch.rs:347-375 | The detached task: 500 exactly when the job fails, 401 with the status's counts exactly when there is no row, and otherwise the row with the status; the reservation is settled accordingly and the permit given back |
| Server.ResponseDecision | src/handlers/fetch.rs:232-442 | In terms of the windows in force: 429 exactly for a full window, with `max`, its last candidate time and a header that covers the remaining time; 503 exactly for a full map, a pending candidate or no permit in time; 500 exactly for a failed job; 401 exactly for no row, with the window's counts including this request; and otherwise the row with the window's status |
| Server.AppState.StoreSecret | src/handlers/store.rs:18-145 | 400 exactly for inputs that are no hashes or a secret that is empty, too long or no base64; the same 201 whether the row is new or was there, a stored row never overwritten, and a database error or a missing permit changing no row |
| Server.BudgetIsUsedByAnswersOnly | src/handlers/fetch.rs:202-402 | A request uses budget exactly when its candidate is new and its lookup returned, and the candidate is then committed; errors, timeouts, dropped handlers, replays, lockouts and refusals leave the budget as it was, if need be once the spawned removal has run; nobody else's budget changes |

## Left out

- Tightness.GuessBoundIsTight: shows that the interval cannot be longer for the bound `max`; for intervals of several periods only the bound is proved, not that it is the best.
- MachineRuns.MachineAnswersEagerly: needs zero skew, because with readings out of lock order a late request can miss an entry that somebody with a later reading has removed (`LateReadingsSeeSweeps`, `FullMapShowsToLateReadings`).
- Server.AppState.FetchSecret: the handler runs without interruption but for being dropped while it waits for a permit; its other interleavings and cancellations are the steps of `Protocol`.
- HTTP routing, JSON and header building, body limits, logging and signal handling: plumbing; responses keep the status and the numeric fields.
- SHA-256, gzip, base64, hex, dotenv parsing, Diesel, SQLite and Tokio internals: libraries.
- The library's `sort_by`: `Server` sorts by insertion, and `SnapshotIsCanonical` holds for any sort.
- `run_migrations` and `init_db`: library calls with a small case split.
- Environment reading, process exit and the field validators of `src/env.rs`: only the validated ranges are kept, as `Config.Valid`.
- `/info` assembly and error texts: facts of one branch each.
- Rounding of `f64` in the token bucket: the bucket is modelled over reals.
- Restarts, which wipe the map, and the panic of the detached task (`src/handlers/fetch.rs:384-395`).
- A wall clock that is stepped backwards.
- A canary file that is rewritten in place while its lines are being read.
- The gap between a database commit and the release of its permit: one step, since nothing in the protocol can tell them apart but the length of the wait.
- Lock fairness: any waiting task may be next.
