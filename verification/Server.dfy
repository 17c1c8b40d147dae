/** The handlers as they run on the shared state, in place: the rate limiter
    behind its lock, the cancellation guard, and `/fetch`, `/trash` and `/store`
    from request to response when nothing else runs in between. */
module Server {
  import opened Wrappers
  import opened Models
  import opened Limiter
  import opened Decisions
  import opened Theorems
  import Protocol
  import E = Expiry
  import P = LedgerProofs
  import Lockout
  import Snapshot
  import TB = TokenBucket
  import DB = Database
  import U = Utils

  // ----- the shared map

  class RateLimiter {
    var windows: Windows
    const config: Config

    constructor (config: Config)
      ensures windows == map[] && this.config == config
    {
      this.windows := map[];
      this.config := config;
    }

    method RemovePendingEntry(claim: Claim)
      modifies this
      ensures windows == RemovePending(old(windows), claim)
    {
      if claim.id in windows {
        var info := windows[claim.id];
        if info.startedAt == claim.generation && claim.tag in info.candidates
           && info.candidates[claim.tag] == Pending {
          info := info.(candidates := info.candidates - {claim.tag});
        }
        windows := windows[claim.id := info];
        if info.startedAt == claim.generation && info.candidates == map[] {
          assert windows - {claim.id} == old(windows) - {claim.id};
          windows := windows - {claim.id};
        }
      }
    }

    method FinalizeEntry(claim: Claim, result: LookupResult)
      modifies this
      ensures windows == Finalize(old(windows), claim, result)
    {
      if claim.id !in windows {
        return;
      }
      var info := windows[claim.id];
      if info.startedAt != claim.generation || claim.tag !in info.candidates
         || info.candidates[claim.tag] != Pending {
        return;
      }
      var removeIdentifier := false;
      match result {
        case Found(_) =>
          info := info.(candidates := info.candidates[claim.tag := Committed]);
        case Absent =>
          info := info.(candidates := info.candidates[claim.tag := Committed]);
          info := info.(failed := SaturatingInc(info.failed, U8_MAX));
        case Failed =>
          info := info.(candidates := info.candidates - {claim.tag});
          removeIdentifier := info.candidates == map[];
      }
      windows := windows[claim.id := info];
      if removeIdentifier {
        assert windows - {claim.id} == old(windows) - {claim.id};
        windows := windows - {claim.id};
      }
    }

    /** The critical section of an admission. */
    method AdmitRequest(id: IdHash, tag: Tag, requestedAt: Time) returns (outcome: Outcome)
      requires CountsFit(windows)
      modifies this
      ensures (windows, outcome) == Admit(config, old(windows), id, tag, requestedAt)
    {
      P.PurgeFits(config, windows, id, requestedAt);
      if id in windows && Expired(config, windows[id], requestedAt) {
        windows := windows - {id};
      }
      if id !in windows && |windows| >= config.maxIdentifiers {
        windows := Retain(config, windows, requestedAt);
        if |windows| >= config.maxIdentifiers {
          return Refused;
        }
      }
      var info := if id in windows then windows[id] else NewWindow(requestedAt);
      info := info.(totalRequests := SaturatingInc(info.totalRequests, U64_MAX));
      info := info.(lastRequestAt := requestedAt);
      if info.Count() >= config.maxAttempts {
        outcome := Limited(info.Count(), info.lastCandidateAt);
      } else if tag in info.candidates {
        match info.candidates[tag]
        case Pending => outcome := Duplicate;
        case Committed => outcome := Replayed(Status(config, info, None), info.startedAt);
      } else {
        var previous := if info.Count() > 0 then Some(info.lastCandidateAt) else None;
        info := info.(candidates := info.candidates[tag := Pending]);
        info := info.(lastCandidateAt := requestedAt);
        outcome := New(Status(config, info, previous), info.startedAt);
      }
      windows := windows[id := info];
    }

    method SweepExpired(now: Time) returns (swept: nat)
      modifies this
      ensures windows == Retain(config, old(windows), now)
      ensures swept == |old(windows)| - |windows|
    {
      var before := |windows|;
      RetainDropsOnlyExpired(config, windows, now);
      windows := Retain(config, windows, now);
      swept := before - |windows|;
    }

    /** Drops what has expired, copies the rest in some iteration order under the
        lock, and sorts the copy. */
    method BuildSnapshot(now: Time, order: seq<IdHash>) returns (entries: seq<Snapshot.AttemptEntry>)
      requires CountsFit(windows)
      requires Snapshot.Enumerates(order, Retain(config, windows, now))
      modifies this
      ensures windows == Retain(config, old(windows), now)
      ensures CountsFit(windows)
      ensures Snapshot.Increasing(entries) && Snapshot.Lists(entries, windows)
      ensures forall e | e in entries ::
        && e.idHash in windows && e.totalAttempts == |windows[e.idHash].candidates|
        && e.failedAttempts == windows[e.idHash].failed && e.totalRequests == windows[e.idHash].totalRequests
    {
      windows := Retain(config, windows, now);
      entries := [];
      assert forall j | 0 <= j < |order| :: order[j] in windows && windows[order[j]].CountFits() by {
        assert forall j | 0 <= j < |order| :: order[j] in order;
      }
      for i := 0 to |order|
        invariant |entries| == i
        invariant forall j | 0 <= j < i :: entries[j] == Snapshot.EntryOf(order[j], windows[order[j]])
      {
        entries := entries + [Snapshot.EntryOf(order[i], windows[order[i]])];
      }
      Snapshot.CollectedAt(windows, order);
      assert entries == Snapshot.Collect(windows, order);
      Snapshot.SortSorts(entries);
      entries := Snapshot.Sort(entries);
      Snapshot.SortedCollection(windows, order, entries);
    }
  }

  // ----- the guard

  class PendingGuard {
    const limiter: RateLimiter
    const claim: Claim
    var armed: bool

    constructor (limiter: RateLimiter, claim: Claim)
      ensures armed && this.limiter == limiter && this.claim == claim
    {
      this.limiter := limiter;
      this.claim := claim;
      this.armed := true;
    }

    method Disarm()
      modifies this
      ensures !armed
    {
      armed := false;
    }

    /** Runs when the handler is dropped: cleans up now if the lock is free, and
        otherwise leaves the removal to a task it spawns. */
    method Drop(lockFree: bool) returns (spawned: bool)
      modifies limiter
      ensures spawned <==> armed && !lockFree
      ensures limiter.windows ==
        (if armed && lockFree then RemovePending(old(limiter.windows), claim) else old(limiter.windows))
    {
      if !armed {
        return false;
      }
      if lockFree {
        limiter.RemovePendingEntry(claim);
      }
      return !lockFree;
    }
  }

  // ----- responses

  const OVERLOAD_RETRY_AFTER := 1

  datatype Response =
    | BadRequest                                                    // 400
    | Overloaded(retryAfter: int)                                   // 503
    | TooManyAttempts(attempts: u8, requestedAt: Time, retryAfter: int) // 429
    | Released(secret: Secret, status: AttemptStatus, trashed: bool) // 200 or 202
    | Unauthorized(requestedAt: Time, attempts: u8, totalRequests: u64) // 401
    | Created                                                       // 201
    | InternalError                                                 // 500
    | NoResponse                                                    // the handler was dropped

  /** What comes of waiting for a database permit. A handler that is dropped
      finds the map lock free or taken. */
  datatype Wait = InTime | TimedOut | Dropped(lockFree: bool)

  /** Without a free permit the wait ends in a timeout, unless the handler goes. */
  function Waited(wait: Wait, freePermits: nat): (waited: Wait)
    ensures waited.TimedOut? <==> wait.TimedOut? || (wait.InTime? && freePermits == 0)
    ensures waited.Dropped? <==> wait.Dropped?
    ensures waited.Dropped? ==> waited.lockFree == wait.lockFree
  {
    if wait.InTime? && freePermits == 0 then TimedOut else wait
  }

  /** What a lookup leaves behind, with the removal it has left to a task, if any. */
  datatype After = After(windows: Windows, rows: DB.Rows, response: Response, cleaner: Option<Claim>)

  function Operation(trash: bool): Protocol.Lookup {
    if trash then Protocol.Trash else Protocol.Fetch
  }

  /** An admitted lookup, from its admission to its response; `fails` says
      whether the database job failed. */
  function AfterAdmission(
    ws: Windows, rows: DB.Rows, claim: Claim, isNew: bool, status: AttemptStatus,
    trash: bool, now: Time, wait: Wait, fails: bool): After
  {
    match wait
    case Dropped(lockFree) =>
      After(if isNew && lockFree then RemovePending(ws, claim) else ws, rows, NoResponse,
            if isNew && !lockFree then Some(claim) else None)
    case TimedOut =>
      After(if isNew then RemovePending(ws, claim) else ws, rows, Overloaded(OVERLOAD_RETRY_AFTER), None)
    case InTime =>
      var (rows', reply) := DB.Execute(rows, Protocol.LookupCommand(Operation(trash), claim.tag), fails);
      var result := Protocol.ResultOf(reply);
      After(
        if isNew then Finalize(ws, claim, result) else ws,
        rows',
        match result
        case Found(secret) => Released(secret, status, trash)
        case Absent => Unauthorized(now, status.totalAttempts, status.totalRequests)
        case Failed => InternalError,
        None)
  }

  function Handled(
    c: Config, ws: Windows, rows: DB.Rows, id: IdHash, tag: Tag,
    trash: bool, now: Time, wait: Wait, fails: bool): After
    requires CountsFit(ws)
  {
    var (ws', outcome) := Admit(c, ws, id, tag, now);
    match outcome
    case Refused => After(ws', rows, Overloaded(OVERLOAD_RETRY_AFTER), None)
    case Duplicate => After(ws', rows, Overloaded(OVERLOAD_RETRY_AFTER), None)
    case Limited(count, last) =>
      After(ws', rows, TooManyAttempts(count, last, Lockout.RetryAfter(c, last, now)), None)
    case Replayed(status, generation) =>
      AfterAdmission(ws', rows, Claim(id, tag, generation), false, status, trash, now, wait, fails)
    case New(status, generation) =>
      AfterAdmission(ws', rows, Claim(id, tag, generation), true, status, trash, now, wait, fails)
  }

  // ----- what a lookup promises

  predicate Answered(response: Response) {
    response.Released? || response.Unauthorized?
  }

  /** What the response says the database found. */
  function Shown(response: Response): LookupResult {
    match response
    case Released(secret, _, _) => Found(secret)
    case Unauthorized(_, _, _) => Absent
    case _ => Failed
  }

  /** A replay, or a removal left to a task, changes no window; otherwise the
      reservation is committed by an answer and given back by anything else. */
  ghost predicate SlotSettled(before: Windows, after: After, claim: Claim, isNew: bool) {
    && (!isNew || after.cleaner.Some? ==> after.windows == before)
    && (after.cleaner.Some? ==> isNew && after.response.NoResponse? && after.cleaner == Some(claim))
    && (isNew && after.cleaner.None? && Acts(before, claim) && before[claim.id].failed < U8_MAX ==>
          OnlyCandidate(before, after.windows, claim, Shown(after.response)))
  }

  /** A release hands out the row there was, and only a `/trash` that does so
      removes it; a 401 says that there was none. */
  predicate RowsSettled(before: DB.Rows, after: DB.Rows, tag: Tag, trash: bool, response: Response) {
    && (response.Released? ==>
          && tag in before && response.secret == before[tag] && response.trashed == trash
          && after == (if trash then before - {tag} else before))
    && (response.Unauthorized? ==> tag !in before)
    && (!response.Released? ==> after == before)
  }

  /** Which response an admitted lookup gets, and what is in it. */
  ghost predicate LookupResponse(
    rows: DB.Rows, tag: Tag, status: AttemptStatus, trash: bool, now: Time, wait: Wait, fails: bool,
    response: Response)
  {
    && (response.NoResponse? <==> wait.Dropped?)
    && (response.Overloaded? <==> wait.TimedOut?)
    && (response.InternalError? <==> wait.InTime? && fails)
    && (response.Unauthorized? <==> wait.InTime? && !fails && tag !in rows)
    && (response.Released? <==> wait.InTime? && !fails && tag in rows)
    && (response.Overloaded? ==> response.retryAfter == 1)
    && (response.Unauthorized? ==>
          && response.requestedAt == now && response.attempts == status.totalAttempts
          && response.totalRequests == status.totalRequests)
    && (response.Released? ==>
          response.secret == rows[tag] && response.status == status && response.trashed == trash)
  }

  /** The window a request joins, as it finds it. */
  ghost function JoinedWindow(c: Config, ws: Windows, id: IdHash, now: Time): Window {
    if InForce(c, ws, id, now) then ws[id] else NewWindow(now)
  }

  ghost function CountWith(w: Window, tag: Tag): nat {
    if tag in w.candidates then |w.candidates| else |w.candidates| + 1
  }

  ghost function RequestsWith(w: Window): nat {
    if w.totalRequests < 0xFFFF_FFFF_FFFF_FFFF then w.totalRequests + 1 else 0xFFFF_FFFF_FFFF_FFFF
  }

  /** A status shows the window with this request, and the candidate, in it. */
  ghost predicate StatusShows(c: Config, w: Window, tag: Tag, now: Time, status: AttemptStatus) {
    && status.totalAttempts == CountWith(w, tag) && status.failedAttempts == w.failed
    && status.remainingAttempts == c.maxAttempts - CountWith(w, tag)
    && status.totalRequests == RequestsWith(w) && status.windowStartedAt == w.startedAt
    && status.previousAttemptAt ==
         (if tag in w.candidates || w.candidates == map[] then None else Some(w.lastCandidateAt))
    && status.resetsAt == (if tag in w.candidates then w.lastCandidateAt else now)
         + c.cooldownMinutes * 60 * 1_000_000_000
  }

  /** The seconds of a lockout's header against the time that remains of it. */
  predicate CoversLockout(c: Config, last: Time, now: Time, retryAfter: int) {
    var remaining := last + c.cooldownMinutes * 60 * 1_000_000_000 - now;
    && retryAfter >= 1
    && 0 <= remaining < (retryAfter + 1) * 1_000_000_000
    && retryAfter * 1_000_000_000 <= (if remaining >= 1_000_000_000 then remaining else 1_000_000_000)
  }

  /** Which response a lookup gets, and what is in it: 429 exactly when a full
      window is in force; 503 exactly when the map is full, the candidate is
      pending or no permit comes in time; 500 exactly when the database job of an
      admitted lookup fails; and otherwise 401 or the row. */
  ghost predicate ResponseIsTrue(
    c: Config, ws: Windows, rows: DB.Rows, id: IdHash, tag: Tag,
    trash: bool, now: Time, wait: Wait, fails: bool, response: Response)
  {
    var w := JoinedWindow(c, ws, id, now);
    var crowded := !InForce(c, ws, id, now) && |OthersInForce(c, ws, id, now)| >= c.maxIdentifiers;
    var full := |w.candidates| == c.maxAttempts;
    var pending := !full && tag in w.candidates && w.candidates[tag] == Pending;
    var admitted := !crowded && !full && !pending;
    && (response.TooManyAttempts? <==> full)
    && (response.Overloaded? <==> crowded || pending || (admitted && wait.TimedOut?))
    && (response.NoResponse? <==> admitted && wait.Dropped?)
    && (response.InternalError? <==> admitted && wait.InTime? && fails)
    && (response.Unauthorized? <==> admitted && wait.InTime? && !fails && tag !in rows)
    && (response.Released? <==> admitted && wait.InTime? && !fails && tag in rows)
    && (response.TooManyAttempts? ==>
          && response.attempts == c.maxAttempts && response.requestedAt == w.lastCandidateAt
          && CoversLockout(c, w.lastCandidateAt, now, response.retryAfter))
    && (response.Overloaded? ==> response.retryAfter == 1)
    && (response.Unauthorized? ==>
          && response.requestedAt == now && response.attempts == CountWith(w, tag)
          && response.totalRequests == RequestsWith(w))
    && (response.Released? ==>
          && response.secret == rows[tag] && response.trashed == trash
          && StatusShows(c, w, tag, now, response.status))
  }

  lemma ResponseDecision(
    c: Config, ws: Windows, rows: DB.Rows, id: IdHash, tag: Tag,
    trash: bool, now: Time, wait: Wait, fails: bool)
    requires WellKept(c, ws)
    ensures CountsFit(ws)
    ensures ResponseIsTrue(c, ws, rows, id, tag, trash, now, wait, fails,
      Handled(c, ws, rows, id, tag, trash, now, wait, fails).response)
  {
    hide Admit, EnterWindow, AfterAdmission, StatusShows, LookupResponse, CoversLockout, Expired, Lockout.RetryAfter;
    KeptFits(c, ws);
    RefusedIff(c, ws, id, tag, now);
    var (ws', o) := Admit(c, ws, id, tag, now);
    var w := JoinedWindow(c, ws, id, now);
    if !o.Refused? {
      AdmitSees(c, ws, id, tag, now);
      EnterOutcome(c, w, tag, now);
      if o.Limited? {
        HeaderCovers(c, w, now);
      } else if o.New? || o.Replayed? {
        AdmittedIsSettled(ws', rows, Claim(id, tag, o.generation), o.New?, o.status, trash, now, wait, fails);
        ResponseOfAdmitted(c, w, rows, tag, o.status, trash, now, wait, fails,
          AfterAdmission(ws', rows, Claim(id, tag, o.generation), o.New?, o.status, trash, now, wait, fails).response);
      }
    }
  }

  lemma EnterOutcome(c: Config, w: Window, tag: Tag, now: Time)
    requires c.Valid() && |w.candidates| <= c.maxAttempts
    ensures w.CountFits()
    ensures var o := EnterWindow(c, w, tag, now).1;
      var full := |w.candidates| == c.maxAttempts;
      && (o.Limited? <==> full)
      && (o.Limited? ==> o == Limited(c.maxAttempts, w.lastCandidateAt))
      && (o.Duplicate? <==> !full && tag in w.candidates && w.candidates[tag] == Pending)
      && !o.Refused?
      && (o.New? || o.Replayed? ==> StatusShows(c, w, tag, now, o.status))
  {
    assert |w.candidates| == 0 <==> w.candidates == map[];
  }

  lemma HeaderCovers(c: Config, w: Window, now: Time)
    requires !Expired(c, w, now)
    ensures CoversLockout(c, w.lastCandidateAt, now, Lockout.RetryAfter(c, w.lastCandidateAt, now))
  {
    Lockout.RetryAfterBounds(c, w, now);
  }

  lemma ResponseOfAdmitted(
    c: Config, w: Window, rows: DB.Rows, tag: Tag, status: AttemptStatus, trash: bool, now: Time,
    wait: Wait, fails: bool, response: Response)
    requires StatusShows(c, w, tag, now, status)
    requires LookupResponse(rows, tag, status, trash, now, wait, fails, response)
    ensures !response.TooManyAttempts?
    ensures response.NoResponse? <==> wait.Dropped?
    ensures response.Overloaded? <==> wait.TimedOut?
    ensures response.InternalError? <==> wait.InTime? && fails
    ensures response.Unauthorized? <==> wait.InTime? && !fails && tag !in rows
    ensures response.Released? <==> wait.InTime? && !fails && tag in rows
    ensures response.Overloaded? ==> response.retryAfter == 1
    ensures response.Unauthorized? ==>
      && response.requestedAt == now && response.attempts == CountWith(w, tag)
      && response.totalRequests == RequestsWith(w)
    ensures response.Released? ==>
      && response.secret == rows[tag] && response.trashed == trash
      && StatusShows(c, w, tag, now, response.status)
  {
  }

  lemma AdmittedIsSettled(
    ws: Windows, rows: DB.Rows, claim: Claim, isNew: bool, status: AttemptStatus,
    trash: bool, now: Time, wait: Wait, fails: bool)
    ensures var after := AfterAdmission(ws, rows, claim, isNew, status, trash, now, wait, fails);
      && SlotSettled(ws, after, claim, isNew)
      && RowsSettled(rows, after.rows, claim.tag, trash, after.response)
      && LookupResponse(rows, claim.tag, status, trash, now, wait, fails, after.response)
  {
    hide OnlyCandidate, Finalize, RemovePending;
    var result := Protocol.ResultOf(DB.Execute(rows, Protocol.LookupCommand(Operation(trash), claim.tag), fails).1);
    if Acts(ws, claim) && ws[claim.id].failed < U8_MAX {
      CompletionEffect(ws, claim, result);
      CompletionEffect(ws, claim, Failed);
      P.ReleaseIsFailedFinalize(ws, claim);
    }
    if !fails {
      assert rows - {claim.tag} == rows || claim.tag in rows;
    }
  }

  lemma HandledRows(
    c: Config, ws: Windows, rows: DB.Rows, id: IdHash, tag: Tag,
    trash: bool, now: Time, wait: Wait, fails: bool)
    requires CountsFit(ws)
    ensures var after := Handled(c, ws, rows, id, tag, trash, now, wait, fails);
      RowsSettled(rows, after.rows, tag, trash, after.response)
  {
    hide Admit, AfterAdmission;
    var (ws', o) := Admit(c, ws, id, tag, now);
    if o.New? || o.Replayed? {
      AdmittedIsSettled(ws', rows, Claim(id, tag, o.generation), o.New?, o.status, trash, now, wait, fails);
    }
  }

  // ----- the handlers

  class AppState {
    const limiter: RateLimiter
    const lookupBucket: TB.TokenBucket
    const storeBucket: TB.TokenBucket
    const table: DB.Table
    const hash: seq<int> -> string
    const secretMaxLength: nat
    var freePermits: nat

    constructor (
      limiter: RateLimiter, lookupBucket: TB.TokenBucket, storeBucket: TB.TokenBucket,
      table: DB.Table, hash: seq<int> -> string, secretMaxLength: nat)
      ensures this.limiter == limiter && this.lookupBucket == lookupBucket
      ensures this.storeBucket == storeBucket && this.table == table && this.hash == hash
      ensures this.secretMaxLength == secretMaxLength && freePermits == limiter.config.permits
    {
      this.limiter := limiter;
      this.lookupBucket := lookupBucket;
      this.storeBucket := storeBucket;
      this.table := table;
      this.hash := hash;
      this.secretMaxLength := secretMaxLength;
      this.freePermits := limiter.config.permits;
    }

    /** `/fetch` and `/trash`. The clock readings, what comes of the wait for a
        permit and the database fault are what the environment decides. */
    method FetchSecret(
      identifier: string, authenticationKey: string, trash: bool,
      instant: TB.Instant, requestedAt: Time, wait: Wait, fault: DB.Fault)
      returns (response: Response, cleaner: Option<Claim>)
      requires CountsFit(limiter.windows)
      modifies this, limiter, lookupBucket, table
      ensures freePermits == old(freePermits)
      ensures !(U.Is256BitsHexHash(identifier) && U.Is256BitsHexHash(authenticationKey)) ==>
        response == BadRequest && cleaner == None
        && limiter.windows == old(limiter.windows) && table.rows == old(table.rows)
        && lookupBucket.Value() == old(lookupBucket.Value())
      ensures U.Is256BitsHexHash(identifier) && U.Is256BitsHexHash(authenticationKey) ==>
        var x, k := U.ToLower(identifier), U.ToLower(authenticationKey);
        && U.Canonical(x)
        && var id, tag := U.IdentifierHash(hash, x), U.SecretId(hash, x, k);
        var (bucket, granted) := TB.Consume(old(lookupBucket.Value()), instant);
        && lookupBucket.Value() == bucket
        && RowsSettled(old(table.rows), table.rows, tag, trash, response)
        && (!granted ==>
              response == Overloaded(1) && cleaner == None
              && limiter.windows == old(limiter.windows) && table.rows == old(table.rows))
        && (granted ==>
              After(limiter.windows, table.rows, response, cleaner) == Handled(
                limiter.config, old(limiter.windows), old(table.rows), id, tag, trash, requestedAt,
                Waited(wait, old(freePermits)), LookupFails(trash, fault, tag, old(table.rows))))
        && (granted && WellKept(limiter.config, old(limiter.windows)) ==>
              && ResponseIsTrue(limiter.config, old(limiter.windows), old(table.rows), id, tag, trash, requestedAt,
                   Waited(wait, old(freePermits)), LookupFails(trash, fault, tag, old(table.rows)), response)
              && BudgetSettled(limiter.config, old(limiter.windows),
                After(limiter.windows, table.rows, response, cleaner), id, tag, requestedAt))
    {
      hide Admit, BudgetSettled, ResponseIsTrue, WellKept, U.Is256BitsHexHash, U.ToLower, CountsFit;
      cleaner := None;
      U.LowerThenValidate(identifier);
      U.LowerThenValidate(authenticationKey);
      var x, k := U.ToLower(identifier), U.ToLower(authenticationKey);
      if !U.Is256BitsHexHash(x) || !U.Is256BitsHexHash(k) {
        return BadRequest, None;
      }
      var id := U.IdentifierHash(hash, x);
      var granted := lookupBucket.TryConsume(instant);
      if !granted {
        return Overloaded(OVERLOAD_RETRY_AFTER), None;
      }
      var tag := U.SecretId(hash, x, k);
      ghost var ws, rows, waited := limiter.windows, table.rows, Waited(wait, freePermits);
      ghost var fails := LookupFails(trash, fault, tag, rows);
      HandledRows(limiter.config, ws, rows, id, tag, trash, requestedAt, waited, fails);
      if WellKept(limiter.config, ws) {
        ResponseDecision(limiter.config, ws, rows, id, tag, trash, requestedAt, waited, fails);
        BudgetIsUsedByAnswersOnly(limiter.config, ws, rows, id, tag, trash, requestedAt, waited, fails);
      }
      var outcome := limiter.AdmitRequest(id, tag, requestedAt);
      match outcome
      case Refused => response := Overloaded(OVERLOAD_RETRY_AFTER);
      case Duplicate => response := Overloaded(OVERLOAD_RETRY_AFTER);
      case Limited(count, last) =>
        response := TooManyAttempts(count, last, Lockout.RetryAfter(limiter.config, last, requestedAt));
      case Replayed(status, generation) =>
        response, cleaner := LookUp(Claim(id, tag, generation), false, status, trash, requestedAt, wait, fault);
      case New(status, generation) =>
        response, cleaner := LookUp(Claim(id, tag, generation), true, status, trash, requestedAt, wait, fault);
    }

    /** The admitted part: permit, database job, finalization, response. The guard
        is armed until the removal is done or the job has taken over, and is
        dropped however the handler ends. */
    method LookUp(
      claim: Claim, isNew: bool, status: AttemptStatus,
      trash: bool, requestedAt: Time, wait: Wait, fault: DB.Fault)
      returns (response: Response, cleaner: Option<Claim>)
      modifies this, limiter, table
      ensures freePermits == old(freePermits)
      ensures SlotSettled(old(limiter.windows),
        After(limiter.windows, table.rows, response, cleaner), claim, isNew)
      ensures RowsSettled(old(table.rows), table.rows, claim.tag, trash, response)
      ensures LookupResponse(old(table.rows), claim.tag, status, trash, requestedAt,
        Waited(wait, old(freePermits)), LookupFails(trash, fault, claim.tag, old(table.rows)), response)
      ensures After(limiter.windows, table.rows, response, cleaner) == AfterAdmission(
        old(limiter.windows), old(table.rows), claim, isNew, status, trash, requestedAt,
        Waited(wait, old(freePermits)), LookupFails(trash, fault, claim.tag, old(table.rows)))
    {
      AdmittedIsSettled(limiter.windows, table.rows, claim, isNew, status, trash, requestedAt,
        Waited(wait, freePermits), LookupFails(trash, fault, claim.tag, table.rows));
      cleaner := None;
      var guard := new PendingGuard(limiter, claim);
      if !isNew {
        guard.Disarm();
      }
      if wait.Dropped? {
        var spawned := guard.Drop(wait.lockFree);
        return NoResponse, if spawned then Some(claim) else None;
      }
      if wait.TimedOut? || freePermits == 0 {
        if isNew {
          limiter.RemovePendingEntry(claim);
          guard.Disarm();
        }
        response := Overloaded(OVERLOAD_RETRY_AFTER);
      } else {
        guard.Disarm();
        response := RunJob(claim, isNew, status, trash, requestedAt, fault);
      }
      var spawned := guard.Drop(true);
      assert !spawned;
    }

    /** The detached task, from the permit to the finalized result. */
    method RunJob(
      claim: Claim, isNew: bool, status: AttemptStatus, trash: bool, requestedAt: Time, fault: DB.Fault)
      returns (response: Response)
      requires freePermits > 0
      modifies this, limiter, table
      ensures freePermits == old(freePermits)
      ensures SlotSettled(old(limiter.windows), After(limiter.windows, table.rows, response, None), claim, isNew)
      ensures RowsSettled(old(table.rows), table.rows, claim.tag, trash, response)
      ensures LookupResponse(old(table.rows), claim.tag, status, trash, requestedAt,
        InTime, LookupFails(trash, fault, claim.tag, old(table.rows)), response)
      ensures After(limiter.windows, table.rows, response, None) == AfterAdmission(
        old(limiter.windows), old(table.rows), claim, isNew, status, trash, requestedAt,
        InTime, LookupFails(trash, fault, claim.tag, old(table.rows)))
    {
      AdmittedIsSettled(limiter.windows, table.rows, claim, isNew, status, trash, requestedAt,
        InTime, LookupFails(trash, fault, claim.tag, table.rows));
      freePermits := freePermits - 1;
      var reply;
      if trash {
        reply := table.ReadAndTrashSecretById(claim.tag, fault);
      } else {
        reply := table.ReadSecretById(claim.tag, fault);
      }
      freePermits := freePermits + 1;
      var result := Protocol.ResultOf(reply);
      if isNew {
        limiter.FinalizeEntry(claim, result);
      }
      match result
      case Found(secret) => return Released(secret, status, trash);
      case Absent => return Unauthorized(requestedAt, status.totalAttempts, status.totalRequests);
      case Failed => return InternalError;
    }

    /** `/store`: the same answer whether the row is new or was already there. */
    method StoreSecret(
      identifier: string, authenticationKey: string, encryptedSecret: string, isBase64: bool,
      createdAt: string, instant: TB.Instant, timedOut: bool, fault: DB.Fault)
      returns (response: Response)
      modifies this, storeBucket, table
      ensures freePermits == old(freePermits)
      ensures !(U.Is256BitsHexHash(identifier) && U.Is256BitsHexHash(authenticationKey)
                && 1 <= |encryptedSecret| <= secretMaxLength && isBase64) ==>
        response == BadRequest && table.rows == old(table.rows)
        && storeBucket.Value() == old(storeBucket.Value())
      ensures U.Is256BitsHexHash(identifier) && U.Is256BitsHexHash(authenticationKey)
                && 1 <= |encryptedSecret| <= secretMaxLength && isBase64 ==>
        var tag := U.SecretId(hash, U.ToLower(identifier), U.ToLower(authenticationKey));
        var (bucket, granted) := TB.Consume(old(storeBucket.Value()), instant);
        && storeBucket.Value() == bucket
        && response == (if !granted || timedOut || old(freePermits) == 0 then Overloaded(1)
                        else if fault != DB.NoFault then InternalError else Created)
        && table.rows == (if response == Created && tag !in old(table.rows)
                          then old(table.rows)[tag := Secret(tag, createdAt, encryptedSecret)]
                          else old(table.rows))
    {
      U.LowerThenValidate(identifier);
      U.LowerThenValidate(authenticationKey);
      var x, k := U.ToLower(identifier), U.ToLower(authenticationKey);
      if !U.Is256BitsHexHash(x) || !U.Is256BitsHexHash(k) {
        return BadRequest;
      }
      if encryptedSecret == "" || |encryptedSecret| > secretMaxLength || !isBase64 {
        return BadRequest;
      }
      var granted := storeBucket.TryConsume(instant);
      if !granted {
        return Overloaded(OVERLOAD_RETRY_AFTER);
      }
      var tag := U.SecretId(hash, x, k);
      if timedOut || freePermits == 0 {
        return Overloaded(OVERLOAD_RETRY_AFTER);
      }
      freePermits := freePermits - 1;
      var stored := table.Insert(Secret(tag, createdAt, encryptedSecret), fault);
      freePermits := freePermits + 1;
      return if stored then Created else InternalError;
    }
  }

  /** Whether the fault hits the job: a delete only runs when there is a row. */
  function LookupFails(trash: bool, fault: DB.Fault, tag: Tag, rows: DB.Rows): bool {
    if trash then fault in {DB.OnRead, DB.OnCommit} || (fault == DB.OnDelete && tag in rows)
    else fault == DB.OnRead
  }

  // ----- what one uninterrupted request does to the budget

  /** The candidates that count against a request at `now`. */
  function Budget(c: Config, ws: Windows, id: IdHash, now: Time): map<Tag, CandidateState> {
    if InForce(c, ws, id, now) then ws[id].candidates else map[]
  }

  /** A map as every step of the server leaves it. */
  ghost predicate WellKept(c: Config, ws: Windows) {
    && c.Valid() && |ws| <= c.maxIdentifiers
    && forall id | id in ws :: 1 <= |ws[id].candidates| <= c.maxAttempts
  }

  /** A request uses up one unit of the identifier's budget exactly when its
      candidate is new to the window and its lookup returned, hit or miss; and
      then it is committed. Anything else, errors, timeouts, replays, lockouts
      and refusals included, leaves the budget as it was, if need be once the
      spawned removal has run; and nobody else's budget changes. */
  ghost predicate BudgetSettled(c: Config, ws: Windows, after: After, id: IdHash, tag: Tag, now: Time) {
    && WellKept(c, after.windows)
    && var before, left := Budget(c, ws, id, now), Budget(c, after.windows, id, now);
    && (Answered(after.response) ==> left == before[tag := Committed])
    && (!Answered(after.response) && after.cleaner.None? ==> left == before)
    && (!Answered(after.response) && after.cleaner.Some? ==>
          && tag !in before && left == before[tag := Pending]
          && Budget(c, RemovePending(after.windows, after.cleaner.value), id, now) == before)
    && (forall x | x != id :: Budget(c, after.windows, x, now) == Budget(c, ws, x, now))
  }

  lemma BudgetIsUsedByAnswersOnly(
    c: Config, ws: Windows, rows: DB.Rows, id: IdHash, tag: Tag,
    trash: bool, now: Time, wait: Wait, fails: bool)
    requires WellKept(c, ws)
    ensures BudgetSettled(c, ws, Handled(c, ws, rows, id, tag, trash, now, wait, fails), id, tag, now)
  {
    hide Admit, EnterWindow, RemovePending, Expired, WellKept, Budget, DB.Execute, Protocol.ResultOf;
    KeptFits(c, ws);
    var (ws', o) := Admit(c, ws, id, tag, now);
    AdmitKeepsWell(c, ws, id, tag, now);
    OthersBudgets(c, ws, id, tag, now);
    var before := Budget(c, ws, id, now);
    if o.Refused? {
      RefusedBudget(c, ws, id, tag, now);
    } else {
      AdmissionBudget(c, ws, id, tag, now);
      if o.New? {
        NewBudget(c, ws', rows, Claim(id, tag, o.generation), o.status, trash, now, wait, fails, before);
      } else if o.Replayed? {
        assert before[tag := Committed] == before;
      }
    }
  }

  /** From a fresh reservation on. */
  lemma NewBudget(
    c: Config, ws: Windows, rows: DB.Rows, claim: Claim, status: AttemptStatus,
    trash: bool, now: Time, wait: Wait, fails: bool, before: map<Tag, CandidateState>)
    requires WellKept(c, ws) && c.Valid() && claim.tag !in before
    requires claim.id in ws && ws[claim.id].startedAt == claim.generation
    requires ws[claim.id].lastCandidateAt == now && ws[claim.id].candidates == before[claim.tag := Pending]
    ensures var after := AfterAdmission(ws, rows, claim, true, status, trash, now, wait, fails);
      var left := Budget(c, after.windows, claim.id, now);
      && WellKept(c, after.windows)
      && (Answered(after.response) ==> left == before[claim.tag := Committed])
      && (!Answered(after.response) && after.cleaner.None? ==> left == before)
      && (after.cleaner.Some? ==>
            && !Answered(after.response) && left == Budget(c, ws, claim.id, now)
            && Budget(c, RemovePending(after.windows, after.cleaner.value), claim.id, now) == before)
      && (forall x | x != claim.id :: Budget(c, after.windows, x, now) == Budget(c, ws, x, now))
  {
    hide RemovePending, Finalize, Expired, WellKept, Budget, DB.Execute, Protocol.ResultOf;
    var result :=
      Protocol.ResultOf(DB.Execute(rows, Protocol.LookupCommand(Operation(trash), claim.tag), fails).1);
    CompletedBudget(c, ws, claim, now, before, result);
    CompletedBudget(c, ws, claim, now, before, Failed);
    CompletionKeepsWell(c, ws, claim, now, result);
    CompletionKeepsWell(c, ws, claim, now, Failed);
  }

  lemma KeptFits(c: Config, ws: Windows)
    requires WellKept(c, ws)
    ensures c.Valid() && CountsFit(ws) && E.Sized(c, ws)
  {
  }

  lemma AdmitKeepsWell(c: Config, ws: Windows, id: IdHash, tag: Tag, now: Time)
    requires WellKept(c, ws)
    ensures WellKept(c, Admit(c, ws, id, tag, now).0)
  {
    hide Admit, EnterWindow;
    KeptFits(c, ws);
    E.AdmitSized(c, ws, id, tag, now);
    var ws' := Admit(c, ws, id, tag, now).0;
    forall x | x in ws' ensures 1 <= |ws'[x].candidates| <= c.maxAttempts {
      if x != id {
        AdmitElsewhere(c, ws, id, tag, now, x);
      } else if Admit(c, ws, id, tag, now).1.Refused? {
        RefusedHasNone(c, ws, id, tag, now);
      } else {
        AdmitSees(c, ws, id, tag, now);
        EnteredIsWell(c, if InForce(c, ws, id, now) then ws[id] else NewWindow(now), tag, now);
      }
    }
  }

  lemma EnteredIsWell(c: Config, w: Window, tag: Tag, now: Time)
    requires c.Valid() && |w.candidates| <= c.maxAttempts
    ensures w.CountFits() && 1 <= |EnterWindow(c, w, tag, now).0.candidates| <= c.maxAttempts
  {
    P.EnterCases(c, w, tag, now);
  }

  lemma OthersBudgets(c: Config, ws: Windows, id: IdHash, tag: Tag, now: Time)
    requires CountsFit(ws)
    ensures forall x | x != id :: Budget(c, Admit(c, ws, id, tag, now).0, x, now) == Budget(c, ws, x, now)
  {
    hide Admit;
    forall x | x != id ensures Budget(c, Admit(c, ws, id, tag, now).0, x, now) == Budget(c, ws, x, now) {
      AdmitElsewhere(c, ws, id, tag, now, x);
    }
  }

  /** A completion keeps the map in order and changes nobody else's budget. */
  lemma CompletionKeepsWell(c: Config, ws: Windows, claim: Claim, now: Time, result: LookupResult)
    requires WellKept(c, ws)
    ensures WellKept(c, Finalize(ws, claim, result))
    ensures RemovePending(ws, claim) == Finalize(ws, claim, Failed)
    ensures forall x | x != claim.id :: Budget(c, Finalize(ws, claim, result), x, now) == Budget(c, ws, x, now)
  {
    hide Acts, RemovePending, Finalize, Expired, WellKept;
    KeptNotEmpty(c, ws, claim.id);
    P.ReleaseIsFailedFinalize(ws, claim);
    OtherEntries(ws, claim, result);
    CompletedIsWell(c, ws, claim, result);
  }

  lemma KeptNotEmpty(c: Config, ws: Windows, id: IdHash)
    requires WellKept(c, ws)
    ensures id in ws ==> |ws[id].candidates| >= 1
  {
  }

  lemma CompletedIsWell(c: Config, ws: Windows, claim: Claim, result: LookupResult)
    requires WellKept(c, ws)
    ensures WellKept(c, Finalize(ws, claim, result))
  {
    hide Finalize, CountsFit;
    KeptFits(c, ws);
    OtherEntries(ws, claim, result);
    var after := Finalize(ws, claim, result);
    SubsetSize(after.Keys, ws.Keys);
    assert |after.Keys| == |after| && |ws.Keys| == |ws|;
    if claim.id in after {
      CompletedCount(ws, claim, result);
    }
  }

  lemma OtherEntries(ws: Windows, claim: Claim, result: LookupResult)
    ensures var after := Finalize(ws, claim, result);
      && after.Keys <= ws.Keys
      && forall x | x != claim.id && x in ws :: x in after && after[x] == ws[x]
  {
  }

  lemma CompletedCount(ws: Windows, claim: Claim, result: LookupResult)
    requires claim.id in ws && |ws[claim.id].candidates| >= 1
    requires claim.id in Finalize(ws, claim, result)
    ensures 1 <= |Finalize(ws, claim, result)[claim.id].candidates| <= |ws[claim.id].candidates|
  {
    var cs, after := ws[claim.id].candidates, Finalize(ws, claim, result)[claim.id].candidates;
    assert after.Keys <= cs.Keys;
    SubsetSize(after.Keys, cs.Keys);
    assert |after.Keys| == |after| && |cs.Keys| == |cs|;
    assert |after| == 0 ==> after == map[];
    assert claim.tag in cs[claim.tag := Committed];
  }

  /** What an admission that is not refused does to the budget. */
  lemma AdmissionBudget(c: Config, ws: Windows, id: IdHash, tag: Tag, now: Time)
    requires WellKept(c, ws) && CountsFit(ws) && !Admit(c, ws, id, tag, now).1.Refused?
    ensures var (ws', o) := Admit(c, ws, id, tag, now);
      var before := Budget(c, ws, id, now);
      && (o.New? ==>
            && tag !in before && Budget(c, ws', id, now) == before[tag := Pending]
            && id in ws' && ws'[id].startedAt == o.generation && ws'[id].lastCandidateAt == now
            && ws'[id].candidates == before[tag := Pending])
      && (!o.New? ==> Budget(c, ws', id, now) == before)
      && (o.Replayed? ==> tag in before && before[tag] == Committed)
  {
    hide Admit, EnterWindow, Expired;
    AdmitSees(c, ws, id, tag, now);
    var w := if InForce(c, ws, id, now) then ws[id] else NewWindow(now);
    assert w.candidates == Budget(c, ws, id, now);
    AdmittedBudget(c, w, tag, now);
    InForceAfter(c, Admit(c, ws, id, tag, now).0, id, now);
  }

  lemma InForceAfter(c: Config, ws: Windows, id: IdHash, now: Time)
    requires id in ws
    ensures !Expired(c, ws[id], now) ==> Budget(c, ws, id, now) == ws[id].candidates
  {
  }

  /** The completion of a fresh reservation commits it or gives it back. */
  lemma CompletedBudget(
    c: Config, ws: Windows, claim: Claim, now: Time, before: map<Tag, CandidateState>, result: LookupResult)
    requires c.Valid()
    requires claim.id in ws && ws[claim.id].startedAt == claim.generation
    requires claim.tag !in before && ws[claim.id].candidates == before[claim.tag := Pending]
    requires ws[claim.id].lastCandidateAt == now
    ensures Budget(c, Finalize(ws, claim, result), claim.id, now) ==
      (if result.Failed? then before else before[claim.tag := Committed])
    ensures Budget(c, RemovePending(ws, claim), claim.id, now) == before
  {
    assert ws[claim.id].candidates - {claim.tag} == before;
    assert ws[claim.id].candidates[claim.tag := Committed] == before[claim.tag := Committed];
  }

  lemma RefusedBudget(c: Config, ws: Windows, id: IdHash, tag: Tag, now: Time)
    requires CountsFit(ws) && Admit(c, ws, id, tag, now).1.Refused?
    ensures Budget(c, ws, id, now) == map[]
    ensures Budget(c, Admit(c, ws, id, tag, now).0, id, now) == map[]
  {
    hide Visit;
    P.PurgeFits(c, ws, id, now);
    P.VisitAnswers(c, Purge(c, ws, id, now), id, tag, now);
    PurgeDropsOnlyExpired(c, ws, id, now);
  }

  lemma AdmittedBudget(c: Config, w: Window, tag: Tag, now: Time)
    requires c.Valid() && w.CountFits()
    ensures var (w', o) := EnterWindow(c, w, tag, now);
      && (o.New? ==> tag !in w.candidates && w'.candidates == w.candidates[tag := Pending]
                     && w'.lastCandidateAt == now && o.generation == w'.startedAt)
      && (!o.New? ==> w'.candidates == w.candidates && w'.lastCandidateAt == w.lastCandidateAt)
      && (o.Replayed? ==> tag in w.candidates && w.candidates[tag] == Committed)
      && (w.candidates == map[] ==> o.New?)
      && (!Expired(c, w, now) || o.New? ==> !Expired(c, w', now))
  {
  }
}
