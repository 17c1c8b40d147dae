/** The lockout: a fully committed window answers 429 to everything until its
    cooldown is observed to be over, and what `Retry-After` says about that. */
module Lockout {
  import opened Wrappers
  import opened Models
  import opened Limiter
  import opened Protocol
  import opened ProtocolProofs
  import opened Decisions
  import L = Ledger
  import Database
  import P = LedgerProofs
  import A = Accounting

  // ----- full commitment is stable

  /** The identifier's whole budget is committed. */
  ghost predicate FullyCommitted(c: Config, s: State, id: IdHash) {
    && id in s.ledger.windows
    && |s.ledger.windows[id].candidates| == c.maxAttempts
    && (forall t | t in s.ledger.windows[id].candidates :: s.ledger.windows[id].candidates[t] == Committed)
  }

  /** The instant a step compares with the cooldowns, if it does. */
  function Observes(s: State, step: Step): Option<Time> {
    match step
    case Enter(n) => if n in s.tasks && s.tasks[n].Queued? then Some(s.tasks[n].requestedAt) else None
    case Sweep(now) => Some(now)
    case _ => None
  }

  predicate ObservesBy(s: State, step: Step, deadline: Time) {
    Observes(s, step).Some? ==> Observes(s, step).value <= deadline
  }

  /** What a lockout shows to the outside: everything but the request counters. */
  ghost predicate SameLockout(before: Window, after: Window) {
    after == before.(lastRequestAt := after.lastRequestAt, totalRequests := after.totalRequests)
  }

  lemma FullStep(c: Config, s: State, step: Step, id: IdHash)
    requires Inv(c, s) && Steppable(s) && Enabled(c, s, step) && FullyCommitted(c, s, id)
    requires ObservesBy(s, step, s.ledger.windows[id].lastCandidateAt + c.Cooldown())
    ensures var s' := Next(c, s, step);
      && id in s'.ledger.windows
      && SameLockout(s.ledger.windows[id], s'.ledger.windows[id])
    ensures step.Enter? && s.tasks[step.n].id == id ==>
      Admission(c, s, step.n) == Limited(c.maxAttempts, s.ledger.windows[id].lastCandidateAt)
  {
    hide Inv, Admit, L.Admitted, L.Completed, Database.Execute, CountsFit, SameLockout;
    assert SameLockout(s.ledger.windows[id], s.ledger.windows[id]) by { ItselfIsSame(s.ledger.windows[id]); }
    match step
    case Enter(n) => FullEnter(c, s, n, id);
    case Release(n) => FullCompletion(c, s, n, L.Removed, id);
    case Cancel(n, _) =>
      if s.tasks[n].Owner? {
        FullCompletion(c, s, n, L.Removed, id);
      }
    case Settle(n) => FullCompletion(c, s, n, L.Settled(s.tasks[n].phase.result), id);
    case _ =>
  }

  lemma ItselfIsSame(w: Window)
    ensures SameLockout(w, w)
  {
  }

  lemma FullEnter(c: Config, s: State, n: nat, id: IdHash)
    requires Inv(c, s) && Steppable(s) && Enabled(c, s, Enter(n)) && FullyCommitted(c, s, id)
    requires s.tasks[n].requestedAt <= s.ledger.windows[id].lastCandidateAt + c.Cooldown()
    ensures var s' := Next(c, s, Enter(n));
      && id in s'.ledger.windows
      && SameLockout(s.ledger.windows[id], s'.ledger.windows[id])
    ensures s.tasks[n].id == id ==>
      Admission(c, s, n) == Limited(c.maxAttempts, s.ledger.windows[id].lastCandidateAt)
  {
    hide Inv, Visit, Purge;
    var t := s.tasks[n];
    P.AdmittedWindows(c, s.ledger, n, t.id, t.tag, t.requestedAt);
    if t.id == id {
      NeverEmptyMap(c, s);
      RefusedIff(c, s.ledger.windows, id, t.tag, t.requestedAt);
      AdmitSees(c, s.ledger.windows, id, t.tag, t.requestedAt);
    } else {
      AdmitElsewhere(c, s.ledger.windows, t.id, t.tag, t.requestedAt, id);
    }
  }

  lemma NeverEmptyMap(c: Config, s: State)
    requires Inv(c, s)
    ensures |s.ledger.windows| <= c.maxIdentifiers && c.maxIdentifiers >= 1
  {
  }

  lemma FullCompletion(c: Config, s: State, n: nat, how: L.Completion, id: IdHash)
    requires Inv(c, s) && n in s.tasks && s.tasks[n].Owner? && n in s.ledger.reservations
    requires FullyCommitted(c, s, id)
    ensures var ws := L.Completed(s.ledger, n, how).windows;
      id in ws && ws[id] == s.ledger.windows[id]
  {
    assert TaskOk(s, n);
    var claim := s.tasks[n].claim;
    if claim.id in s.ledger.windows {
      WithinBudget(c, s, claim.id);
    }
    if how.Removed? {
      P.ReleaseIsFailedFinalize(s.ledger.windows, claim);
    }
    assert claim.id == id ==> !Acts(s.ledger.windows, claim);
  }

  /** A run no step of which observes the cooldown of `deadline` to be over. */
  ghost predicate Quiet(c: Config, s: State, steps: seq<Step>, deadline: Time)
    decreases |steps|
  {
    steps == [] ||
    (Steppable(s) && Enabled(c, s, steps[0]) && ObservesBy(s, steps[0], deadline)
     && Quiet(c, Next(c, s, steps[0]), steps[1..], deadline))
  }

  /** Every admission of `id` along the run gets this 429. */
  ghost predicate AlwaysLimited(c: Config, s: State, steps: seq<Step>, id: IdHash, last: Time)
    requires Run(c, s, steps).Some?
    decreases |steps|
  {
    steps == [] ||
    ((steps[0].Enter? && s.tasks[steps[0].n].id == id ==>
        Admission(c, s, steps[0].n) == Limited(c.maxAttempts, last))
     && AlwaysLimited(c, Next(c, s, steps[0]), steps[1..], id, last))
  }

  lemma {:induction false} QuietRuns(c: Config, s: State, steps: seq<Step>, deadline: Time)
    requires Quiet(c, s, steps, deadline)
    ensures Run(c, s, steps).Some?
    decreases |steps|
  {
    if steps != [] {
      QuietRuns(c, Next(c, s, steps[0]), steps[1..], deadline);
    }
  }

  /** Whatever the candidates and the database answer, and whatever other
      requests, completions and sweeps do, the lockout stands until some step
      observes a time after the last candidate's cooldown. */
  lemma {:induction false} FullCommitmentIsStable(c: Config, s: State, steps: seq<Step>, id: IdHash)
    requires Inv(c, s) && FullyCommitted(c, s, id)
    requires Quiet(c, s, steps, s.ledger.windows[id].lastCandidateAt + c.Cooldown())
    ensures Run(c, s, steps).Some?
    ensures var s' := Run(c, s, steps).value;
      && FullyCommitted(c, s', id)
      && SameLockout(s.ledger.windows[id], s'.ledger.windows[id])
    ensures AlwaysLimited(c, s, steps, id, s.ledger.windows[id].lastCandidateAt)
    decreases |steps|
  {
    hide Inv, Next;
    QuietRuns(c, s, steps, s.ledger.windows[id].lastCandidateAt + c.Cooldown());
    if steps != [] {
      FullStep(c, s, steps[0], id);
      StepKeeps(c, s, steps[0]);
      FullCommitmentIsStable(c, Next(c, s, steps[0]), steps[1..], id);
    }
  }

  // ----- one window over a run

  /** The two states hold the same window of the identifier. */
  ghost predicate SameWindow(s: State, s': State, id: IdHash) {
    id in s.ledger.books && id in s'.ledger.books && s'.ledger.books[id].opener == s.ledger.books[id].opener
  }

  lemma JoinBook(c: Config, l: L.Ledger, n: nat, x: IdHash, tag: Tag, now: Time, id: IdHash)
    requires CountsFit(l.windows)
    ensures var l' := L.Join(c, l, n, x, tag, now);
      id in l'.books && l'.books[id].opener != n ==>
        id in l.books && l'.books[id].opener == l.books[id].opener
  {
    hide EnterWindow;
  }

  lemma AdmittedBook(c: Config, l: L.Ledger, n: nat, x: IdHash, tag: Tag, now: Time, id: IdHash)
    requires CountsFit(l.windows)
    ensures var l' := L.Admitted(c, l, n, x, tag, now);
      id in l'.books && l'.books[id].opener != n ==>
        && id in l.books && l'.books[id].opener == l.books[id].opener
        && (x == id && id in l.windows ==> InForce(c, l.windows, id, now))
  {
    hide Visit, Purge, Admit, L.Join, Expired;
    P.PurgeFits(c, l.windows, x, now);
    PurgeDropsOnlyExpired(c, l.windows, x, now);
    JoinBook(c, L.DropTo(l, Purge(c, l.windows, x, now)), n, x, tag, now, id);
  }

  /** A step keeps the identifier's window, drops it, or opens a new one. */
  lemma StepWindow(c: Config, s: State, step: Step, id: IdHash)
    requires Inv(c, s) && Steppable(s) && Enabled(c, s, step)
    ensures var s' := Next(c, s, step);
      id in s'.ledger.books ==>
        SameWindow(s, s', id) || s'.ledger.books[id].opener !in s.ledger.reservations
  {
    hide L.Inv, L.Admitted, L.Completed, CountsFit, Admit, TaskOk, OwnedOk, Retain, Database.Execute;
    match step
    case Enter(n) =>
      EnterBook(c, s, n, id);
    case Release(n) => CompletedBook(s.ledger, n, L.Removed, id);
    case Cancel(n, _) =>
      if s.tasks[n].Owner? {
        CompletedBook(s.ledger, n, L.Removed, id);
      }
    case Settle(n) => CompletedBook(s.ledger, n, L.Settled(s.tasks[n].phase.result), id);
    case _ =>
  }

  lemma EnterBook(c: Config, s: State, n: nat, id: IdHash)
    requires Inv(c, s) && Steppable(s) && Enabled(c, s, Enter(n))
    ensures var s' := Next(c, s, Enter(n));
      id in s'.ledger.books ==>
        SameWindow(s, s', id) || s'.ledger.books[id].opener !in s.ledger.reservations
  {
    hide L.Inv, L.Admitted, Admit, CountsFit;
    assert TaskOk(s, n);
    var t := s.tasks[n];
    AdmittedBook(c, s.ledger, n, t.id, t.tag, t.requestedAt, id);
  }

  lemma CompletedBook(l: L.Ledger, n: nat, how: L.Completion, id: IdHash)
    requires n in l.reservations
    ensures var l' := L.Completed(l, n, how);
      id in l'.books ==> id in l.books && l'.books[id].opener == l.books[id].opener
  {
    hide L.CompletedWindows, L.CompletedFate;
  }

  lemma {:induction false} RunWindow(c: Config, s: State, steps: seq<Step>, id: IdHash)
    requires Inv(c, s) && Run(c, s, steps).Some?
    ensures var s' := Run(c, s, steps).value;
      && (forall m | m in s.ledger.reservations :: m in s'.ledger.reservations)
      && (id in s'.ledger.books ==>
            SameWindow(s, s', id) || s'.ledger.books[id].opener !in s.ledger.reservations)
    decreases |steps|
  {
    hide Inv, Next, Steppable, Enabled;
    if steps != [] {
      StepKeeps(c, s, steps[0]);
      StepWindow(c, s, steps[0], id);
      A.TurnsFollowTheLock(c, s, steps[0]);
      RunWindow(c, Next(c, s, steps[0]), steps[1..], id);
    }
  }

  /** A step that keeps a fully committed window changes its request counters at most. */
  lemma KeptStep(c: Config, s: State, step: Step, id: IdHash)
    requires Inv(c, s) && Steppable(s) && Enabled(c, s, step) && FullyCommitted(c, s, id)
    requires SameWindow(s, Next(c, s, step), id)
    ensures var s' := Next(c, s, step);
      && id in s'.ledger.windows && SameLockout(s.ledger.windows[id], s'.ledger.windows[id])
  {
    hide Inv;
    match step
    case Enter(n) => KeptEnter(c, s, n, id);
    case Release(n) => FullCompletion(c, s, n, L.Removed, id);
    case Cancel(n, _) =>
      if s.tasks[n].Owner? {
        FullCompletion(c, s, n, L.Removed, id);
      }
    case Settle(n) => FullCompletion(c, s, n, L.Settled(s.tasks[n].phase.result), id);
    case Sweep(_) =>
    case _ =>
  }

  lemma KeptEnter(c: Config, s: State, n: nat, id: IdHash)
    requires Inv(c, s) && Steppable(s) && Enabled(c, s, Enter(n)) && FullyCommitted(c, s, id)
    requires SameWindow(s, Next(c, s, Enter(n)), id)
    ensures var s' := Next(c, s, Enter(n));
      && id in s'.ledger.windows && SameLockout(s.ledger.windows[id], s'.ledger.windows[id])
  {
    hide Inv, L.Admitted, Admit;
    var t := s.tasks[n];
    BooksMatch(c, s, n, id);
    StepKeeps(c, s, Enter(n));
    KeysMatch(c, Next(c, s, Enter(n)));
    AdmittedBook(c, s.ledger, n, t.id, t.tag, t.requestedAt, id);
    P.AdmittedWindows(c, s.ledger, n, t.id, t.tag, t.requestedAt);
    if t.id == id {
      FullEnter(c, s, n, id);
    } else {
      AdmitElsewhere(c, s.ledger.windows, t.id, t.tag, t.requestedAt, id);
    }
  }

  lemma KeysMatch(c: Config, s: State)
    requires Inv(c, s)
    ensures s.ledger.books.Keys == s.ledger.windows.Keys
  {
  }

  lemma BooksMatch(c: Config, s: State, n: nat, id: IdHash)
    requires Inv(c, s) && n in s.tasks && s.tasks[n].Queued? && id in s.ledger.windows
    ensures CountsFit(s.ledger.windows) && s.ledger.books.Keys == s.ledger.windows.Keys
    ensures s.ledger.books[id].opener in s.ledger.reservations && s.ledger.books[id].opener != n
  {
    P.CountsAlwaysFit(c, s.ledger);
    assert TaskOk(s, n) && L.EntryOk(c, s.ledger, id);
  }

  /** As long as a fully committed window is there, it is as it was. */
  lemma {:induction false} KeptRuns(c: Config, s: State, steps: seq<Step>, id: IdHash)
    requires Inv(c, s) && FullyCommitted(c, s, id) && Run(c, s, steps).Some?
    requires SameWindow(s, Run(c, s, steps).value, id)
    ensures var s' := Run(c, s, steps).value;
      && FullyCommitted(c, s', id) && SameLockout(s.ledger.windows[id], s'.ledger.windows[id])
    decreases |steps|
  {
    hide Inv, Next, Steppable, Enabled;
    if steps != [] {
      var s1 := Next(c, s, steps[0]);
      StepKeeps(c, s, steps[0]);
      A.TurnsFollowTheLock(c, s, steps[0]);
      OpenerIsRecorded(c, s, id);
      RunWindow(c, s1, steps[1..], id);
      StepWindow(c, s, steps[0], id);
      KeptStep(c, s, steps[0], id);
      KeptRuns(c, s1, steps[1..], id);
    }
  }

  lemma OpenerIsRecorded(c: Config, s: State, id: IdHash)
    requires Inv(c, s) && id in s.ledger.windows
    ensures id in s.ledger.books && s.ledger.books[id].opener in s.ledger.reservations
  {
    assert L.EntryOk(c, s.ledger, id);
  }

  // ----- Retry-After

  /** chrono's `num_seconds`: whole seconds, rounded toward zero. */
  function NumSeconds(d: Time): int {
    if d >= 0 then d / SECOND else -((-d) / SECOND)
  }

  function RetryAfter(c: Config, lastCandidateAt: Time, now: Time): int {
    var seconds := NumSeconds(lastCandidateAt + c.Cooldown() - now);
    if seconds >= 1 then seconds else 1
  }

  /** A lockout answered at `now`. */
  predicate LockedOut(c: Config, ws: Windows, id: IdHash, now: Time) {
    && id in ws && ws[id].CountFits() && |ws[id].candidates| >= c.maxAttempts
    && !Expired(c, ws[id], now)
  }

  /** The remaining time is below Retry-After + 1 s, and Retry-After never
      exceeds the remaining time unless less than a second remains. */
  lemma RetryAfterBounds(c: Config, w: Window, now: Time)
    requires !Expired(c, w, now)
    ensures var remaining := w.lastCandidateAt + c.Cooldown() - now;
      var header := RetryAfter(c, w.lastCandidateAt, now) * SECOND;
      && 0 <= remaining < header + SECOND && SECOND <= header
      && header <= (if remaining >= SECOND then remaining else SECOND)
  {
  }

  /** Waiting one second longer than Retry-After always suffices: the same
      window no longer locks the next request out. */
  lemma OneMoreSecondSuffices(c: Config, ws: Windows, id: IdHash, tag: Tag, now: Time, later: Time)
    requires c.Valid() && CountsFit(ws) && |ws| <= c.maxIdentifiers
    requires LockedOut(c, ws, id, now)
    requires later >= now + (RetryAfter(c, ws[id].lastCandidateAt, now) + 1) * SECOND
    ensures Admit(c, ws, id, tag, later).1.New?
  {
    RetryAfterBounds(c, ws[id], now);
    RefusedIff(c, ws, id, tag, later);
    AdmitSees(c, ws, id, tag, later);
  }

  /** Waiting exactly Retry-After seconds suffices if and only if less than one
      second remained; otherwise the retry is locked out again. */
  lemma ExactRetryAfterIff(c: Config, ws: Windows, id: IdHash, tag: Tag, now: Time)
    requires c.Valid() && CountsFit(ws) && |ws| <= c.maxIdentifiers
    requires LockedOut(c, ws, id, now)
    ensures var retry := now + RetryAfter(c, ws[id].lastCandidateAt, now) * SECOND;
      var o := Admit(c, ws, id, tag, retry).1;
      var remaining := ws[id].lastCandidateAt + c.Cooldown() - now;
      && (o.New? <==> remaining < SECOND)
      && (o.Limited? <==> remaining >= SECOND)
  {
    RetryAfterBounds(c, ws[id], now);
    var retry := now + RetryAfter(c, ws[id].lastCandidateAt, now) * SECOND;
    RefusedIff(c, ws, id, tag, retry);
    AdmitSees(c, ws, id, tag, retry);
  }

  /** For instance: 1.5 s before the end the header says 1, and a client that
      honours it is refused once more. */
  lemma RetryAfterCanBeEarly(c: Config, w: Window, id: IdHash, tag: Tag)
    requires c.Valid() && w.CountFits() && |w.candidates| == c.maxAttempts
    ensures var now := w.lastCandidateAt + c.Cooldown() - 1_500_000_000;
      && RetryAfter(c, w.lastCandidateAt, now) == 1
      && Admit(c, map[id := w], id, tag, now + 1 * SECOND).1.Limited?
  {
    var now := w.lastCandidateAt + c.Cooldown() - 1_500_000_000;
    ExactRetryAfterIff(c, map[id := w], id, tag, now);
  }

  // ----- retries, over runs

  /** Request `n` may enter at the end of a run from a lockout of its identifier. */
  ghost predicate Retries(c: Config, s: State, steps: seq<Step>, n: nat, id: IdHash) {
    && Inv(c, s) && FullyCommitted(c, s, id) && Run(c, s, steps).Some?
    && var s' := Run(c, s, steps).value;
    && Steppable(s') && Enabled(c, s', Enter(n)) && s'.tasks[n].id == id
  }

  /** Whatever happened since a lockout: if its window is still there, it answers
      429 up to the end of its cooldown and admits after it; and if not, a 429
      comes from a window that was opened since. */
  lemma RetryDecision(c: Config, s: State, steps: seq<Step>, n: nat, id: IdHash)
    requires Retries(c, s, steps, n, id)
    ensures var s' := Run(c, s, steps).value;
      var last, at := s.ledger.windows[id].lastCandidateAt, s'.tasks[n].requestedAt;
      && (SameWindow(s, s', id) ==>
            && (Admission(c, s', n).Limited? <==> at <= last + c.Cooldown())
            && (Admission(c, s', n).New? <==> at > last + c.Cooldown()))
      && (!SameWindow(s, s', id) && Admission(c, s', n).Limited? ==>
            id in s'.ledger.books && s'.ledger.books[id].opener !in s.ledger.reservations)
  {
    hide Admit, L.Inv, Next;
    var s' := Run(c, s, steps).value;
    RunKeeps(c, s, steps);
    RunWindow(c, s, steps, id);
    var t := s'.tasks[n];
    NeverEmptyMap(c, s');
    RefusedIff(c, s'.ledger.windows, id, t.tag, t.requestedAt);
    if SameWindow(s, s', id) {
      KeptRuns(c, s, steps, id);
    }
    if !Admission(c, s', n).Refused? {
      AdmitSees(c, s'.ledger.windows, id, t.tag, t.requestedAt);
      FreshAdmits(c, t.tag, t.requestedAt);
    }
    if id in s'.ledger.windows {
      OpenerIsRecorded(c, s', id);
    }
  }

  lemma FreshAdmits(c: Config, tag: Tag, now: Time)
    requires c.Valid()
    ensures EnterWindow(c, NewWindow(now), tag, now).1.New?
  {
  }

  /** A client that waits one second longer than Retry-After is never locked out
      by the same window, whatever other requests, completions and sweeps did. */
  lemma OneMoreSecondSufficesInRuns(c: Config, s: State, steps: seq<Step>, n: nat, id: IdHash, now: Time)
    requires Retries(c, s, steps, n, id) && LockedOut(c, s.ledger.windows, id, now)
    requires Run(c, s, steps).value.tasks[n].requestedAt
      >= now + (RetryAfter(c, s.ledger.windows[id].lastCandidateAt, now) + 1) * SECOND
    ensures var s' := Run(c, s, steps).value;
      && (SameWindow(s, s', id) ==> Admission(c, s', n).New?)
      && (Admission(c, s', n).Limited? ==>
            id in s'.ledger.books && s'.ledger.books[id].opener !in s.ledger.reservations)
  {
    hide Retries, RetryAfter, Admit, Run, Expired;
    assert !Expired(c, s.ledger.windows[id], now);
    RetryAfterBounds(c, s.ledger.windows[id], now);
    RetryDecision(c, s, steps, n, id);
  }

  /** One that waits exactly Retry-After is locked out by it again if and only if
      at least a second had remained. */
  lemma ExactRetryAfterInRuns(c: Config, s: State, steps: seq<Step>, n: nat, id: IdHash, now: Time)
    requires Retries(c, s, steps, n, id) && LockedOut(c, s.ledger.windows, id, now)
    requires Run(c, s, steps).value.tasks[n].requestedAt
      == now + RetryAfter(c, s.ledger.windows[id].lastCandidateAt, now) * SECOND
    requires SameWindow(s, Run(c, s, steps).value, id)
    ensures var o := Admission(c, Run(c, s, steps).value, n);
      var remaining := s.ledger.windows[id].lastCandidateAt + c.Cooldown() - now;
      && (o.Limited? <==> remaining >= SECOND)
      && (o.New? <==> remaining < SECOND)
  {
    hide Retries, RetryAfter, Admit, Run, Expired;
    assert !Expired(c, s.ledger.windows[id], now);
    RetryAfterBounds(c, s.ledger.windows[id], now);
    RetryDecision(c, s, steps, n, id);
  }
}
