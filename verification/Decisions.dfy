/** What an admission decides, and what its answer says, in terms of the history. */
module Decisions {
  import opened Wrappers
  import opened Models
  import opened Limiter
  import opened Protocol
  import opened Theorems
  import L = Ledger
  import P = LedgerProofs

  /** The entries of other identifiers that a request at `now` must respect. */
  ghost function OthersInForce(c: Config, ws: Windows, id: IdHash, now: Time): set<IdHash> {
    set x | x in ws && x != id && !Expired(c, ws[x], now)
  }

  /** The identifier's own window, as a request at `now` sees it. */
  predicate InForce(c: Config, ws: Windows, id: IdHash, now: Time) {
    id in ws && !Expired(c, ws[id], now)
  }

  /** The map is full for this request exactly when the identifier has no window
      in force and the windows in force of the others fill it; an identifier
      with an entry, even an expired one, is never refused. */
  lemma RefusedIff(c: Config, ws: Windows, id: IdHash, tag: Tag, now: Time)
    requires CountsFit(ws) && |ws| <= c.maxIdentifiers && c.maxIdentifiers >= 1
    ensures Admit(c, ws, id, tag, now).1.Refused? <==>
      !InForce(c, ws, id, now) && |OthersInForce(c, ws, id, now)| >= c.maxIdentifiers
    ensures id in ws ==> !Admit(c, ws, id, tag, now).1.Refused?
  {
    hide Visit;
    var own := if id in ws && Expired(c, ws[id], now) then ws - {id} else ws;
    var room := Purge(c, ws, id, now);
    P.PurgeFits(c, ws, id, now);
    P.VisitAnswers(c, room, id, tag, now);
    var others := OthersInForce(c, ws, id, now);
    SubsetSize(others, ws.Keys);
    if id in ws {
      assert others <= ws.Keys - {id};
      SubsetSize(others, ws.Keys - {id});
      if id !in own {
        assert own.Keys == ws.Keys - {id};
        assert |own| == |own.Keys|;
      }
    } else {
      assert Retain(c, ws, now).Keys == others;
      assert |Retain(c, ws, now)| == |Retain(c, ws, now).Keys|;
    }
  }

  /** A refused request leaves no entry of its identifier. */
  lemma RefusedHasNone(c: Config, ws: Windows, id: IdHash, tag: Tag, now: Time)
    requires CountsFit(ws) && Admit(c, ws, id, tag, now).1.Refused?
    ensures id !in Admit(c, ws, id, tag, now).0
  {
    hide Visit;
    P.PurgeFits(c, ws, id, now);
    P.VisitAnswers(c, Purge(c, ws, id, now), id, tag, now);
  }

  /** The window an admission that is not refused looks at. */
  lemma AdmitSees(c: Config, ws: Windows, id: IdHash, tag: Tag, now: Time)
    requires CountsFit(ws)
    requires !Admit(c, ws, id, tag, now).1.Refused?
    ensures var w := if InForce(c, ws, id, now) then ws[id] else NewWindow(now);
      && id in Admit(c, ws, id, tag, now).0
      && (Admit(c, ws, id, tag, now).0[id], Admit(c, ws, id, tag, now).1) == EnterWindow(c, w, tag, now)
  {
    hide EnterWindow;
    PurgeDropsOnlyExpired(c, ws, id, now);
  }

  /** An admission for one identifier leaves the entry of another alone, unless
      that entry is expired at the time of the request. */
  lemma AdmitElsewhere(c: Config, ws: Windows, id: IdHash, tag: Tag, now: Time, other: IdHash)
    requires CountsFit(ws) && other != id
    ensures var after := Admit(c, ws, id, tag, now).0;
      && (other in after ==> other in ws && after[other] == ws[other])
      && (other in ws && !Expired(c, ws[other], now) ==> other in after)
  {
    hide EnterWindow;
    PurgeDropsOnlyExpired(c, ws, id, now);
  }

  /** Someone already reserved this candidate in the window in force. */
  ghost predicate Reserved(s: State, id: IdHash, tag: Tag, fates: set<L.Fate>) {
    && id in s.ledger.books
    && (exists n {:trigger n in s.ledger.reservations} | n in s.ledger.reservations ::
          && s.ledger.reservations[n].window == s.ledger.books[id].opener
          && s.ledger.reservations[n].claim.tag == tag
          && s.ledger.reservations[n].fate in fates)
  }

  lemma ReservedIff(c: Config, s: State, id: IdHash, tag: Tag)
    requires Inv(c, s) && id in s.ledger.windows
    ensures var cs := s.ledger.windows[id].candidates;
      && (tag in cs && cs[tag] == Pending <==> Reserved(s, id, tag, {L.Open}))
      && (tag in cs && cs[tag] == Committed <==> Reserved(s, id, tag, {L.Hit, L.Miss}))
  {
    assert L.EntryOk(c, s.ledger, id);
    var w, b, rs := s.ledger.windows[id], s.ledger.books[id], s.ledger.reservations;
    P.KeptAreHolders(c, s.ledger, id);
    if tag in w.candidates {
      assert L.HolderOk(rs, id, w, b, tag);
      assert b.holders[tag] in rs;
    }
    forall n | n in rs && rs[n].window == b.opener && rs[n].claim.tag == tag
        && rs[n].fate in {L.Open, L.Hit, L.Miss}
      ensures tag in w.candidates && b.holders[tag] == n {
      assert n in L.Kept(rs, b.opener);
      var t :| t in b.holders && b.holders[t] == n;
      assert L.HolderOk(rs, id, w, b, t);
    }
  }

  /** Which answer a queued lookup gets. Saturation comes before membership, so
      a full window gives the same answer whatever the candidate. */
  lemma AdmissionDecision(c: Config, start: Time, steps: seq<Step>, s: State, n: nat)
    requires Reaches(c, start, steps, s) && Steppable(s) && Enabled(c, s, Enter(n))
    ensures var t := s.tasks[n];
      var ws := s.ledger.windows;
      var o := Admission(c, s, n);
      var inForce := InForce(c, ws, t.id, t.requestedAt);
      var full := inForce && |ws[t.id].candidates| == c.maxAttempts;
      && (o.Refused? <==> !inForce && |OthersInForce(c, ws, t.id, t.requestedAt)| >= c.maxIdentifiers)
      && (o.Limited? <==> full)
      && (full ==> o == Limited(c.maxAttempts, ws[t.id].lastCandidateAt))
      && (o.Duplicate? <==> inForce && !full && Reserved(s, t.id, t.tag, {L.Open}))
      && (o.Replayed? <==> inForce && !full && Reserved(s, t.id, t.tag, {L.Hit, L.Miss}))
      && (o.New? <==> !o.Refused? && !full && (inForce ==> !Reserved(s, t.id, t.tag, {L.Open, L.Hit, L.Miss})))
  {
    hide Admit;
    ReachableHolds(c, start, steps, s);
    var t := s.tasks[n];
    RefusedIff(c, s.ledger.windows, t.id, t.tag, t.requestedAt);
    if !Admission(c, s, n).Refused? {
      AdmitSees(c, s.ledger.windows, t.id, t.tag, t.requestedAt);
    }
    if t.id in s.ledger.windows {
      WithinBudget(c, s, t.id);
      ReservedIff(c, s, t.id, t.tag);
      ReservedSplit(s, t.id, t.tag);
    }
  }

  lemma WithinBudget(c: Config, s: State, id: IdHash)
    requires Inv(c, s) && id in s.ledger.windows
    ensures 1 <= |s.ledger.windows[id].candidates| <= c.maxAttempts
  {
    assert L.EntryOk(c, s.ledger, id);
  }

  lemma ReservedSplit(s: State, id: IdHash, tag: Tag)
    ensures Reserved(s, id, tag, {L.Open, L.Hit, L.Miss}) <==>
      Reserved(s, id, tag, {L.Open}) || Reserved(s, id, tag, {L.Hit, L.Miss})
  {
    if Reserved(s, id, tag, {L.Open}) {
      var n :| n in s.ledger.reservations
        && s.ledger.reservations[n].window == s.ledger.books[id].opener
        && s.ledger.reservations[n].claim.tag == tag
        && s.ledger.reservations[n].fate in {L.Open};
      assert Reserved(s, id, tag, {L.Open, L.Hit, L.Miss});
    }
    if Reserved(s, id, tag, {L.Hit, L.Miss}) {
      var n :| n in s.ledger.reservations
        && s.ledger.reservations[n].window == s.ledger.books[id].opener
        && s.ledger.reservations[n].claim.tag == tag
        && s.ledger.reservations[n].fate in {L.Hit, L.Miss};
      assert Reserved(s, id, tag, {L.Open, L.Hit, L.Miss});
    }
  }

  /** What a New answer's status says about request `n`, read off the history
      before (`l`) and after (`l'`) its admission: `total_attempts` counts the
      unrefunded reservations of the joined window, `failed_attempts` its misses,
      `total_requests` its requests; the window starts when its opener was
      requested and resets a cooldown after this request; and the previous
      attempt is absent exactly when this request opened the window. */
  ghost predicate StatusIsTrue(
    c: Config, l: L.Ledger, l': L.Ledger, n: nat, id: IdHash, now: Time, status: AttemptStatus)
  {
    && id in l'.books && n in l'.reservations
    && var opener := l'.books[id].opener;
    && l'.reservations[n].window == opener && opener in l'.reservations
    && status.totalAttempts == |L.Kept(l'.reservations, opener)|
    && status.remainingAttempts + status.totalAttempts == c.maxAttempts
    && status.failedAttempts == |L.Misses(l'.reservations, opener)|
    && status.totalRequests == L.AtMost(|L.Attached(l'.attached, opener)|, U64_MAX)
    && status.windowStartedAt == l'.reservations[opener].requestedAt
    && status.resetsAt == now + c.Cooldown()
    && (status.previousAttemptAt.None? <==> opener == n)
    && (opener != n ==>
          && id in l.books && l.books[id].newest in l.reservations
          && status.previousAttemptAt == Some(l.reservations[l.books[id].newest].requestedAt))
  }

  lemma NewStatusIsTrue(c: Config, start: Time, steps: seq<Step>, s: State, n: nat)
    requires Reaches(c, start, steps, s) && Steppable(s) && Enabled(c, s, Enter(n))
    requires Admission(c, s, n).New?
    ensures StatusIsTrue(c, s.ledger, Next(c, s, Enter(n)).ledger, n,
      s.tasks[n].id, s.tasks[n].requestedAt, Admission(c, s, n).status)
  {
    hide L.Inv, StatusIsTrue, Admit, L.Admitted;
    ReachableHolds(c, start, steps, s);
    assert TaskOk(s, n);
    NewStatus(c, s.ledger, n, s.tasks[n].id, s.tasks[n].tag, s.tasks[n].requestedAt);
  }

  lemma NewStatus(c: Config, l: L.Ledger, n: nat, id: IdHash, tag: Tag, now: Time)
    requires P.MayAdmit(c, l, n, now) && CountsFit(l.windows)
    requires Admit(c, l.windows, id, tag, now).1.New?
    ensures StatusIsTrue(c, l, L.Admitted(c, l, n, id, tag, now), n, id, now,
      Admit(c, l.windows, id, tag, now).1.status)
  {
    hide EnterWindow, Visit, Purge, L.EntryOk, L.ReservationOk, L.CloseTogether, Admit, L.Admitted;
    var l' := L.Admitted(c, l, n, id, tag, now);
    P.AdmittedKeeps(c, l, n, id, tag, now);
    P.AdmittedWindows(c, l, n, id, tag, now);
    AdmitSees(c, l.windows, id, tag, now);
    NewBook(c, l, n, id, tag, now);
    WindowTotals(c, l', id);
    if InForce(c, l.windows, id, now) {
      NewInForce(c, l, n, id, tag, now);
      StatusOf(c, l.windows[id], tag, now);
    } else {
      StatusOf(c, NewWindow(now), tag, now);
    }
  }

  /** A New answer describes the window it leaves behind. */
  lemma StatusOf(c: Config, w: Window, tag: Tag, now: Time)
    requires w.CountFits()
    ensures var (w', o) := EnterWindow(c, w, tag, now);
      o.New? ==>
        && |w'.candidates| <= c.maxAttempts && w'.CountFits()
        && o.status == AttemptStatus(w'.Count(), w'.failed, c.maxAttempts - w'.Count(), w'.totalRequests,
             w'.startedAt, if w.candidates == map[] then None else Some(w.lastCandidateAt), now + c.Cooldown())
  {
    P.EnterCases(c, w, tag, now);
    assert |w.candidates| == 0 <==> w.candidates == map[];
  }

  lemma WindowTotals(c: Config, l: L.Ledger, id: IdHash)
    requires L.Agree(c, l) && id in l.windows
    ensures id in l.books
    ensures var w := l.windows[id];
      var opener := l.books[id].opener;
      && opener in l.reservations && l.reservations[opener].requestedAt == w.startedAt
      && |L.Kept(l.reservations, opener)| == |w.candidates|
      && |L.Misses(l.reservations, opener)| == w.failed
      && w.totalRequests == L.AtMost(|L.Attached(l.attached, opener)|, U64_MAX)
  {
    assert L.EntryOk(c, l, id);
    P.KeptAreHolders(c, l, id);
  }

  lemma NewInForce(c: Config, l: L.Ledger, n: nat, id: IdHash, tag: Tag, now: Time)
    requires L.Agree(c, l) && InForce(c, l.windows, id, now) && n !in l.reservations
    ensures id in l.books && l.books[id].opener != n && l.windows[id].candidates != map[]
    ensures l.books[id].newest in l.reservations
    ensures l.reservations[l.books[id].newest].requestedAt == l.windows[id].lastCandidateAt
  {
    assert L.EntryOk(c, l, id);
  }

  lemma NewBook(c: Config, l: L.Ledger, n: nat, id: IdHash, tag: Tag, now: Time)
    requires CountsFit(l.windows) && l.books.Keys == l.windows.Keys
    requires Admit(c, l.windows, id, tag, now).1.New?
    ensures var l' := L.Admitted(c, l, n, id, tag, now);
      && id in l'.books && n in l'.reservations
      && l'.reservations[n].window == l'.books[id].opener
      && (InForce(c, l.windows, id, now) ==> l'.books[id].opener == l.books[id].opener)
      && (!InForce(c, l.windows, id, now) ==> l'.books[id].opener == n)
  {
    hide EnterWindow;
    PurgeDropsOnlyExpired(c, l.windows, id, now);
  }

  /** What a replay answers, read off the history: the totals of the window
      including this request, the reset time of its newest reservation, and no
      previous attempt, although the window was opened by another request. A
      replay makes no reservation and leaves the candidates as they were. */
  ghost predicate ReplayIsTrue(
    c: Config, l: L.Ledger, l': L.Ledger, n: nat, id: IdHash, status: AttemptStatus)
  {
    && id in l.books && id in l'.books && id in l.windows && id in l'.windows
    && var opener, newest := l.books[id].opener, l.books[id].newest;
    && opener != n && l'.books[id].opener == opener && newest in l.reservations
    && l'.reservations == l.reservations
    && l'.windows[id].candidates == l.windows[id].candidates
    && opener in l.reservations
    && status.totalAttempts == |L.Kept(l.reservations, opener)|
    && status.remainingAttempts + status.totalAttempts == c.maxAttempts
    && status.failedAttempts == |L.Misses(l.reservations, opener)|
    && status.totalRequests == L.AtMost(|L.Attached(l'.attached, opener)|, U64_MAX)
    && status.windowStartedAt == l.reservations[opener].requestedAt
    && status.previousAttemptAt.None?
    && status.resetsAt == l.reservations[newest].requestedAt + c.Cooldown()
  }

  lemma ReplayedStatusIsTrue(c: Config, start: Time, steps: seq<Step>, s: State, n: nat)
    requires Reaches(c, start, steps, s) && Steppable(s) && Enabled(c, s, Enter(n))
    requires Admission(c, s, n).Replayed?
    ensures ReplayIsTrue(c, s.ledger, Next(c, s, Enter(n)).ledger, n,
      s.tasks[n].id, Admission(c, s, n).status)
  {
    hide L.Inv, ReplayIsTrue, Admit, L.Admitted;
    ReachableHolds(c, start, steps, s);
    assert TaskOk(s, n);
    ReplayedStatus(c, s.ledger, n, s.tasks[n].id, s.tasks[n].tag, s.tasks[n].requestedAt);
  }

  lemma ReplayedStatus(c: Config, l: L.Ledger, n: nat, id: IdHash, tag: Tag, now: Time)
    requires P.MayAdmit(c, l, n, now) && CountsFit(l.windows)
    requires Admit(c, l.windows, id, tag, now).1.Replayed?
    ensures ReplayIsTrue(c, l, L.Admitted(c, l, n, id, tag, now), n, id,
      Admit(c, l.windows, id, tag, now).1.status)
  {
    hide EnterWindow, Visit, Purge, L.EntryOk, L.ReservationOk, L.CloseTogether, Admit, L.Admitted;
    var l' := L.Admitted(c, l, n, id, tag, now);
    P.AdmittedKeeps(c, l, n, id, tag, now);
    P.AdmittedWindows(c, l, n, id, tag, now);
    AdmitSees(c, l.windows, id, tag, now);
    ReplayFindsWindow(c, if InForce(c, l.windows, id, now) then l.windows[id] else NewWindow(now), tag, now);
    ReplayedStatusOf(c, l.windows[id], tag, now);
    ReplayedBook(c, l, n, id, tag, now);
    NewInForce(c, l, n, id, tag, now);
    WindowTotals(c, l, id);
    WindowTotals(c, l', id);
  }

  lemma ReplayFindsWindow(c: Config, w: Window, tag: Tag, now: Time)
    requires w.CountFits()
    ensures EnterWindow(c, w, tag, now).1.Replayed? ==> w.candidates != map[]
  {
  }

  lemma ReplayedStatusOf(c: Config, w: Window, tag: Tag, now: Time)
    requires w.CountFits()
    ensures var (w', o) := EnterWindow(c, w, tag, now);
      o.Replayed? ==>
        && w'.candidates == w.candidates && w.Count() <= c.maxAttempts
        && w'.failed == w.failed && w'.startedAt == w.startedAt
        && o.status == AttemptStatus(w.Count(), w.failed, c.maxAttempts - w.Count(), w'.totalRequests,
             w.startedAt, None, w.lastCandidateAt + c.Cooldown())
  {
  }

  lemma ReplayedBook(c: Config, l: L.Ledger, n: nat, id: IdHash, tag: Tag, now: Time)
    requires CountsFit(l.windows) && l.books.Keys == l.windows.Keys
    requires InForce(c, l.windows, id, now) && Admit(c, l.windows, id, tag, now).1.Replayed?
    ensures var l' := L.Admitted(c, l, n, id, tag, now);
      && l'.reservations == l.reservations
      && id in l'.books && l'.books[id].opener == l.books[id].opener
  {
    hide EnterWindow;
    PurgeDropsOnlyExpired(c, l.windows, id, now);
  }

  // ----- what a request leaves behind

  lemma CompletionKeepsRequestTime(ws: Windows, claim: Claim, how: L.Completion, id: IdHash)
    ensures var after := L.CompletedWindows(ws, claim, how);
      id in after ==> id in ws && after[id].lastRequestAt == ws[id].lastRequestAt
  {
  }

  lemma AdmissionSetsRequestTime(c: Config, ws: Windows, x: IdHash, tag: Tag, now: Time, id: IdHash)
    requires CountsFit(ws)
    ensures var after := Admit(c, ws, x, tag, now).0;
      id in after ==>
        if x == id then after[id].lastRequestAt == now
        else id in ws && after[id].lastRequestAt == ws[id].lastRequestAt
  {
    hide Admit, EnterWindow;
    if x != id {
      AdmitElsewhere(c, ws, x, tag, now, id);
    } else if Admit(c, ws, id, tag, now).1.Refused? {
      RefusedHasNone(c, ws, id, tag, now);
    } else {
      AdmitSees(c, ws, id, tag, now);
      P.EnterCases(c, if InForce(c, ws, id, now) then ws[id] else NewWindow(now), tag, now);
    }
  }

  /** The last request of a window is the one of its identifier that last held
      the lock, whatever it was answered: each sets it, and nothing else does. */
  lemma LastRequestFollowsTheLock(c: Config, s: State, step: Step, id: IdHash)
    requires Inv(c, s) && Steppable(s) && Enabled(c, s, step)
    requires id in Next(c, s, step).ledger.windows
    ensures var ws' := Next(c, s, step).ledger.windows;
      if step.Enter? && s.tasks[step.n].id == id then
        ws'[id].lastRequestAt == s.tasks[step.n].requestedAt
      else
        id in s.ledger.windows && ws'[id].lastRequestAt == s.ledger.windows[id].lastRequestAt
  {
    hide Inv, Admit, L.Admitted, L.CompletedWindows, L.CompletedFate, CountsFit;
    match step
    case Enter(n) =>
      var t := s.tasks[n];
      P.AdmittedWindows(c, s.ledger, n, t.id, t.tag, t.requestedAt);
      AdmissionSetsRequestTime(c, s.ledger.windows, t.id, t.tag, t.requestedAt, id);
    case Release(n) =>
      CompletionKeepsRequestTime(s.ledger.windows, s.ledger.reservations[n].claim, L.Removed, id);
    case Cancel(n, _) =>
      if s.tasks[n].Owner? {
        CompletionKeepsRequestTime(s.ledger.windows, s.ledger.reservations[n].claim, L.Removed, id);
      }
    case Settle(n) =>
      CompletionKeepsRequestTime(s.ledger.windows, s.ledger.reservations[n].claim,
        L.Settled(s.tasks[n].phase.result), id);
    case _ =>
  }

  /** A lookup goes on to the database, under the operation and the tag it came
      with, exactly when it is admitted as new or as a replay; an owner of its
      reservation and a replay then wait for the same permit. */
  lemma AdmittedGoesOn(c: Config, s: State, n: nat)
    requires Inv(c, s) && Steppable(s) && Enabled(c, s, Enter(n))
    ensures var t, o, after := s.tasks[n], Admission(c, s, n), Next(c, s, Enter(n)).tasks;
      && (n in after <==> o.New? || o.Replayed?)
      && (n in after ==> after[n].WaitsForPermit() && (after[n].Owner? <==> o.New?))
      && (o.New? ==> after[n].op == t.op && after[n].claim == Claim(t.id, t.tag, o.generation))
      && (o.Replayed? ==> after[n].op == t.op && after[n].tag == t.tag)
      && (forall m | m != n :: m in after <==> m in s.tasks)
      && (forall m | m != n && m in after :: after[m] == s.tasks[m])
  {
    hide Inv, Admit, L.Admitted;
  }
}
