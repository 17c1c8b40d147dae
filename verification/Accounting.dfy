/** Exact accounting: what every counter, instant and answer of the protocol
    means in terms of the history, in every reachable state. */
module Accounting {
  import opened Models
  import opened Limiter
  import opened Protocol
  import opened ProtocolProofs
  import opened Theorems
  import L = Ledger
  import P = LedgerProofs

  // ----- reservations

  /** Reservations of window `w` that ended, or have not ended, in this way. */
  ghost function WithFate(rs: L.Reservations, w: nat, fates: set<L.Fate>): set<nat> {
    set n | n in rs && rs[n].window == w && rs[n].fate in fates
  }

  ghost function TagsIn(w: Window, state: CandidateState): set<Tag> {
    set t | t in w.candidates && w.candidates[t] == state
  }

  /** A window's numbers are exact counts of what happened in it. */
  lemma WindowAccounting(c: Config, start: Time, steps: seq<Step>, s: State, id: IdHash)
    requires Reaches(c, start, steps, s) && id in s.ledger.windows
    ensures id in s.ledger.books
    ensures var w := s.ledger.windows[id];
      var opener := s.ledger.books[id].opener;
      var rs := s.ledger.reservations;
      && w.failed == |WithFate(rs, opener, {L.Miss})|
      && |TagsIn(w, Committed)| == |WithFate(rs, opener, {L.Hit, L.Miss})|
      && |TagsIn(w, Pending)| == |WithFate(rs, opener, {L.Open})|
      && WithFate(rs, opener, {L.Dropped}) == {}
      && w.totalRequests == L.AtMost(|L.Attached(s.ledger.attached, opener)|, U64_MAX)
      && w.failed <= |TagsIn(w, Committed)| <= |w.candidates| <= c.maxAttempts <= U8_MAX
  {
    ReachableHolds(c, start, steps, s);
    assert L.EntryOk(c, s.ledger, id);
    var w, b, rs := s.ledger.windows[id], s.ledger.books[id], s.ledger.reservations;
    TagsMatchFates(c, s, id, Committed, {L.Hit, L.Miss});
    TagsMatchFates(c, s, id, Pending, {L.Open});
    NoneDropped(c, s, id);
    assert WithFate(rs, b.opener, {L.Miss}) == L.Misses(rs, b.opener);
    SubsetSize(WithFate(rs, b.opener, {L.Miss}), WithFate(rs, b.opener, {L.Hit, L.Miss}));
    SubsetSize(TagsIn(w, Committed), w.candidates.Keys);
  }

  lemma NoneDropped(c: Config, s: State, id: IdHash)
    requires Inv(c, s) && id in s.ledger.windows && id in s.ledger.books
    ensures WithFate(s.ledger.reservations, s.ledger.books[id].opener, {L.Dropped}) == {}
  {
    assert L.EntryOk(c, s.ledger, id);
    P.KeptAreHolders(c, s.ledger, id);
    forall n | n in s.ledger.books[id].holders.Values
      ensures n in s.ledger.reservations && s.ledger.reservations[n].fate != L.Dropped {
      var t :| t in s.ledger.books[id].holders && s.ledger.books[id].holders[t] == n;
      assert L.HolderOk(s.ledger.reservations, id, s.ledger.windows[id], s.ledger.books[id], t);
    }
  }

  lemma TagsMatchFates(c: Config, s: State, id: IdHash, state: CandidateState, fates: set<L.Fate>)
    requires Inv(c, s) && id in s.ledger.windows && id in s.ledger.books
    requires fates == (if state == Pending then {L.Open} else {L.Hit, L.Miss})
    ensures |TagsIn(s.ledger.windows[id], state)|
         == |WithFate(s.ledger.reservations, s.ledger.books[id].opener, fates)|
  {
    assert L.EntryOk(c, s.ledger, id);
    P.KeptAreHolders(c, s.ledger, id);
    var w, b, rs := s.ledger.windows[id], s.ledger.books[id], s.ledger.reservations;
    var tags := TagsIn(w, state);
    var part := map t | t in tags :: b.holders[t];
    assert part.Keys == tags;
    forall n | n in WithFate(rs, b.opener, fates) ensures n in part.Values {
      assert n in L.Kept(rs, b.opener);
      var t :| t in b.holders && b.holders[t] == n;
      assert L.HolderOk(rs, id, w, b, t);
      assert t in part && part[t] == n;
    }
    forall n | n in part.Values ensures n in WithFate(rs, b.opener, fates) {
      var t :| t in part && part[t] == n;
      assert L.HolderOk(rs, id, w, b, t);
    }
    forall t, u | t in part && u in part && part[t] == part[u] ensures t == u {
      assert L.HolderOk(rs, id, w, b, t) && L.HolderOk(rs, id, w, b, u);
    }
    assert part.Values == WithFate(rs, b.opener, fates);
    P.InjectiveValues(part);
  }

  /** The instants of a window are those of its opener and of its last New
      admission, the one with the greatest turn, refunded or not: a refund does
      not roll the cooldown back. Its last request is one that reached it, whatever the answer. */
  lemma WindowInstants(c: Config, start: Time, steps: seq<Step>, s: State, id: IdHash)
    returns (opener: nat, newest: nat, latest: nat)
    requires Reaches(c, start, steps, s) && id in s.ledger.windows
    ensures var w := s.ledger.windows[id];
      var rs := s.ledger.reservations;
      && opener in rs && rs[opener].claim.id == id && rs[opener].requestedAt == w.startedAt
      && newest in rs && rs[newest].window == opener && rs[newest].requestedAt == w.lastCandidateAt
      && (forall n | n in rs && rs[n].window == opener :: rs[n].lockedAt <= rs[newest].lockedAt)
      && (forall n | n in rs && rs[n].window == opener && n != newest :: rs[n].turn < rs[newest].turn)
      && latest in s.ledger.attached && s.ledger.attached[latest] == L.Attachment(opener, w.lastRequestAt)
      && (forall t | t in w.candidates :: exists n ::
            n in rs && rs[n].window == opener && rs[n].claim == Claim(id, t, w.startedAt))
  {
    ReachableHolds(c, start, steps, s);
    assert L.EntryOk(c, s.ledger, id);
    var w, b, rs := s.ledger.windows[id], s.ledger.books[id], s.ledger.reservations;
    opener, newest, latest := b.opener, b.newest, b.latest;
    forall n | n in rs && rs[n].window == opener
      ensures rs[n].lockedAt <= rs[newest].lockedAt && (n != newest ==> rs[n].turn < rs[newest].turn) {
      assert L.ReservationOk(c, s.ledger, n);
    }
    forall t | t in w.candidates
      ensures exists n :: n in rs && rs[n].window == opener && rs[n].claim == Claim(id, t, w.startedAt) {
      assert L.HolderOk(rs, id, w, b, t);
      assert b.holders[t] in rs;
    }
  }

  /** A reservation is open exactly while some task owns it; a closed one ended
      as exactly one of hit, miss, refunded or dropped, and it can only count
      as a hit or a miss when its lookup returned. */
  lemma EveryReservationIsAccountedFor(c: Config, start: Time, steps: seq<Step>, s: State, n: nat)
    requires Reaches(c, start, steps, s) && n in s.ledger.reservations
    ensures var r := s.ledger.reservations[n];
      && (r.fate == L.Open <==> n in s.tasks && s.tasks[n].Owner?)
      && (r.fate in {L.Hit, L.Miss} ==> r.looked)
      && (r.fate == L.Refunded ==> !r.looked)
      && (L.Live(s.ledger, n) ==> r.fate != L.Dropped)
      && (L.Live(s.ledger, n) && r.fate in {L.Hit, L.Miss} ==>
            r.claim.id in s.ledger.windows && r.claim.tag in s.ledger.windows[r.claim.id].candidates
            && s.ledger.windows[r.claim.id].candidates[r.claim.tag] == Committed)
  {
    ReachableHolds(c, start, steps, s);
    assert OwnedOk(s, n);
    assert n in s.tasks ==> TaskOk(s, n);
    assert L.ReservationOk(c, s.ledger, n);
    var r := s.ledger.reservations[n];
    if L.Live(s.ledger, n) && r.fate != L.Refunded {
      assert L.EntryOk(c, s.ledger, r.claim.id);
      assert L.HolderOk(s.ledger.reservations, r.claim.id,
        s.ledger.windows[r.claim.id], s.ledger.books[r.claim.id], r.claim.tag);
    }
  }

  /** An admission leaves the records of other requests alone. */
  lemma EnterRecords(c: Config, s: State, n: nat, m: nat)
    requires Inv(c, s) && Steppable(s) && Enabled(c, s, Enter(n))
    requires m in s.ledger.reservations
    ensures m in Next(c, s, Enter(n)).ledger.reservations
    ensures Next(c, s, Enter(n)).ledger.reservations[m] == s.ledger.reservations[m]
  {
    hide L.Inv, Admit, L.Admitted;
    assert TaskOk(s, n);
    var t := s.tasks[n];
    AdmittedRecord(c, s.ledger, n, t.id, t.tag, t.requestedAt);
  }

  /** Turns are the order of the lock: a New admission gets the next one, and
      keeps it. */
  lemma TurnsFollowTheLock(c: Config, s: State, step: Step)
    requires Inv(c, s) && Steppable(s) && Enabled(c, s, step)
    ensures var rs, rs' := s.ledger.reservations, Next(c, s, step).ledger.reservations;
      && (forall m | m in rs :: m in rs' && rs'[m].turn == rs[m].turn < |rs|)
      && (forall n | n in rs' && n !in rs :: step == Enter(n) && rs'[n].turn == |rs|)
      && (forall n | step == Enter(n) && Admission(c, s, n).New? :: n in rs' && n !in rs)
  {
    hide L.Inv, Admit, Acts, CountsFit, L.CompletedWindows, L.CompletedFate, L.Admitted;
    forall m | m in s.ledger.reservations ensures s.ledger.reservations[m].turn < |s.ledger.reservations| {
      TurnIsUsed(c, s, m);
    }
    if step.Enter? {
      assert TaskOk(s, step.n);
      var t := s.tasks[step.n];
      AdmittedRecord(c, s.ledger, step.n, t.id, t.tag, t.requestedAt);
    }
  }

  lemma TurnIsUsed(c: Config, s: State, m: nat)
    requires Inv(c, s) && m in s.ledger.reservations
    ensures s.ledger.reservations[m].turn < |s.ledger.reservations|
  {
    assert L.ReservationOk(c, s.ledger, m);
  }

  /** Once closed, a reservation never changes again. */
  lemma FateIsFinal(c: Config, s: State, step: Step, n: nat)
    requires Inv(c, s) && Steppable(s) && Enabled(c, s, step)
    requires n in s.ledger.reservations && s.ledger.reservations[n].fate != L.Open
    ensures n in Next(c, s, step).ledger.reservations
    ensures Next(c, s, step).ledger.reservations[n] == s.ledger.reservations[n]
  {
    hide L.Inv, Admit, Acts, CountsFit, L.CompletedWindows, L.CompletedFate;
    assert n in s.tasks ==> TaskOk(s, n);
    if step.Enter? {
      hide Next;
      EnterRecords(c, s, step.n, n);
    }
  }

  lemma {:induction false} FateIsFinalInRuns(c: Config, s: State, steps: seq<Step>, n: nat)
    requires Inv(c, s) && Run(c, s, steps).Some?
    requires n in s.ledger.reservations && s.ledger.reservations[n].fate != L.Open
    ensures n in Run(c, s, steps).value.ledger.reservations
    ensures Run(c, s, steps).value.ledger.reservations[n] == s.ledger.reservations[n]
    decreases |steps|
  {
    if steps != [] {
      StepKeeps(c, s, steps[0]);
      FateIsFinal(c, s, steps[0], n);
      FateIsFinalInRuns(c, Next(c, s, steps[0]), steps[1..], n);
    }
  }

  /** Only a completion of its own owner closes a reservation. */
  lemma OnlyItsOwnerEndsIt(c: Config, s: State, step: Step, n: nat)
    requires Inv(c, s) && Steppable(s) && Enabled(c, s, step)
    requires n in s.ledger.reservations && s.ledger.reservations[n].fate == L.Open
    requires step !in {Settle(n), Release(n), Cancel(n, true)}
    ensures var s' := Next(c, s, step);
      n in s'.ledger.reservations && s'.ledger.reservations[n].fate == L.Open
  {
    hide L.Inv, Admit, Acts, CountsFit, L.CompletedWindows, L.CompletedFate;
    if step.Enter? {
      hide Next;
      EnterRecords(c, s, step.n, n);
    }
  }

  /** How its owner's completion ends a reservation: dropped if and only if its
      window is gone, and otherwise by what the lookup returned. */
  lemma HowItEnds(c: Config, s: State, n: nat, step: Step)
    requires Inv(c, s) && Steppable(s) && Enabled(c, s, step)
    requires step in {Settle(n), Release(n), Cancel(n, true)}
    requires n in s.ledger.reservations && n in s.tasks && s.tasks[n].Owner?
    ensures var s' := Next(c, s, step);
      n in s'.ledger.reservations && n !in s'.tasks
      && s'.ledger.reservations[n] == s.ledger.reservations[n].(fate :=
        if !L.Live(s.ledger, n) then L.Dropped
        else if !step.Settle? || s.tasks[n].phase.result.Failed? then L.Refunded
        else if s.tasks[n].phase.result.Found? then L.Hit else L.Miss)
  {
    assert TaskOk(s, n);
    P.ActsIffLive(c, s.ledger, n);
  }
}
