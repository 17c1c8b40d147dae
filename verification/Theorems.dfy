/** What the admission protocol guarantees in every state that any run reaches,
    whatever requests, cancellations, refunds, database errors, sweeps and late
    finalizers interleave. */
module Theorems {
  import opened Wrappers
  import opened Models
  import opened Limiter
  import opened Protocol
  import opened ProtocolProofs
  import L = Ledger
  import P = LedgerProofs
  import Database

  ghost predicate Reaches(c: Config, start: Time, steps: seq<Step>, s: State) {
    c.Valid() && Run(c, Init(c, start), steps) == Some(s)
  }

  lemma ReachableHolds(c: Config, start: Time, steps: seq<Step>, s: State)
    requires Reaches(c, start, steps, s)
    ensures Inv(c, s) && Steppable(s)
  {
    InitHolds(c, start);
    RunKeeps(c, Init(c, start), steps);
    InvSteppable(c, s);
  }

  // ----- the guess bound

  /** New admissions of `id` that took the lock between `from` and `to` and
      whose database lookup ever returned without an error. */
  ghost function Guesses(s: State, id: IdHash, from: Time, to: Time): set<nat> {
    set n | n in s.ledger.reservations
      && s.ledger.reservations[n].claim.id == id
      && from <= s.ledger.reservations[n].lockedAt <= to
      && s.ledger.reservations[n].looked
  }

  /** No interval of lock times of length at most cooldown - skew holds more
      than `maxAttempts` distinct guesses of one identifier. */
  lemma GuessBound(c: Config, start: Time, steps: seq<Step>, s: State, id: IdHash, from: Time, to: Time)
    requires Reaches(c, start, steps, s)
    requires to - from <= c.Cooldown() - c.skew
    ensures |Guesses(s, id, from, to)| <= c.maxAttempts
  {
    hide L.Agree;
    ReachableHolds(c, start, steps, s);
    var guesses := Guesses(s, id, from, to);
    if guesses != {} {
      var first :| first in guesses;
      var w := s.ledger.reservations[first].window;
      forall n | n in guesses ensures n in L.Kept(s.ledger.reservations, w) {
        GuessesShareWindow(c, s, first, n);
      }
      SubsetSize(guesses, L.Kept(s.ledger.reservations, w));
    }
  }

  /** So an interval of any length holds at most a budget for every period of
      cooldown - skew that it starts. */
  lemma {:induction false} GuessBoundAnyLength(
    c: Config, start: Time, steps: seq<Step>, s: State, id: IdHash, from: Time, to: Time, periods: nat)
    requires Reaches(c, start, steps, s)
    requires to - from < periods * (c.Cooldown() - c.skew + 1)
    ensures |Guesses(s, id, from, to)| <= periods * c.maxAttempts
    decreases periods
  {
    hide Guesses, Reaches;
    if periods == 0 {
      NoGuesses(s, id, from, to);
    } else {
      var period := c.Cooldown() - c.skew + 1;
      assert periods * period == (periods - 1) * period + period;
      assert periods * c.maxAttempts == (periods - 1) * c.maxAttempts + c.maxAttempts;
      GuessBound(c, start, steps, s, id, from, from + period - 1);
      GuessBoundAnyLength(c, start, steps, s, id, from + period, to, periods - 1);
      SplitGuesses(s, id, from, from + period, to);
    }
  }

  lemma NoGuesses(s: State, id: IdHash, from: Time, to: Time)
    requires to < from
    ensures Guesses(s, id, from, to) == {}
  {
  }

  lemma SplitGuesses(s: State, id: IdHash, from: Time, middle: Time, to: Time)
    ensures |Guesses(s, id, from, to)|
      <= |Guesses(s, id, from, middle - 1)| + |Guesses(s, id, middle, to)|
  {
    var a, b := Guesses(s, id, from, middle - 1), Guesses(s, id, middle, to);
    SubsetSize(Guesses(s, id, from, to), a + b);
  }

  lemma GuessesShareWindow(c: Config, s: State, n: nat, m: nat)
    requires Inv(c, s)
    requires n in s.ledger.reservations && m in s.ledger.reservations
    requires s.ledger.reservations[n].looked && s.ledger.reservations[m].looked
    requires s.ledger.reservations[n].claim.id == s.ledger.reservations[m].claim.id
    requires -(c.Cooldown() - c.skew)
      <= s.ledger.reservations[n].lockedAt - s.ledger.reservations[m].lockedAt
      <= c.Cooldown() - c.skew
    ensures m in L.Kept(s.ledger.reservations, s.ledger.reservations[n].window)
  {
    assert L.ReservationOk(c, s.ledger, n) && L.ReservationOk(c, s.ledger, m);
    assert L.CloseTogether(c, s.ledger.reservations, n, m);
  }

  // ----- completions

  /** Two maps that agree except on candidate `claim.tag` of `claim.id`, which is
      gone after a failure, the entry with it if it was the only one, and committed
      otherwise; a miss counts as one more failure. */
  ghost predicate OnlyCandidate(before: Windows, after: Windows, claim: Claim, result: LookupResult) {
    && claim.id in before
    && (forall id | id != claim.id :: id in before <==> id in after)
    && (forall id | id != claim.id && id in before :: after[id] == before[id])
    && (claim.id !in after <==> result.Failed? && before[claim.id].candidates.Keys == {claim.tag})
    && (claim.id in after ==>
          var w, w' := before[claim.id], after[claim.id];
          && (forall tag | tag != claim.tag :: tag in w.candidates <==> tag in w'.candidates)
          && (forall tag | tag != claim.tag && tag in w.candidates :: w'.candidates[tag] == w.candidates[tag])
          && (claim.tag in w'.candidates <==> !result.Failed?)
          && (claim.tag in w'.candidates ==> w'.candidates[claim.tag] == Committed)
          && w'.failed == w.failed + (if result.Absent? then 1 else 0)
          && w'.startedAt == w.startedAt && w'.totalRequests == w.totalRequests
          && w'.lastCandidateAt == w.lastCandidateAt && w'.lastRequestAt == w.lastRequestAt)
  }

  /** A completion, by either path, changes nothing when the owner's window is
      gone, although a later window of the identifier may be there, and changes
      only the owner's own candidate when it is not. */
  lemma CompletionIsOwn(c: Config, start: Time, steps: seq<Step>, s: State, n: nat, how: L.Completion)
    requires Reaches(c, start, steps, s)
    requires n in s.tasks && s.tasks[n].Owner?
    ensures n in s.ledger.reservations && s.ledger.reservations[n].claim == s.tasks[n].claim
    ensures var claim := s.tasks[n].claim;
      var after := L.CompletedWindows(s.ledger.windows, claim, how);
      && (!L.Live(s.ledger, n) ==> after == s.ledger.windows)
      && (L.Live(s.ledger, n) ==>
            after != s.ledger.windows && OnlyCandidate(s.ledger.windows, after, claim, how.Result()))
      && (!L.Live(s.ledger, n) && claim.id in s.ledger.windows ==>
            s.ledger.windows[claim.id].startedAt > claim.generation)
  {
    hide Inv, OnlyCandidate;
    var claim := s.tasks[n].claim;
    OwnerFacts(c, start, steps, s, n);
    FailedNeverSaturates(c, start, steps, s, n);
    var ws := s.ledger.windows;
    if how.Removed? {
      P.ReleaseIsFailedFinalize(ws, claim);
    }
    CompletionEffect(ws, claim, how.Result());
  }

  lemma OwnerFacts(c: Config, start: Time, steps: seq<Step>, s: State, n: nat)
    requires Reaches(c, start, steps, s)
    requires n in s.tasks && s.tasks[n].Owner?
    ensures n in s.ledger.reservations && s.ledger.reservations[n].claim == s.tasks[n].claim
    ensures Acts(s.ledger.windows, s.tasks[n].claim) <==> L.Live(s.ledger, n)
    ensures var id := s.tasks[n].claim.id;
      id in s.ledger.windows ==>
        && |s.ledger.windows[id].candidates| >= 1
        && (L.Live(s.ledger, n) || s.ledger.windows[id].startedAt > s.tasks[n].claim.generation)
  {
    ReachableHolds(c, start, steps, s);
    assert TaskOk(s, n);
    assert L.ReservationOk(c, s.ledger, n);
    P.ActsIffLive(c, s.ledger, n);
    var id := s.tasks[n].claim.id;
    if id in s.ledger.windows {
      assert L.EntryOk(c, s.ledger, id);
    }
  }

  lemma CompletionEffect(ws: Windows, claim: Claim, result: LookupResult)
    requires Acts(ws, claim) ==> ws[claim.id].failed < U8_MAX
    ensures var after := Finalize(ws, claim, result);
      && (!Acts(ws, claim) ==> after == ws)
      && (Acts(ws, claim) ==> after != ws && OnlyCandidate(ws, after, claim, result))
  {
    var after := Finalize(ws, claim, result);
    if Acts(ws, claim) {
      var w := ws[claim.id];
      var left := w.candidates - {claim.tag};
      assert left.Keys == w.candidates.Keys - {claim.tag};
      assert left == map[] ==> left.Keys == {};
      assert w.candidates.Keys == left.Keys + {claim.tag};
      assert w.candidates.Keys == {claim.tag} ==> left.Keys == {};
      if claim.id in after {
        assert claim.tag !in after[claim.id].candidates || after[claim.id].candidates[claim.tag] == Committed;
      }
    }
  }

  // ----- ownership

  /** Every pending candidate has exactly one owner: an armed handler, a
      cleaner or a detached task. */
  lemma SingleOwner(c: Config, start: Time, steps: seq<Step>, s: State, id: IdHash, tag: Tag)
    returns (n: nat)
    requires Reaches(c, start, steps, s)
    requires id in s.ledger.windows && tag in s.ledger.windows[id].candidates
    requires s.ledger.windows[id].candidates[tag] == Pending
    ensures n in s.tasks && s.tasks[n].Owner?
    ensures s.tasks[n].claim == Claim(id, tag, s.ledger.windows[id].startedAt)
    ensures forall m | m in s.tasks && m != n && s.tasks[m].Owner? ::
      s.tasks[m].claim != s.tasks[n].claim
  {
    ReachableHolds(c, start, steps, s);
    assert L.EntryOk(c, s.ledger, id);
    n := s.ledger.books[id].holders[tag];
    assert L.HolderOk(s.ledger.reservations, id, s.ledger.windows[id], s.ledger.books[id], tag);
    assert OwnedOk(s, n) && TaskOk(s, n);
    forall m | m in s.tasks && m != n && s.tasks[m].Owner? ensures s.tasks[m].claim != s.tasks[n].claim {
      OwnerElsewhere(c, s, id, tag, m);
    }
  }

  lemma OwnerElsewhere(c: Config, s: State, id: IdHash, tag: Tag, m: nat)
    requires Inv(c, s)
    requires id in s.ledger.windows && id in s.ledger.books && tag in s.ledger.books[id].holders
    requires m in s.tasks && s.tasks[m].Owner? && m != s.ledger.books[id].holders[tag]
    ensures s.tasks[m].claim != Claim(id, tag, s.ledger.windows[id].startedAt)
  {
    assert TaskOk(s, m);
    assert L.ReservationOk(c, s.ledger, m);
  }

  /** An owner whose window is still there finds its own candidate pending. */
  lemma OwnerFindsPending(c: Config, start: Time, steps: seq<Step>, s: State, n: nat)
    requires Reaches(c, start, steps, s)
    requires n in s.tasks && s.tasks[n].Owner?
    ensures n in s.ledger.reservations
    ensures L.Live(s.ledger, n) ==>
      var claim := s.tasks[n].claim;
      && claim.id in s.ledger.windows
      && s.ledger.windows[claim.id].startedAt == claim.generation
      && claim.tag in s.ledger.windows[claim.id].candidates
      && s.ledger.windows[claim.id].candidates[claim.tag] == Pending
  {
    OwnerFacts(c, start, steps, s, n);
  }

  // ----- the map and the table

  /** The map never exceeds its capacity, no entry is empty or over budget, and
      no conversion of a candidate count can overflow. */
  lemma MapInvariants(c: Config, start: Time, steps: seq<Step>, s: State)
    requires Reaches(c, start, steps, s)
    ensures |s.ledger.windows| <= c.maxIdentifiers
    ensures CountsFit(s.ledger.windows)
    ensures forall id | id in s.ledger.windows ::
      && 1 <= |s.ledger.windows[id].candidates| <= c.maxAttempts
      && s.ledger.windows[id].startedAt - c.skew <= s.ledger.windows[id].lastCandidateAt <= s.ledger.clock
  {
    ReachableHolds(c, start, steps, s);
    forall id | id in s.ledger.windows
      ensures 1 <= |s.ledger.windows[id].candidates| <= c.maxAttempts
        && s.ledger.windows[id].startedAt - c.skew <= s.ledger.windows[id].lastCandidateAt <= s.ledger.clock {
      assert L.EntryOk(c, s.ledger, id);
    }
  }

  /** A miss always has room in the failed count: it never saturates. */
  lemma FailedNeverSaturates(c: Config, start: Time, steps: seq<Step>, s: State, n: nat)
    requires Reaches(c, start, steps, s) && n in s.tasks && s.tasks[n].Owner?
    ensures var claim := s.tasks[n].claim;
      Acts(s.ledger.windows, claim) ==> s.ledger.windows[claim.id].failed < c.maxAttempts <= U8_MAX
  {
    ReachableHolds(c, start, steps, s);
    assert TaskOk(s, n);
    P.ActsIffLive(c, s.ledger, n);
    P.MissFits(c, s.ledger, n);
    var id := s.tasks[n].claim.id;
    if id in s.ledger.windows {
      assert L.EntryOk(c, s.ledger, id);
    }
  }

  /** The rows of any run are explained by its database history: created minus
      released is presence, and the row is the first one stored since. */
  lemma RowsAreExplained(c: Config, start: Time, steps: seq<Step>, s: State, id: Tag)
    requires Reaches(c, start, steps, s)
    ensures Database.Genuine(s.log)
    ensures Database.Created(s.log, id) == Database.Releases(s.log, id) + (if id in s.rows then 1 else 0)
    ensures id in s.rows <==> exists i: nat :: Database.Standing(s.log, id, i)
    ensures forall i: nat :: Database.Standing(s.log, id, i) ==>
      id in s.rows && s.rows[id] == s.log[i].command.secret
  {
    ReachableHolds(c, start, steps, s);
    Database.RowsAreConserved(s.log, id);
    Database.RowIsFirstStored(s.log, id);
  }
}
