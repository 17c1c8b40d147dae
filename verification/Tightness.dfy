/** The guess bound cannot be extended by a nanosecond: a run with one guess
    too many in an interval of length cooldown - skew + 1. */
module Tightness {
  import opened Wrappers
  import opened Models
  import opened Limiter
  import opened Protocol
  import opened ProtocolProofs
  import opened Theorems
  import L = Ledger
  import P = LedgerProofs
  import A = Accounting
  import Q = Decisions

  lemma RunStep(c: Config, s: State, step: Step, rest: seq<Step>)
    requires Steppable(s) && Enabled(c, s, step)
    ensures Run(c, s, [step] + rest) == Run(c, Next(c, s, step), rest)
  {
    assert ([step] + rest)[1..] == rest;
  }

  /** The only window in force at `now`, if any, is that of `id`, and its
      candidates are `used`. */
  ghost predicate OnlyUsed(c: Config, ws: Windows, id: IdHash, now: Time, used: set<Tag>) {
    && ws.Keys <= {id}
    && used == (if id in ws && !Expired(c, ws[id], now) then ws[id].candidates.Keys else {})
  }

  /** A machine at rest that has room for another candidate. */
  ghost predicate Resting(c: Config, s: State, id: IdHash, used: set<Tag>) {
    && Inv(c, s) && s.tasks == map[] && |used| < c.maxAttempts
    && OnlyUsed(c, s.ledger.windows, id, s.ledger.clock, used)
  }

  /** One guess: asked now, admitted `wait` later, looked up, and settled. */
  function Guess(n: nat, id: IdHash, tag: Tag, now: Time, wait: Time): seq<Step> {
    [Arrive(Fetch, id, tag), Tick(now + wait), Enter(n), Acquire(n), Return(n, false), Settle(n)]
  }

  lemma GuessRuns(c: Config, s: State, id: IdHash, tag: Tag, wait: Time, used: set<Tag>) returns (s': State)
    requires Resting(c, s, id, used) && tag !in used && 0 <= wait <= c.skew
    ensures Run(c, s, Guess(s.next, id, tag, s.ledger.clock, wait)) == Some(s')
    ensures Inv(c, s') && s'.tasks == map[] && s'.ledger.windows.Keys <= {id}
    ensures s'.ledger.clock == s.ledger.clock + wait && s'.next == s.next + 1
    ensures id in s'.ledger.windows && s'.ledger.windows[id].lastCandidateAt == s.ledger.clock
    ensures s'.ledger.windows[id].candidates.Keys == used + {tag}
    ensures s.next in s'.ledger.reservations
    ensures var r := s'.ledger.reservations[s.next];
      r.claim.id == id && r.lockedAt == s.ledger.clock + wait && r.looked
  {
    hide L.Inv, Next, Run, Steppable;
    var n, now := s.next, s.ledger.clock;
    var s1 := Ask(c, s, id, tag, wait, used);
    var s2 := Join(c, s1, n, id, tag, now, used);
    s' := Finish(c, s2, n, id);
    var rest := [Acquire(n), Return(n, false), Settle(n)];
    RunTwo(c, s, Arrive(Fetch, id, tag), Tick(now + wait), [Enter(n)] + rest);
    RunStep(c, s1, Enter(n), rest);
    assert Guess(n, id, tag, now, wait)
      == [Arrive(Fetch, id, tag)] + ([Tick(now + wait)] + ([Enter(n)] + rest));
  }

  lemma RunTwo(c: Config, s: State, a: Step, b: Step, rest: seq<Step>)
    requires Steppable(s) && Enabled(c, s, a)
    requires Steppable(Next(c, s, a)) && Enabled(c, Next(c, s, a), b)
    ensures Run(c, s, [a] + ([b] + rest)) == Run(c, Next(c, Next(c, s, a), b), rest)
  {
    RunStep(c, s, a, [b] + rest);
    RunStep(c, Next(c, s, a), b, rest);
  }

  lemma Ask(c: Config, s: State, id: IdHash, tag: Tag, wait: Time, used: set<Tag>) returns (s': State)
    requires Resting(c, s, id, used) && 0 <= wait
    ensures Steppable(s)
    ensures var a := Next(c, s, Arrive(Fetch, id, tag));
      Steppable(a) && Enabled(c, a, Tick(s.ledger.clock + wait)) && s' == Next(c, a, Tick(s.ledger.clock + wait))
    ensures Inv(c, s')
    ensures s'.tasks == map[s.next := Queued(Fetch, id, tag, s.ledger.clock)]
    ensures s'.next == s.next + 1 && s'.ledger == s.ledger.(clock := s.ledger.clock + wait)
  {
    hide L.Inv;
    StepKeeps(c, s, Arrive(Fetch, id, tag));
    var a := Next(c, s, Arrive(Fetch, id, tag));
    StepKeeps(c, a, Tick(s.ledger.clock + wait));
    s' := Next(c, a, Tick(s.ledger.clock + wait));
  }

  lemma Join(c: Config, s: State, n: nat, id: IdHash, tag: Tag, now: Time, used: set<Tag>) returns (s': State)
    requires Inv(c, s) && |used| < c.maxAttempts && tag !in used && s.tasks == map[n := Queued(Fetch, id, tag, now)]
    requires s.ledger.clock - c.skew <= now <= s.ledger.clock
    requires OnlyUsed(c, s.ledger.windows, id, now, used)
    ensures Steppable(s) && Enabled(c, s, Enter(n)) && s' == Next(c, s, Enter(n))
    ensures Inv(c, s') && s'.next == s.next && s'.ledger.clock == s.ledger.clock
    ensures Guessing(c, s', n, id, Guarded)
    ensures s'.ledger.windows[id].lastCandidateAt == now
    ensures s'.ledger.windows[id].candidates.Keys == used + {tag}
    ensures s'.ledger.reservations[n].lockedAt == s.ledger.clock
  {
    hide Inv, Admit, Next, Enabled, Steppable, CountsFit, OnlyUsed;
    QueuedMayEnter(c, s, n);
    FreshAdmission(c, s.ledger.windows, id, tag, now, used);
    s' := EnterNew(c, s, n);
  }

  lemma QueuedMayEnter(c: Config, s: State, n: nat)
    requires Inv(c, s) && n in s.tasks && s.tasks[n].Queued?
    requires s.ledger.clock - c.skew <= s.tasks[n].requestedAt
    ensures Steppable(s) && Enabled(c, s, Enter(n)) && c.Valid() && CountsFit(s.ledger.windows)
    ensures |s.ledger.windows| <= c.maxIdentifiers
  {
    InvSteppable(c, s);
  }

  /** A New admission turns the request into an owner, and nothing else. */
  lemma EnterNew(c: Config, s: State, n: nat) returns (s': State)
    requires Inv(c, s) && Steppable(s) && Enabled(c, s, Enter(n)) && Admission(c, s, n).New?
    ensures s' == Next(c, s, Enter(n)) && Inv(c, s')
    ensures var t := s.tasks[n];
      var (ws, o) := Admit(c, s.ledger.windows, t.id, t.tag, t.requestedAt);
      && s'.tasks == s.tasks[n := Owner(t.op, Claim(t.id, t.tag, o.generation), Guarded)]
      && s'.ledger.windows == ws && s'.next == s.next && s'.ledger.clock == s.ledger.clock
      && n in s'.ledger.reservations
      && s'.ledger.reservations[n].claim == Claim(t.id, t.tag, o.generation)
      && s'.ledger.reservations[n].lockedAt == s.ledger.clock
  {
    hide L.Inv, Admit, L.Admitted;
    StepKeeps(c, s, Enter(n));
    assert TaskOk(s, n);
    var t := s.tasks[n];
    AdmittedRecord(c, s.ledger, n, t.id, t.tag, t.requestedAt);
    P.AdmittedWindows(c, s.ledger, n, t.id, t.tag, t.requestedAt);
    s' := Next(c, s, Enter(n));
  }

  lemma FreshAdmission(c: Config, ws: Windows, id: IdHash, tag: Tag, now: Time, used: set<Tag>)
    requires c.Valid() && CountsFit(ws) && |ws| <= c.maxIdentifiers && OnlyUsed(c, ws, id, now, used)
    requires |used| < c.maxAttempts && tag !in used
    ensures var (ws', o) := Admit(c, ws, id, tag, now);
      && o.New? && ws'.Keys == {id} && ws'[id].lastCandidateAt == now
      && ws'[id].candidates.Keys == used + {tag} && ws'[id].candidates[tag] == Pending
  {
    hide Admit, Expired;
    Q.RefusedIff(c, ws, id, tag, now);
    assert Q.OthersInForce(c, ws, id, now) == {};
    Q.AdmitSees(c, ws, id, tag, now);
    var after := Admit(c, ws, id, tag, now).0;
    forall x | x in after ensures x == id {
      if x != id {
        Q.AdmitElsewhere(c, ws, id, tag, now, x);
      }
    }
    var w := if Q.InForce(c, ws, id, now) then ws[id] else NewWindow(now);
    assert w.candidates.Keys == used && |w.candidates| == |w.candidates.Keys|;
  }

  /** The guess of request `n`, in some phase, is all that is going on. */
  ghost predicate Guessing(c: Config, s: State, n: nat, id: IdHash, phase: Phase) {
    && Inv(c, s) && n in s.tasks && s.tasks.Keys == {n}
    && s.tasks[n].Owner? && s.tasks[n].phase == phase && s.tasks[n].op == Fetch
    && s.tasks[n].claim.id == id && s.ledger.windows.Keys == {id}
    && n in s.ledger.reservations && s.ledger.reservations[n].claim.id == id
  }

  /** Nothing that identifies the guess or bounds its time has changed. */
  ghost predicate SameGuess(s: State, s': State, n: nat, id: IdHash) {
    && s'.next == s.next && s'.ledger.clock == s.ledger.clock
    && id in s.ledger.windows && id in s'.ledger.windows
    && s'.ledger.windows[id].lastCandidateAt == s.ledger.windows[id].lastCandidateAt
    && s'.ledger.windows[id].candidates.Keys == s.ledger.windows[id].candidates.Keys
    && n in s.ledger.reservations && n in s'.ledger.reservations
    && s'.ledger.reservations[n].lockedAt == s.ledger.reservations[n].lockedAt
    && s'.ledger.reservations[n].claim == s.ledger.reservations[n].claim
  }

  lemma AcquireGuess(c: Config, s: State, n: nat, id: IdHash) returns (s': State)
    requires Guessing(c, s, n, id, Guarded)
    ensures Steppable(s) && Enabled(c, s, Acquire(n)) && s' == Next(c, s, Acquire(n))
    ensures Guessing(c, s', n, id, Job) && SameGuess(s, s', n, id)
  {
    hide L.Inv;
    PermitFree(c, s, n);
    StepKeeps(c, s, Acquire(n));
    s' := Next(c, s, Acquire(n));
  }

  lemma ReturnGuess(c: Config, s: State, n: nat, id: IdHash) returns (s': State, result: LookupResult)
    requires Guessing(c, s, n, id, Job)
    ensures Steppable(s) && Enabled(c, s, Return(n, false)) && s' == Next(c, s, Return(n, false))
    ensures Guessing(c, s', n, id, Finalizer(result)) && !result.Failed? && SameGuess(s, s', n, id)
    ensures s'.ledger.reservations[n].looked
  {
    hide L.Inv;
    StepKeeps(c, s, Return(n, false));
    s' := Next(c, s, Return(n, false));
    result := ResultOf(Database.Execute(s.rows, s.tasks[n].Command(), false).1);
  }

  lemma SettleGuess(c: Config, s: State, n: nat, id: IdHash, result: LookupResult) returns (s': State)
    requires Guessing(c, s, n, id, Finalizer(result)) && !result.Failed?
    ensures Steppable(s) && Enabled(c, s, Settle(n)) && s' == Next(c, s, Settle(n))
    ensures Inv(c, s') && s'.tasks == map[] && s'.ledger.windows.Keys == {id} && SameGuess(s, s', n, id)
    ensures s'.ledger.reservations[n].looked == s.ledger.reservations[n].looked
  {
    hide L.Inv, Acts, Finalize;
    StepKeeps(c, s, Settle(n));
    assert TaskOk(s, n);
    s' := Next(c, s, Settle(n));
    FinalizeKeepsEntry(s.ledger.windows, s.tasks[n].claim, result);
    assert s'.tasks.Keys == {};
  }

  lemma Finish(c: Config, s: State, n: nat, id: IdHash) returns (s': State)
    requires Guessing(c, s, n, id, Guarded)
    ensures Run(c, s, [Acquire(n), Return(n, false), Settle(n)]) == Some(s')
    ensures Inv(c, s') && s'.tasks == map[] && s'.ledger.windows.Keys == {id}
    ensures SameGuess(s, s', n, id) && s'.ledger.reservations[n].looked
  {
    hide Inv, Next, Steppable, Enabled;
    var a := AcquireGuess(c, s, n, id);
    var b, result := ReturnGuess(c, a, n, id);
    s' := SettleGuess(c, b, n, id, result);
    RunTwo(c, s, Acquire(n), Return(n, false), [Settle(n)]);
    RunStep(c, b, Settle(n), []);
    assert [Acquire(n)] + ([Return(n, false)] + [Settle(n)]) == [Acquire(n), Return(n, false), Settle(n)];
    assert [Settle(n)] + [] == [Settle(n)];
  }

  lemma FinalizeKeepsEntry(ws: Windows, claim: Claim, result: LookupResult)
    requires claim.id in ws && !result.Failed?
    ensures Finalize(ws, claim, result).Keys == ws.Keys
    ensures Finalize(ws, claim, result)[claim.id].lastCandidateAt == ws[claim.id].lastCandidateAt
    ensures Finalize(ws, claim, result)[claim.id].candidates.Keys == ws[claim.id].candidates.Keys
  {
  }

  lemma PermitFree(c: Config, s: State, n: nat)
    requires Inv(c, s) && s.tasks.Keys == {n} && n in s.tasks && !s.tasks[n].HoldsPermit()
    ensures s.free > 0
  {
    assert Holders(s.tasks) == {};
  }

  lemma Wait(c: Config, s: State, later: Time) returns (s': State)
    requires Inv(c, s) && s.ledger.clock <= later
    ensures Steppable(s) && s' == Next(c, s, Tick(later)) && Inv(c, s')
    ensures s' == s.(ledger := s.ledger.(clock := later))
  {
    hide L.Inv;
    StepKeeps(c, s, Tick(later));
    s' := Next(c, s, Tick(later));
  }

  lemma {:induction false} RunConcat(c: Config, s: State, first: seq<Step>, rest: seq<Step>)
    requires Run(c, s, first).Some?
    ensures Run(c, s, first + rest) == Run(c, Run(c, s, first).value, rest)
    decreases |first|
  {
    hide Next, Steppable, Enabled;
    if first == [] {
      assert first + rest == rest;
    } else {
      assert (first + rest)[1..] == first[1..] + rest;
      RunConcat(c, Next(c, s, first[0]), first[1..], rest);
    }
  }

  /** A guess that has been settled stays in the history. */
  lemma SettledStays(c: Config, s: State, steps: seq<Step>, n: nat)
    requires Inv(c, s) && s.tasks == map[] && n in s.ledger.reservations && Run(c, s, steps).Some?
    ensures n in Run(c, s, steps).value.ledger.reservations
    ensures Run(c, s, steps).value.ledger.reservations[n] == s.ledger.reservations[n]
  {
    assert OwnedOk(s, n);
    A.FateIsFinalInRuns(c, s, steps, n);
  }

  /** Request `n` is a guess at `id` admitted at `at`. */
  ghost predicate GuessedAt(s: State, n: nat, id: IdHash, at: Time) {
    && n in s.ledger.reservations && s.ledger.reservations[n].claim.id == id
    && s.ledger.reservations[n].lockedAt == at && s.ledger.reservations[n].looked
  }

  function Elements(tags: seq<Tag>): set<Tag> {
    if tags == [] then {} else {tags[0]} + Elements(tags[1..])
  }

  /** As many guesses as the budget has left, all at one instant. */
  lemma {:induction false} GuessAll(c: Config, s: State, id: IdHash, tags: seq<Tag>, used: set<Tag>)
    returns (steps: seq<Step>, s': State)
    requires Inv(c, s) && s.tasks == map[] && OnlyUsed(c, s.ledger.windows, id, s.ledger.clock, used)
    requires |used| + |tags| <= c.maxAttempts
    requires forall i | 0 <= i < |tags| :: tags[i] !in used
    requires forall i, j | 0 <= i < j < |tags| :: tags[i] != tags[j]
    ensures Run(c, s, steps) == Some(s')
    ensures forall n | s.next <= n < s.next + |tags| :: GuessedAt(s', n, id, s.ledger.clock)
    ensures Inv(c, s') && s'.tasks == map[] && s'.ledger.clock == s.ledger.clock
    ensures OnlyUsed(c, s'.ledger.windows, id, s'.ledger.clock, used + Elements(tags))
    decreases |tags|
  {
    hide Inv, Next, Run, Guess, Steppable, OnlyUsed;
    if tags == [] {
      steps, s' := [], s;
      RunNothing(c, s);
      assert used + Elements(tags) == used;
    } else {
      var first := Guess(s.next, id, tags[0], s.ledger.clock, 0);
      InvValid(c, s);
      var s1 := GuessRuns(c, s, id, tags[0], 0, used);
      InvValid(c, s1);
      StillOnlyUsed(c, s1, id, used + {tags[0]});
      var rest;
      rest, s' := GuessAll(c, s1, id, tags[1..], used + {tags[0]});
      steps := first + rest;
      assert used + Elements(tags) == used + {tags[0]} + Elements(tags[1..]);
      RunConcat(c, s, first, rest);
      SettledStays(c, s1, rest, s.next);
    }
  }

  lemma RunNothing(c: Config, s: State)
    ensures Run(c, s, []) == Some(s)
  {
  }

  lemma InvValid(c: Config, s: State)
    requires Inv(c, s)
    ensures c.Valid()
  {
  }

  lemma StillOnlyUsed(c: Config, s: State, id: IdHash, used: set<Tag>)
    requires c.Valid() && s.ledger.windows.Keys <= {id} && id in s.ledger.windows
    requires s.ledger.windows[id].lastCandidateAt == s.ledger.clock
    requires s.ledger.windows[id].candidates.Keys == used
    ensures OnlyUsed(c, s.ledger.windows, id, s.ledger.clock, used)
  {
  }

  lemma {:induction false} AtLeast(k: nat, ns: set<nat>)
    requires forall n: nat | n < k :: n in ns
    ensures |ns| >= k
  {
    if k > 0 {
      AtLeast(k - 1, ns - {k - 1});
    }
  }

  lemma CountGuesses(s: State, id: IdHash, from: Time, to: Time, k: nat)
    requires from <= to && GuessedAt(s, 0, id, from)
    requires forall n | 1 <= n <= k :: GuessedAt(s, n, id, to)
    ensures |Guesses(s, id, from, to)| > k
  {
    forall n: nat | n < k + 1 ensures n in Guesses(s, id, from, to) {
      assert n > 0 ==> GuessedAt(s, n, id, to);
    }
    AtLeast(k + 1, Guesses(s, id, from, to));
  }

  /** Whatever the budget, there is a run with one guess more than it in an
      interval one nanosecond longer than the bound allows: one guess that waited
      for the lock, and a full budget in the window after it. */
  lemma GuessBoundIsTight(c: Config, start: Time, id: IdHash, first: Tag, tags: seq<Tag>)
    returns (steps: seq<Step>, s: State, from: Time, to: Time)
    requires c.Valid() && |tags| == c.maxAttempts
    requires forall i, j | 0 <= i < j < |tags| :: tags[i] != tags[j]
    ensures Reaches(c, start, steps, s)
    ensures to - from == c.Cooldown() - c.skew + 1
    ensures |Guesses(s, id, from, to)| > c.maxAttempts
  {
    hide Inv, Next, Guess, Run, Steppable, Enabled, Guesses, GuessedAt, OnlyUsed;
    InitHolds(c, start);
    var s0 := Init(c, start);
    InitRests(c, start, id);
    var s1 := GuessRuns(c, s0, id, first, c.skew, {});
    var later := start + c.Cooldown() + 1;
    var s2 := Wait(c, s1, later);
    ExpiredByThen(c, s2, id, start, later);
    var rest;
    rest, s := GuessAll(c, s2, id, tags, {});
    steps := Guess(0, id, first, start, c.skew) + ([Tick(later)] + rest);
    from, to := start + c.skew, later;
    RunConcat(c, s0, Guess(0, id, first, start, c.skew), [Tick(later)] + rest);
    RunStep(c, s1, Tick(later), rest);
    SettledStays(c, s1, [Tick(later)] + rest, 0);
    StillGuessed(s1, s, 0, id, from);
    CountGuesses(s, id, from, to, c.maxAttempts);
  }

  lemma InitRests(c: Config, start: Time, id: IdHash)
    requires c.Valid() && Inv(c, Init(c, start))
    ensures Resting(c, Init(c, start), id, {})
  {
  }

  lemma ExpiredByThen(c: Config, s: State, id: IdHash, start: Time, later: Time)
    requires s.ledger.windows.Keys <= {id} && s.ledger.clock == later > start + c.Cooldown()
    requires id in s.ledger.windows ==> s.ledger.windows[id].lastCandidateAt == start
    ensures OnlyUsed(c, s.ledger.windows, id, later, {})
  {
  }

  lemma StillGuessed(s: State, s': State, n: nat, id: IdHash, at: Time)
    requires n in s.ledger.reservations && n in s'.ledger.reservations
    requires s'.ledger.reservations[n] == s.ledger.reservations[n]
    requires s.ledger.reservations[n].claim.id == id
    requires s.ledger.reservations[n].lockedAt == at && s.ledger.reservations[n].looked
    ensures GuessedAt(s', n, id, at)
  {
  }
}
