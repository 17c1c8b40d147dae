/** Reachable runs that show two answers the documentation describes otherwise. */
module Instances {
  import opened Wrappers
  import opened Models
  import opened Limiter
  import opened Protocol
  import opened ProtocolProofs
  import opened Theorems
  import opened Decisions
  import opened Tightness
  import D = Drain
  import L = Ledger

  /** A lookup reads the clock, and may take the lock at once. */
  lemma Arrives(c: Config, s: State, id: IdHash, tag: Tag) returns (s': State)
    requires Inv(c, s)
    ensures Run(c, s, [Arrive(Fetch, id, tag)]) == Some(s') && Inv(c, s')
    ensures Steppable(s') && Enabled(c, s', Enter(s.next))
    ensures s'.tasks == s.tasks[s.next := Queued(Fetch, id, tag, s.ledger.clock)]
    ensures s'.ledger == s.ledger
  {
    hide L.Inv;
    StepKeeps(c, s, Arrive(Fetch, id, tag));
    s' := Next(c, s, Arrive(Fetch, id, tag));
    InvSteppable(c, s');
    InvValid(c, s');
    assert [Arrive(Fetch, id, tag)][1..] == [];
  }

  /** What a lookup whose window is in force is answered. */
  lemma AnswerInForce(c: Config, s: State, n: nat)
    requires Inv(c, s) && Steppable(s) && Enabled(c, s, Enter(n))
    requires var t := s.tasks[n]; InForce(c, s.ledger.windows, t.id, t.requestedAt)
    ensures var t := s.tasks[n];
      && s.ledger.windows[t.id].CountFits()
      && Admission(c, s, n) == EnterWindow(c, s.ledger.windows[t.id], t.tag, t.requestedAt).1
  {
    hide L.Inv, Admit, EnterWindow;
    var t := s.tasks[n];
    InvValid(c, s);
    MapFits(c, s);
    RefusedIff(c, s.ledger.windows, t.id, t.tag, t.requestedAt);
    AdmitSees(c, s.ledger.windows, t.id, t.tag, t.requestedAt);
  }

  lemma MapFits(c: Config, s: State)
    requires Inv(c, s)
    ensures |s.ledger.windows| <= c.maxIdentifiers && c.maxIdentifiers >= 1
  {
  }

  lemma OpenerIsAnother(c: Config, s: State, n: nat, id: IdHash)
    requires Inv(c, s) && n in s.tasks && s.tasks[n].Queued? && id in s.ledger.windows
    ensures id in s.ledger.books && s.ledger.books[id].opener != n
  {
    assert TaskOk(s, n) && L.EntryOk(c, s.ledger, id);
  }

  /** With a budget of two or more, one candidate tried twice is replayed the
      second time and told of no previous attempt, although another request had
      opened the window. */
  lemma SomeReplayHasNoPrevious(c: Config, start: Time, id: IdHash, tag: Tag)
    returns (steps: seq<Step>, s: State, n: nat)
    requires c.Valid() && c.maxAttempts >= 2
    ensures Reaches(c, start, steps, s) && Steppable(s) && Enabled(c, s, Enter(n))
    ensures Admission(c, s, n).Replayed? && Admission(c, s, n).status.previousAttemptAt == None
    ensures s.tasks[n].id in s.ledger.books && s.ledger.books[s.tasks[n].id].opener != n
  {
    hide Inv, Next, Run, Guess, Steppable, Enabled, Admit, Resting;
    InitHolds(c, start);
    InitRests(c, start, id);
    var s0 := Init(c, start);
    var s1 := GuessRuns(c, s0, id, tag, 0, {});
    D.Idle(c, s1);
    n := s1.next;
    s := Arrives(c, s1, id, tag);
    steps := Guess(0, id, tag, start, 0) + [Arrive(Fetch, id, tag)];
    RunConcat(c, s0, Guess(0, id, tag, start, 0), [Arrive(Fetch, id, tag)]);
    var w := s.ledger.windows[id];
    assert w.candidates.Keys == {tag} && |w.candidates| == |w.candidates.Keys| == 1;
    AnswerInForce(c, s, n);
    OpenerIsAnother(c, s, n, id);
  }

  lemma {:induction false} ElementsCount(tags: seq<Tag>)
    requires forall i, j | 0 <= i < j < |tags| :: tags[i] != tags[j]
    ensures |Elements(tags)| == |tags|
    ensures forall t | t in Elements(tags) :: t in tags
  {
    if tags != [] {
      ElementsCount(tags[1..]);
    }
  }

  /** Whatever the budget, when the last candidate that fits is still pending, the
      same candidate sent again gets 429, not the 503 of a duplicate. */
  lemma SomePendingDuplicateIsLimited(c: Config, start: Time, id: IdHash, tags: seq<Tag>, last: Tag)
    returns (steps: seq<Step>, s: State, n: nat)
    requires c.Valid() && |tags| + 1 == c.maxAttempts && last !in tags
    requires forall i, j | 0 <= i < j < |tags| :: tags[i] != tags[j]
    ensures Reaches(c, start, steps, s) && Steppable(s) && Enabled(c, s, Enter(n))
    ensures s.tasks[n].tag == last && s.tasks[n].id in s.ledger.windows
    ensures last in s.ledger.windows[s.tasks[n].id].candidates
    ensures s.ledger.windows[s.tasks[n].id].candidates[last] == Pending
    ensures Admission(c, s, n).Limited?
  {
    hide Inv, Next, Run, Steppable, Enabled, Admit, OnlyUsed, EnterWindow, Elements;
    InitHolds(c, start);
    InitRests(c, start, id);
    var s0 := Init(c, start);
    var filled, s1 := GuessAll(c, s0, id, tags, {});
    ElementsCount(tags);
    var pending, s2 := LastCandidate(c, s1, id, last, {} + Elements(tags));
    n := s2.next;
    s := Arrives(c, s2, id, last);
    steps := filled + (pending + [Arrive(Fetch, id, last)]);
    RunConcat(c, s1, pending, [Arrive(Fetch, id, last)]);
    RunConcat(c, s0, filled, pending + [Arrive(Fetch, id, last)]);
    AnswerInForce(c, s, n);
    FullIsLimited(c, s.ledger.windows[id], last, s.tasks[n].requestedAt);
  }

  lemma FullIsLimited(c: Config, w: Window, tag: Tag, now: Time)
    requires w.CountFits() && |w.candidates| == c.maxAttempts
    ensures EnterWindow(c, w, tag, now).1.Limited?
  {
  }

  /** The last candidate that fits is reserved, and its owner waits. */
  lemma LastCandidate(c: Config, s: State, id: IdHash, tag: Tag, used: set<Tag>)
    returns (steps: seq<Step>, s': State)
    requires Inv(c, s) && s.tasks == map[] && OnlyUsed(c, s.ledger.windows, id, s.ledger.clock, used)
    requires |used| + 1 == c.maxAttempts && tag !in used
    ensures Run(c, s, steps) == Some(s') && Inv(c, s')
    ensures InForce(c, s'.ledger.windows, id, s'.ledger.clock)
    ensures var cs := s'.ledger.windows[id].candidates;
      |cs| == c.maxAttempts && tag in cs && cs[tag] == Pending
  {
    hide Inv, Next, Run, Steppable, Enabled, Admit, OnlyUsed, InForce;
    var s1 := Arrives(c, s, id, tag);
    s' := EntersPending(c, s1, s.next, id, tag, used);
    steps := [Arrive(Fetch, id, tag)] + [Enter(s.next)];
    RunConcat(c, s, [Arrive(Fetch, id, tag)], [Enter(s.next)]);
  }

  lemma EntersPending(c: Config, s: State, n: nat, id: IdHash, tag: Tag, used: set<Tag>) returns (s': State)
    requires Inv(c, s) && s.tasks == map[n := Queued(Fetch, id, tag, s.ledger.clock)]
    requires OnlyUsed(c, s.ledger.windows, id, s.ledger.clock, used)
    requires |used| + 1 == c.maxAttempts && tag !in used
    ensures Run(c, s, [Enter(n)]) == Some(s') && Inv(c, s')
    ensures InForce(c, s'.ledger.windows, id, s'.ledger.clock)
    ensures var cs := s'.ledger.windows[id].candidates;
      |cs| == c.maxAttempts && tag in cs && cs[tag] == Pending
  {
    hide Inv, Next, Run, Steppable, Enabled, Admit, OnlyUsed, CountsFit, Expired;
    InvValid(c, s);
    QueuedMayEnter(c, s, n);
    FreshAdmission(c, s.ledger.windows, id, tag, s.ledger.clock, used);
    s' := EnterNew(c, s, n);
    EnterRuns(c, s, n);
    FreshlyUsed(c, s'.ledger.windows[id], s.ledger.clock, used, tag);
  }

  lemma FreshlyUsed(c: Config, w: Window, now: Time, used: set<Tag>, tag: Tag)
    requires c.Valid() && w.lastCandidateAt == now && w.candidates.Keys == used + {tag} && tag !in used
    ensures !Expired(c, w, now) && |w.candidates| == |used| + 1
  {
    assert |w.candidates| == |w.candidates.Keys|;
  }

  lemma EnterRuns(c: Config, s: State, n: nat)
    requires Steppable(s) && Enabled(c, s, Enter(n))
    ensures Run(c, s, [Enter(n)]) == Some(Next(c, s, Enter(n)))
  {
    assert [Enter(n)][1..] == [];
  }
}
