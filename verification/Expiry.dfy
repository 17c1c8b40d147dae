/** Lazy expiry is unobservable when requests take the lock in the order of their
    timestamps. */
module Expiry {
  import opened Models
  import opened Limiter
  import opened Decisions
  import L = Ledger
  import P = LedgerProofs

  /** The critical sections of the map lock, with the clock readings they use. */
  datatype Op =
    | Request(at: Time, id: IdHash, tag: Tag)
    | Complete(claim: Claim, how: L.Completion)
    | Sweep(now: Time)
    | Snapshot(at: Time)

  datatype Answer = Admission(outcome: Outcome) | Listing(entries: Windows)

  /** Requests and snapshots observe times in lock order; a sweep may use an
      older reading of the clock. */
  ghost predicate InOrder(ops: seq<Op>, t: Time) {
    ops == [] ||
    match ops[0]
    case Request(at, _, _) => t <= at && InOrder(ops[1..], at)
    case Snapshot(at) => t <= at && InOrder(ops[1..], at)
    case Sweep(now) => InOrder(ops[1..], if now > t then now else t)
    case Complete(_, _) => InOrder(ops[1..], t)
  }

  // ----- the map as it is: entries stay until something removes them

  ghost predicate Sized(c: Config, ws: Windows) {
    |ws| <= c.maxIdentifiers && CountsFit(ws)
  }

  function LazyStep(c: Config, ws: Windows, op: Op): (Windows, seq<Answer>)
    requires CountsFit(ws)
  {
    match op
    case Request(at, id, tag) =>
      var (ws', outcome) := Admit(c, ws, id, tag, at);
      (ws', [Admission(outcome)])
    case Complete(claim, how) => (L.CompletedWindows(ws, claim, how), [])
    case Sweep(now) => (Retain(c, ws, now), [])
    case Snapshot(at) => (Retain(c, ws, at), [Listing(Retain(c, ws, at))])
  }

  // ----- the map as it should be: only windows in force, no sweeps

  function EagerStep(c: Config, live: Windows, op: Op): (Windows, seq<Answer>)
    requires CountsFit(live)
  {
    match op
    case Request(at, id, tag) =>
      var inForce := Retain(c, live, at);
      if id !in inForce && |inForce| >= c.maxIdentifiers then (inForce, [Admission(Refused)])
      else
        assert CountsFit(inForce);
        var (live', outcome) := Visit(c, inForce, id, tag, at);
        (live', [Admission(outcome)])
    case Complete(claim, how) => (L.CompletedWindows(live, claim, how), [])
    case Sweep(_) => (live, [])
    case Snapshot(at) => (Retain(c, live, at), [Listing(Retain(c, live, at))])
  }

  // ----- sizes

  lemma VisitSized(c: Config, ws: Windows, id: IdHash, tag: Tag, now: Time)
    requires c.Valid() && Sized(c, ws) && (id in ws || |ws| < c.maxIdentifiers)
    ensures Sized(c, Visit(c, ws, id, tag, now).0)
  {
    var w := if id in ws then ws[id] else NewWindow(now);
    P.EnterCases(c, w, tag, now);
    var after := Visit(c, ws, id, tag, now).0;
    assert after.Keys == ws.Keys + {id};
  }

  lemma RetainSized(c: Config, ws: Windows, now: Time)
    requires Sized(c, ws)
    ensures Sized(c, Retain(c, ws, now))
  {
    RetainDropsOnlyExpired(c, ws, now);
  }

  lemma CompletedSized(c: Config, ws: Windows, claim: Claim, how: L.Completion)
    requires Sized(c, ws)
    ensures Sized(c, L.CompletedWindows(ws, claim, how))
  {
    var after := L.CompletedWindows(ws, claim, how);
    assert after.Keys <= ws.Keys;
    SubsetSize(after.Keys, ws.Keys);
    if claim.id in after {
      CompletedCount(ws, claim, how);
    }
  }

  lemma CompletedCount(ws: Windows, claim: Claim, how: L.Completion)
    requires CountsFit(ws) && claim.id in L.CompletedWindows(ws, claim, how)
    ensures L.CompletedWindows(ws, claim, how)[claim.id].CountFits()
  {
    var after := L.CompletedWindows(ws, claim, how)[claim.id];
    assert claim.id in ws && ws[claim.id].CountFits();
    SubsetSize(after.candidates.Keys, ws[claim.id].candidates.Keys);
    assert |after.candidates.Keys| == |after.candidates|;
    assert |ws[claim.id].candidates.Keys| == |ws[claim.id].candidates|;
  }

  lemma AdmitSized(c: Config, ws: Windows, id: IdHash, tag: Tag, now: Time)
    requires c.Valid() && Sized(c, ws)
    ensures Sized(c, Admit(c, ws, id, tag, now).0)
  {
    hide Visit;
    PurgeDropsOnlyExpired(c, ws, id, now);
    var room := Purge(c, ws, id, now);
    if id in room || |room| < c.maxIdentifiers {
      VisitSized(c, room, id, tag, now);
    }
  }

  lemma StepSized(c: Config, ws: Windows, op: Op)
    requires c.Valid() && Sized(c, ws)
    ensures Sized(c, LazyStep(c, ws, op).0)
  {
    hide Admit, L.CompletedWindows, Retain;
    match op
    case Request(at, id, tag) => AdmitSized(c, ws, id, tag, at);
    case Complete(claim, how) => CompletedSized(c, ws, claim, how);
    case Sweep(now) => RetainSized(c, ws, now);
    case Snapshot(at) => RetainSized(c, ws, at);
  }

  lemma EagerSized(c: Config, live: Windows, op: Op)
    requires c.Valid() && Sized(c, live)
    ensures Sized(c, EagerStep(c, live, op).0)
  {
    hide Visit, L.CompletedWindows, Retain;
    match op
    case Request(at, id, tag) =>
      RetainSized(c, live, at);
      if id in Retain(c, live, at) || |Retain(c, live, at)| < c.maxIdentifiers {
        VisitSized(c, Retain(c, live, at), id, tag, at);
      }
    case Complete(claim, how) => CompletedSized(c, live, claim, how);
    case Sweep(_) =>
    case Snapshot(at) => RetainSized(c, live, at);
  }

  // ----- lazy refines eager

  /** The two maps agree on the windows in force at `t`. */
  ghost predicate SameInForce(c: Config, ws: Windows, live: Windows, t: Time) {
    Retain(c, ws, t) == Retain(c, live, t)
  }

  lemma InForceLater(c: Config, ws: Windows, live: Windows, t: Time, later: Time)
    requires SameInForce(c, ws, live, t) && t <= later
    ensures SameInForce(c, ws, live, later)
  {
    assert Retain(c, ws, later) == Retain(c, Retain(c, ws, t), later);
    assert Retain(c, live, later) == Retain(c, Retain(c, live, t), later);
  }

  lemma CompleteInForce(c: Config, ws: Windows, live: Windows, t: Time, claim: Claim, how: L.Completion)
    requires SameInForce(c, ws, live, t)
    ensures SameInForce(c, L.CompletedWindows(ws, claim, how), L.CompletedWindows(live, claim, how), t)
  {
    CompleteCommutes(c, ws, t, claim, how);
    CompleteCommutes(c, live, t, claim, how);
  }

  lemma CompleteCommutes(c: Config, ws: Windows, t: Time, claim: Claim, how: L.Completion)
    ensures Retain(c, L.CompletedWindows(ws, claim, how), t)
         == L.CompletedWindows(Retain(c, ws, t), claim, how)
  {
  }

  /** A request that is refused leaves the windows in force as they are. */
  lemma RefusedMap(c: Config, ws: Windows, at: Time, id: IdHash, tag: Tag)
    requires CountsFit(ws) && Admit(c, ws, id, tag, at).1.Refused?
    ensures Retain(c, Admit(c, ws, id, tag, at).0, at) == Retain(c, ws, at)
  {
    hide Visit;
    P.PurgeFits(c, ws, id, at);
    P.VisitAnswers(c, Purge(c, ws, id, at), id, tag, at);
    PurgeDropsOnlyExpired(c, ws, id, at);
  }

  /** Any other request acts as if only the windows in force were there. */
  lemma VisitedMap(c: Config, ws: Windows, at: Time, id: IdHash, tag: Tag)
    requires CountsFit(ws) && CountsFit(Retain(c, ws, at)) && !Admit(c, ws, id, tag, at).1.Refused?
    ensures Admit(c, ws, id, tag, at).1 == Visit(c, Retain(c, ws, at), id, tag, at).1
    ensures Retain(c, Admit(c, ws, id, tag, at).0, at)
         == Retain(c, Visit(c, Retain(c, ws, at), id, tag, at).0, at)
  {
    hide Admit, EnterWindow;
    AdmitSees(c, ws, id, tag, at);
    forall x | x != id
      ensures x in Admit(c, ws, id, tag, at).0 ==> x in ws && Admit(c, ws, id, tag, at).0[x] == ws[x]
      ensures x in ws && !Expired(c, ws[x], at) ==> x in Admit(c, ws, id, tag, at).0 {
      AdmitElsewhere(c, ws, id, tag, at, x);
    }
  }

  lemma RefusedInForce(c: Config, ws: Windows, at: Time, id: IdHash, tag: Tag)
    requires c.Valid() && Sized(c, ws)
    ensures Admit(c, ws, id, tag, at).1.Refused? <==>
      id !in Retain(c, ws, at) && |Retain(c, ws, at)| >= c.maxIdentifiers
  {
    hide Admit;
    RefusedIff(c, ws, id, tag, at);
    if id !in Retain(c, ws, at) {
      assert OthersInForce(c, ws, id, at) == Retain(c, ws, at).Keys;
      assert |Retain(c, ws, at).Keys| == |Retain(c, ws, at)|;
    }
  }

  lemma RequestInForce(c: Config, ws: Windows, live: Windows, at: Time, id: IdHash, tag: Tag)
    requires c.Valid() && Sized(c, ws) && Sized(c, live) && SameInForce(c, ws, live, at)
    ensures var (ws', answers) := LazyStep(c, ws, Request(at, id, tag));
      var (live', answers') := EagerStep(c, live, Request(at, id, tag));
      answers == answers' && SameInForce(c, ws', live', at)
  {
    hide Admit, Visit;
    RetainSized(c, live, at);
    RefusedInForce(c, ws, at, id, tag);
    if Admit(c, ws, id, tag, at).1.Refused? {
      RefusedMap(c, ws, at, id, tag);
      assert Retain(c, Retain(c, live, at), at) == Retain(c, live, at);
    } else {
      VisitedMap(c, ws, at, id, tag);
    }
  }

  lemma StepRefines(c: Config, ws: Windows, live: Windows, t: Time, op: Op)
    requires c.Valid() && Sized(c, ws) && Sized(c, live) && SameInForce(c, ws, live, t)
    requires InOrder([op], t)
    ensures var (ws', answers) := LazyStep(c, ws, op);
      var (live', answers') := EagerStep(c, live, op);
      answers == answers' && SameInForce(c, ws', live', TimeAfter(op, t))
  {
    match op
    case Request(at, id, tag) =>
      hide Admit, Visit, Retain;
      InForceLater(c, ws, live, t, at);
      RequestInForce(c, ws, live, at, id, tag);
    case Complete(claim, how) =>
      hide L.CompletedWindows;
      CompleteInForce(c, ws, live, t, claim, how);
    case Sweep(now) => SweepInForce(c, ws, live, t, now);
    case Snapshot(at) =>
      InForceLater(c, ws, live, t, at);
  }

  lemma SweepInForce(c: Config, ws: Windows, live: Windows, t: Time, now: Time)
    requires SameInForce(c, ws, live, t)
    ensures SameInForce(c, Retain(c, ws, now), live, if now > t then now else t)
  {
    var later := if now > t then now else t;
    InForceLater(c, ws, live, t, later);
    assert Retain(c, Retain(c, ws, now), later) == Retain(c, ws, later);
  }

  function TimeAfter(op: Op, t: Time): Time {
    match op
    case Request(at, _, _) => at
    case Snapshot(at) => at
    case Sweep(now) => if now > t then now else t
    case Complete(_, _) => t
  }

  ghost function LazyRun(c: Config, ws: Windows, ops: seq<Op>): (Windows, seq<Answer>)
    requires c.Valid() && Sized(c, ws)
    decreases |ops|
  {
    if ops == [] then (ws, [])
    else
      StepSized(c, ws, ops[0]);
      var (ws', first) := LazyStep(c, ws, ops[0]);
      var (end, rest) := LazyRun(c, ws', ops[1..]);
      (end, first + rest)
  }

  ghost function EagerRun(c: Config, live: Windows, ops: seq<Op>): (Windows, seq<Answer>)
    requires c.Valid() && Sized(c, live)
    decreases |ops|
  {
    if ops == [] then (live, [])
    else
      EagerSized(c, live, ops[0]);
      var (live', first) := EagerStep(c, live, ops[0]);
      var (end, rest) := EagerRun(c, live', ops[1..]);
      (end, first + rest)
  }

  /** The latest time such a run has observed. */
  ghost function EndTime(ops: seq<Op>, t: Time): Time
    decreases |ops|
  {
    if ops == [] then t else EndTime(ops[1..], TimeAfter(ops[0], t))
  }

  /** Admissions, lockouts, refusals and listings are those of a map that only
      ever holds windows in force, and the windows in force stay the same. */
  lemma {:induction false} LazyRefinesEager(c: Config, ws: Windows, live: Windows, t: Time, ops: seq<Op>)
    requires c.Valid() && Sized(c, ws) && Sized(c, live) && SameInForce(c, ws, live, t)
    requires InOrder(ops, t)
    ensures LazyRun(c, ws, ops).1 == EagerRun(c, live, ops).1
    ensures SameInForce(c, LazyRun(c, ws, ops).0, EagerRun(c, live, ops).0, EndTime(ops, t))
    decreases |ops|
  {
    hide LazyStep, EagerStep, CountsFit, SameInForce;
    if ops != [] {
      StepSized(c, ws, ops[0]);
      EagerSized(c, live, ops[0]);
      assert InOrder([ops[0]], t) && InOrder(ops[1..], TimeAfter(ops[0], t)) by {
        OneInOrder(ops, t);
      }
      StepRefines(c, ws, live, t, ops[0]);
      LazyRefinesEager(c, LazyStep(c, ws, ops[0]).0, EagerStep(c, live, ops[0]).0,
                       TimeAfter(ops[0], t), ops[1..]);
    }
  }

  lemma OneInOrder(ops: seq<Op>, t: Time)
    requires ops != [] && InOrder(ops, t)
    ensures InOrder([ops[0]], t) && InOrder(ops[1..], TimeAfter(ops[0], t))
  {
    assert [ops[0]][1..] == [];
  }

  // ----- sweeps

  function Unswept(ops: seq<Op>): seq<Op> {
    if ops == [] then []
    else (if ops[0].Sweep? then [] else [ops[0]]) + Unswept(ops[1..])
  }

  lemma {:induction false} UnsweptInOrder(ops: seq<Op>, t: Time, earlier: Time)
    requires InOrder(ops, t) && earlier <= t
    ensures InOrder(Unswept(ops), earlier) && EndTime(Unswept(ops), earlier) <= EndTime(ops, t)
    decreases |ops|
  {
    if ops != [] {
      var rest := Unswept(ops[1..]);
      if ops[0].Sweep? {
        UnsweptInOrder(ops[1..], TimeAfter(ops[0], t), earlier);
        assert Unswept(ops) == rest;
      } else {
        UnsweptInOrder(ops[1..], TimeAfter(ops[0], t), TimeAfter(ops[0], earlier));
        assert Unswept(ops)[1..] == rest;
      }
    }
  }

  lemma {:induction false} EagerIgnoresSweeps(c: Config, live: Windows, ops: seq<Op>)
    requires c.Valid() && Sized(c, live)
    ensures EagerRun(c, live, Unswept(ops)) == EagerRun(c, live, ops)
    decreases |ops|
  {
    hide CountsFit, Visit, L.CompletedWindows;
    if ops != [] {
      EagerSized(c, live, ops[0]);
      EagerIgnoresSweeps(c, EagerStep(c, live, ops[0]).0, ops[1..]);
      if !ops[0].Sweep? {
        assert Unswept(ops)[1..] == Unswept(ops[1..]);
      } else {
        assert Unswept(ops) == Unswept(ops[1..]);
        assert [] + EagerRun(c, live, ops[1..]).1 == EagerRun(c, live, ops[1..]).1;
      }
    }
  }

  /** Two runs that differ only in their sweeps are answered alike. */
  lemma SweepsAreUnobservable(c: Config, ws: Windows, t: Time, ops: seq<Op>, ops': seq<Op>)
    requires c.Valid() && Sized(c, ws) && InOrder(ops, t) && InOrder(ops', t)
    requires Unswept(ops) == Unswept(ops')
    ensures LazyRun(c, ws, ops).1 == LazyRun(c, ws, ops').1
  {
    LazyRefinesEager(c, ws, ws, t, ops);
    LazyRefinesEager(c, ws, ws, t, ops');
    EagerIgnoresSweeps(c, ws, ops);
    EagerIgnoresSweeps(c, ws, ops');
  }

  /** The order of the readings is needed: a sweep one nanosecond after the end of
      a lockout, between a request's reading of the clock and its lock, turns its
      429 into an admission. */
  lemma LateReadingsSeeSweeps(c: Config, w: Window, id: IdHash, tag: Tag)
    requires c.Valid() && w.CountFits() && |w.candidates| == c.maxAttempts
    ensures var end := w.lastCandidateAt + c.Cooldown();
      var late := Request(end, id, tag);
      && Sized(c, map[id := w])
      && !InOrder([Sweep(end + 1), late], end) && InOrder([late], end)
      && LazyStep(c, map[id := w], late).1 == [Admission(Limited(c.maxAttempts, w.lastCandidateAt))]
      && var swept := LazyStep(c, map[id := w], Sweep(end + 1)).0;
      && Sized(c, swept)
      && |LazyStep(c, swept, late).1| == 1 && LazyStep(c, swept, late).1[0].Admission?
      && LazyStep(c, swept, late).1[0].outcome.New?
  {
    var end := w.lastCandidateAt + c.Cooldown();
    var ws := map[id := w];
    assert Purge(c, ws, id, end) == ws;
    assert Retain(c, ws, end + 1) == map[];
    assert Purge(c, map[], id, end) == map[];
  }
}
