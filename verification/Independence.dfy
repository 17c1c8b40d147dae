/** Identifiers do not influence each other, apart from refusals by a full map.
    Requests may take the lock in any order of their timestamps. */
module Independence {
  import opened Models
  import opened Limiter
  import opened Decisions
  import opened Expiry
  import L = Ledger
  import P = LedgerProofs

  /** The map without the other identifiers. */
  function Only(ws: Windows, id: IdHash): Windows {
    if id in ws then map[id := ws[id]] else map[]
  }

  predicate Concerns(op: Op, id: IdHash) {
    (op.Request? && op.id == id) || (op.Complete? && op.claim.id == id)
  }

  /** A request that the map has no room for. */
  predicate TurnedAway(c: Config, ws: Windows, op: Op)
    requires CountsFit(ws)
  {
    op.Request? && Admit(c, ws, op.id, op.tag, op.at).1.Refused?
  }

  /** A request that finds the map full and removes every expired entry. */
  predicate ClearsMap(c: Config, ws: Windows, id: IdHash, at: Time) {
    var own := if id in ws && Expired(c, ws[id], at) then ws - {id} else ws;
    id !in own && |own| >= c.maxIdentifiers
  }

  /** What of an operation matters to `id`: its own completions and admissions,
      and the times at which the whole map is rid of expired entries. */
  function Share(c: Config, ws: Windows, op: Op, id: IdHash): seq<Op>
    requires CountsFit(ws)
  {
    match op
    case Request(at, x, _) =>
      if x == id then (if TurnedAway(c, ws, op) then [] else [op])
      else if ClearsMap(c, ws, x, at) then [Sweep(at)] else []
    case Complete(claim, _) => if claim.id == id then [op] else []
    case Sweep(_) => [op]
    case Snapshot(at) => [Sweep(at)]
  }

  function OwnAnswer(c: Config, ws: Windows, op: Op, id: IdHash): seq<Answer>
    requires CountsFit(ws)
  {
    if Concerns(op, id) && !TurnedAway(c, ws, op) then LazyStep(c, ws, op).1 else []
  }

  /** The run that is left when the other identifiers are deleted. */
  ghost function Alone(c: Config, ws: Windows, ops: seq<Op>, id: IdHash): seq<Op>
    requires c.Valid() && Sized(c, ws)
    decreases |ops|
  {
    if ops == [] then []
    else
      StepSized(c, ws, ops[0]);
      Share(c, ws, ops[0], id) + Alone(c, LazyStep(c, ws, ops[0]).0, ops[1..], id)
  }

  /** What the identifier was answered in the full run. */
  ghost function OwnAnswers(c: Config, ws: Windows, ops: seq<Op>, id: IdHash): seq<Answer>
    requires c.Valid() && Sized(c, ws)
    decreases |ops|
  {
    if ops == [] then []
    else
      StepSized(c, ws, ops[0]);
      OwnAnswer(c, ws, ops[0], id) + OwnAnswers(c, LazyStep(c, ws, ops[0]).0, ops[1..], id)
  }

  // ----- one operation

  lemma OnlySized(c: Config, ws: Windows, id: IdHash)
    requires c.Valid() && Sized(c, ws)
    ensures Sized(c, Only(ws, id))
  {
  }

  /** Another identifier's request takes the entry away if it clears the map and
      the entry is expired by its reading of the clock, and else leaves it alone. */
  lemma OthersRequest(c: Config, ws: Windows, x: IdHash, tag: Tag, at: Time, id: IdHash)
    requires c.Valid() && Sized(c, ws) && x != id
    ensures Only(Admit(c, ws, x, tag, at).0, id) ==
      if ClearsMap(c, ws, x, at) then Retain(c, Only(ws, id), at) else Only(ws, id)
  {
    hide EnterWindow;
    P.PurgeFits(c, ws, x, at);
    var room := Purge(c, ws, x, at);
    assert Only(Admit(c, ws, x, tag, at).0, id) == Only(room, id);
  }

  /** A request turned away has no entry, before or after. */
  lemma TurnedAwayHasNone(c: Config, ws: Windows, id: IdHash, tag: Tag, at: Time)
    requires c.Valid() && Sized(c, ws) && Admit(c, ws, id, tag, at).1.Refused?
    ensures Only(ws, id) == map[] && Only(Admit(c, ws, id, tag, at).0, id) == map[]
  {
    hide Admit;
    RefusedIff(c, ws, id, tag, at);
    RefusedHasNone(c, ws, id, tag, at);
  }

  /** Any other request of the identifier sees, answers and leaves the same in a
      map that holds nothing else. */
  lemma OwnRequest(c: Config, ws: Windows, id: IdHash, tag: Tag, at: Time)
    requires c.Valid() && Sized(c, ws) && CountsFit(Only(ws, id))
    requires !Admit(c, ws, id, tag, at).1.Refused?
    ensures Admit(c, Only(ws, id), id, tag, at).1 == Admit(c, ws, id, tag, at).1
    ensures Admit(c, Only(ws, id), id, tag, at).0 == Only(Admit(c, ws, id, tag, at).0, id)
  {
    hide Admit, EnterWindow;
    var alone := Only(ws, id);
    RefusedIff(c, alone, id, tag, at);
    assert OthersInForce(c, alone, id, at) == {};
    AdmitSees(c, ws, id, tag, at);
    AdmitSees(c, alone, id, tag, at);
    forall x | x in Admit(c, alone, id, tag, at).0 ensures x == id {
      if x != id {
        AdmitElsewhere(c, alone, id, tag, at, x);
      }
    }
  }

  lemma Completions(ws: Windows, claim: Claim, how: L.Completion, id: IdHash)
    ensures Only(L.CompletedWindows(ws, claim, how), id) ==
      if claim.id == id then L.CompletedWindows(Only(ws, id), claim, how) else Only(ws, id)
  {
  }

  lemma RemovalsCommute(c: Config, ws: Windows, at: Time, id: IdHash)
    ensures Only(Retain(c, ws, at), id) == Retain(c, Only(ws, id), at)
  {
  }

  /** The share of an operation does to the entry alone what the operation does
      to it among the others, and is answered the same. */
  lemma OneOperation(c: Config, ws: Windows, op: Op, id: IdHash)
    requires c.Valid() && Sized(c, ws)
    ensures Sized(c, Only(ws, id))
    ensures var share := Share(c, ws, op, id);
      var after := Only(LazyStep(c, ws, op).0, id);
      && |share| <= 1
      && (share == [] ==> after == Only(ws, id) && OwnAnswer(c, ws, op, id) == [])
      && (share != [] ==> LazyStep(c, Only(ws, id), share[0]) == (after, OwnAnswer(c, ws, op, id)))
  {
    hide Admit, Retain, L.CompletedWindows, ClearsMap, Only, Sized;
    OnlySized(c, ws, id);
    assert CountsFit(ws) && CountsFit(Only(ws, id)) by { SizedFits(c, ws); SizedFits(c, Only(ws, id)); }
    match op
    case Request(at, x, tag) =>
      if x != id {
        OthersRequest(c, ws, x, tag, at, id);
      } else if Admit(c, ws, id, tag, at).1.Refused? {
        TurnedAwayHasNone(c, ws, id, tag, at);
      } else {
        OwnRequest(c, ws, id, tag, at);
      }
    case Complete(claim, how) => Completions(ws, claim, how, id);
    case Sweep(now) => RemovalsCommute(c, ws, now, id);
    case Snapshot(at) => RemovalsCommute(c, ws, at, id);
  }

  lemma SizedFits(c: Config, ws: Windows)
    requires Sized(c, ws)
    ensures CountsFit(ws)
  {
  }

  /** The clock reading of an operation that has one. */
  function Reading(op: Op): Time
    requires !op.Complete?
  {
    if op.Sweep? then op.now else op.at
  }

  /** An operation of somebody else, a sweep, a snapshot or a request turned away
      changes nothing about the identifier's entry, unless it removes it; and then
      the entry is expired by the reading of that operation. */
  lemma Elsewhere(c: Config, ws: Windows, op: Op, id: IdHash)
    requires c.Valid() && Sized(c, ws)
    requires !Concerns(op, id) || TurnedAway(c, ws, op)
    ensures var after := LazyStep(c, ws, op).0;
      || Only(after, id) == Only(ws, id)
      || (!op.Complete? && id in ws && Expired(c, ws[id], Reading(op)) && id !in after)
  {
    hide LazyStep, Admit, ClearsMap, Expired;
    OneOperation(c, ws, op, id);
    var share := Share(c, ws, op, id);
    var after := LazyStep(c, ws, op).0;
    if share != [] {
      assert share == [Sweep(Reading(op))];
      SweepStep(c, Only(ws, id), Reading(op));
      assert id in Only(after, id) <==> id in after;
    }
  }

  lemma SweepStep(c: Config, ws: Windows, now: Time)
    requires CountsFit(ws)
    ensures LazyStep(c, ws, Sweep(now)).0 == Retain(c, ws, now)
  {
  }

  // ----- whole runs

  /** Deleting the other identifiers, and with them everything but the moments at
      which they had the map cleared, leaves an identifier's answers and its entry
      exactly as they were, whatever the order of the readings. */
  lemma {:induction false} IdentifiersAreIndependent(c: Config, ws: Windows, ops: seq<Op>, id: IdHash)
    requires c.Valid() && Sized(c, ws)
    ensures Sized(c, Only(ws, id))
    ensures LazyRun(c, Only(ws, id), Alone(c, ws, ops, id))
         == (Only(LazyRun(c, ws, ops).0, id), OwnAnswers(c, ws, ops, id))
    decreases |ops|
  {
    hide LazyStep, Only, Sized, Share, OwnAnswer;
    OnlySized(c, ws, id);
    if ops != [] {
      var op := ops[0];
      StepSized(c, ws, op);
      SizedFits(c, ws);
      OneOperation(c, ws, op, id);
      var ws' := LazyStep(c, ws, op).0;
      var share := Share(c, ws, op, id);
      var rest := Alone(c, ws', ops[1..], id);
      IdentifiersAreIndependent(c, ws', ops[1..], id);
      if share == [] {
        assert share + rest == rest;
        assert [] + OwnAnswers(c, ws', ops[1..], id) == OwnAnswers(c, ws', ops[1..], id);
      } else {
        assert (share + rest)[1..] == rest;
        StepSized(c, Only(ws, id), share[0]);
      }
    }
  }

  /** Nothing of the others is left but the moments at which the map is cleared. */
  lemma {:induction false} AloneConcerns(c: Config, ws: Windows, ops: seq<Op>, id: IdHash)
    requires c.Valid() && Sized(c, ws)
    ensures forall op | op in Alone(c, ws, ops, id) :: op.Sweep? || Concerns(op, id)
    decreases |ops|
  {
    hide LazyStep, Sized, Admit, ClearsMap;
    if ops != [] {
      StepSized(c, ws, ops[0]);
      SizedFits(c, ws);
      AloneConcerns(c, LazyStep(c, ws, ops[0]).0, ops[1..], id);
    }
  }

  // ----- runs in timestamp order

  /** The identifier's own operations, without its requests that were turned away. */
  ghost function Own(c: Config, ws: Windows, ops: seq<Op>, id: IdHash): seq<Op>
    requires c.Valid() && Sized(c, ws)
  {
    Unswept(Alone(c, ws, ops, id))
  }

  lemma {:induction false} AloneInOrder(
    c: Config, ws: Windows, ops: seq<Op>, id: IdHash, t: Time, earlier: Time)
    requires c.Valid() && Sized(c, ws) && InOrder(ops, t) && earlier <= t
    ensures InOrder(Alone(c, ws, ops, id), earlier)
    ensures EndTime(Alone(c, ws, ops, id), earlier) <= EndTime(ops, t)
    decreases |ops|
  {
    hide LazyStep, Sized, Admit, ClearsMap, Expired;
    if ops != [] {
      var op := ops[0];
      StepSized(c, ws, op);
      SizedFits(c, ws);
      OneInOrder(ops, t);
      var share := Share(c, ws, op, id);
      var ws' := LazyStep(c, ws, op).0;
      var rest := Alone(c, ws', ops[1..], id);
      if share == [] {
        AloneInOrder(c, ws', ops[1..], id, TimeAfter(op, t), earlier);
        assert share + rest == rest;
      } else {
        AloneInOrder(c, ws', ops[1..], id, TimeAfter(op, t), TimeAfter(share[0], earlier));
        assert (share + rest)[0] == share[0] && (share + rest)[1..] == rest;
      }
    }
  }

  /** When requests do take the lock in the order of their timestamps, those
      moments can go too: from any map `alone` that agrees on the identifier's
      window in force, its own operations get the same answers, and lead to the
      same window in force. */
  lemma OwnOperationsSuffice(
    c: Config, ws: Windows, alone: Windows, t: Time, ops: seq<Op>, id: IdHash)
    requires c.Valid() && Sized(c, ws) && Sized(c, alone)
    requires InOrder(ops, t) && SameInForce(c, Only(ws, id), alone, t)
    ensures LazyRun(c, alone, Own(c, ws, ops, id)).1 == OwnAnswers(c, ws, ops, id)
    ensures SameInForce(c, Only(LazyRun(c, ws, ops).0, id),
      LazyRun(c, alone, Own(c, ws, ops, id)).0, EndTime(ops, t))
  {
    hide SameInForce, Sized, Only, InOrder;
    var shares, own := Alone(c, ws, ops, id), Own(c, ws, ops, id);
    IdentifiersAreIndependent(c, ws, ops, id);
    AloneInOrder(c, ws, ops, id, t, t);
    UnsweptInOrder(shares, t, t);
    LazyRefinesEager(c, Only(ws, id), alone, t, shares);
    EagerIgnoresSweeps(c, alone, shares);
    assert SameInForce(c, alone, alone, t) by { SameAsItself(c, alone, t); }
    LazyRefinesEager(c, alone, alone, t, own);
    var eager := EagerRun(c, alone, own).0;
    InForceLater(c, LazyRun(c, Only(ws, id), shares).0, eager, EndTime(shares, t), EndTime(ops, t));
    InForceLater(c, LazyRun(c, alone, own).0, eager, EndTime(own, t), EndTime(ops, t));
    SameThrough(c, Only(LazyRun(c, ws, ops).0, id), eager, LazyRun(c, alone, own).0, EndTime(ops, t));
  }

  lemma SameAsItself(c: Config, ws: Windows, t: Time)
    ensures SameInForce(c, ws, ws, t)
  {
  }

  lemma SameThrough(c: Config, a: Windows, b: Windows, d: Windows, t: Time)
    requires SameInForce(c, a, b, t) && SameInForce(c, d, b, t)
    ensures SameInForce(c, a, d, t)
  {
  }

  /** Out of that order they cannot: in a full map, another identifier's request
      that reads the clock one nanosecond after the end of a lockout takes the
      entry away, and a request of the locked identifier that read the clock
      before, and takes the lock after, is not told of the lockout. */
  lemma FullMapShowsToLateReadings(
    c: Config, ws: Windows, id: IdHash, tag: Tag, other: IdHash, otherTag: Tag) returns (after: Windows)
    requires c.Valid() && Sized(c, ws) && |ws| == c.maxIdentifiers
    requires id in ws && |ws[id].candidates| == c.maxAttempts && other !in ws
    ensures after == Admit(c, ws, other, otherTag, ws[id].lastCandidateAt + c.Cooldown() + 1).0
    ensures Admit(c, ws, id, tag, ws[id].lastCandidateAt + c.Cooldown()).1
         == Limited(c.maxAttempts, ws[id].lastCandidateAt)
    ensures Sized(c, after)
    ensures var outcome := Admit(c, after, id, tag, ws[id].lastCandidateAt + c.Cooldown()).1;
      && (outcome.New? || outcome.Refused?)
      && (outcome.Refused? ==> |Retain(c, ws, ws[id].lastCandidateAt + c.Cooldown() + 1)| + 1 >= c.maxIdentifiers)
  {
    hide Admit, Expired, Retain, CountsFit;
    var end := ws[id].lastCandidateAt + c.Cooldown();
    StillLocked(c, ws, id, tag);
    AdmitSized(c, ws, other, otherTag, end + 1);
    after := Admit(c, ws, other, otherTag, end + 1).0;
    SizedFits(c, after);
    ExpiredAfter(c, ws, id, other, otherTag);
    AbsentIsAdmitted(c, after, id, tag, end);
    ClearedRoom(c, ws, other, otherTag, end + 1);
  }

  lemma StillLocked(c: Config, ws: Windows, id: IdHash, tag: Tag)
    requires c.Valid() && Sized(c, ws) && id in ws && |ws[id].candidates| == c.maxAttempts
    ensures Admit(c, ws, id, tag, ws[id].lastCandidateAt + c.Cooldown()).1
         == Limited(c.maxAttempts, ws[id].lastCandidateAt)
  {
    hide Admit, EnterWindow;
    var end := ws[id].lastCandidateAt + c.Cooldown();
    RefusedIff(c, ws, id, tag, end);
    AdmitSees(c, ws, id, tag, end);
    FullWindowLimits(c, ws[id], tag, end);
  }

  lemma ExpiredAfter(c: Config, ws: Windows, id: IdHash, other: IdHash, tag: Tag)
    requires c.Valid() && Sized(c, ws) && |ws| == c.maxIdentifiers && id in ws && other !in ws
    ensures id !in Admit(c, ws, other, tag, ws[id].lastCandidateAt + c.Cooldown() + 1).0
  {
    hide Admit;
    var at := ws[id].lastCandidateAt + c.Cooldown() + 1;
    OthersRequest(c, ws, other, tag, at, id);
    assert id !in Only(Admit(c, ws, other, tag, at).0, id);
  }

  lemma AbsentIsAdmitted(c: Config, ws: Windows, id: IdHash, tag: Tag, at: Time)
    requires c.Valid() && Sized(c, ws) && id !in ws
    ensures Admit(c, ws, id, tag, at).1.New? || Admit(c, ws, id, tag, at).1.Refused?
    ensures Admit(c, ws, id, tag, at).1.Refused? ==> |ws| >= c.maxIdentifiers
  {
    hide Admit, EnterWindow;
    FreshWindowAdmits(c, tag, at);
    RefusedIff(c, ws, id, tag, at);
    if Admit(c, ws, id, tag, at).1.Refused? {
      SubsetSize(OthersInForce(c, ws, id, at), ws.Keys);
      assert |ws.Keys| == |ws|;
    } else {
      AdmitSees(c, ws, id, tag, at);
    }
  }

  lemma FullWindowLimits(c: Config, w: Window, tag: Tag, now: Time)
    requires w.CountFits() && |w.candidates| == c.maxAttempts
    ensures EnterWindow(c, w, tag, now).1 == Limited(c.maxAttempts, w.lastCandidateAt)
  {
  }

  lemma FreshWindowAdmits(c: Config, tag: Tag, now: Time)
    requires c.Valid()
    ensures EnterWindow(c, NewWindow(now), tag, now).1.New?
  {
  }

  /** What a request that clears the map leaves is what is unexpired, and itself. */
  lemma ClearedRoom(c: Config, ws: Windows, other: IdHash, tag: Tag, at: Time)
    requires CountsFit(ws) && |ws| >= c.maxIdentifiers && other !in ws
    ensures |Admit(c, ws, other, tag, at).0| <= |Retain(c, ws, at)| + 1
  {
    hide EnterWindow;
    P.PurgeFits(c, ws, other, at);
    var kept, after := Retain(c, ws, at), Admit(c, ws, other, tag, at).0;
    assert after.Keys <= kept.Keys + {other};
    SubsetSize(after.Keys, kept.Keys + {other});
    assert |kept.Keys| == |kept| && |after.Keys| == |after|;
  }
}
