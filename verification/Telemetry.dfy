/** What the published times say about each other. */
module Telemetry {
  import opened Wrappers
  import opened Models
  import opened Limiter
  import opened Protocol
  import opened ProtocolProofs
  import opened Theorems
  import opened Snapshot
  import L = Ledger
  import P = LedgerProofs
  import T = Tightness

  /** A listing sorted from the entries in force at `now`, in any iteration order. */
  ghost predicate Published(
    c: Config, s: State, now: Time, order: seq<IdHash>, sorted: seq<AttemptEntry>)
  {
    && CountsFit(Retain(c, s.ledger.windows, now))
    && Enumerates(order, Retain(c, s.ledger.windows, now))
    && SortOf(sorted, Collect(Retain(c, s.ledger.windows, now), order))
  }

  /** In every reachable state a published last attempt is at most an hour before
      the published start of its window, and when requests take the lock in the
      order of their timestamps it is never before it. */
  lemma PublishedTimesAreOrdered(
    c: Config, start: Time, steps: seq<Step>, s: State,
    now: Time, order: seq<IdHash>, sorted: seq<AttemptEntry>)
    requires Reaches(c, start, steps, s) && Published(c, s, now, order, sorted)
    ensures forall e | e in sorted :: e.windowStartedAt - HOUR <= e.lastAttemptAt
    ensures c.skew == 0 ==> forall e | e in sorted :: e.windowStartedAt <= e.lastAttemptAt
  {
    hide Increasing, SortOf, Enumerates, Collect, CountsFit, TruncateToHour, Inv;
    ReachableHolds(c, start, steps, s);
    SortedCollection(Retain(c, s.ledger.windows, now), order, sorted);
    forall e | e in sorted
      ensures e.windowStartedAt - HOUR <= e.lastAttemptAt
      ensures c.skew == 0 ==> e.windowStartedAt <= e.lastAttemptAt
    {
      WindowTimesAreOrdered(c, s, e.idHash);
    }
  }

  /** The stamp is the hour that `t` lies in. */
  ghost predicate HourOf(stamp: Time, t: Time) {
    stamp % (3600 * 1_000_000_000) == 0 && stamp <= t < stamp + 3600 * 1_000_000_000
  }

  /** A published entry, read off the history: the attempts are the unrefunded
      reservations of the identifier's window, the failures its misses, the
      requests those that reached it, and the times the hours of its opener and of
      its last request. */
  ghost predicate EntryIsTrue(s: State, e: AttemptEntry) {
    && e.idHash in s.ledger.books
    && var b := s.ledger.books[e.idHash];
    && b.opener in s.ledger.reservations && s.ledger.reservations[b.opener].claim.id == e.idHash
    && e.totalAttempts == |L.Kept(s.ledger.reservations, b.opener)|
    && e.failedAttempts == |L.Misses(s.ledger.reservations, b.opener)|
    && e.totalRequests == L.AtMost(|L.Attached(s.ledger.attached, b.opener)|, 0xFFFF_FFFF_FFFF_FFFF)
    && HourOf(e.windowStartedAt, s.ledger.reservations[b.opener].requestedAt)
    && b.latest in s.ledger.attached && s.ledger.attached[b.latest].window == b.opener
    && HourOf(e.lastAttemptAt, s.ledger.attached[b.latest].requestedAt)
  }

  lemma PublishedEntriesAreTrue(
    c: Config, start: Time, steps: seq<Step>, s: State,
    now: Time, order: seq<IdHash>, sorted: seq<AttemptEntry>)
    requires Reaches(c, start, steps, s) && Published(c, s, now, order, sorted)
    ensures forall e | e in sorted :: EntryIsTrue(s, e)
  {
    hide Increasing, SortOf, Enumerates, Collect, CountsFit, Inv, EntryIsTrue;
    ReachableHolds(c, start, steps, s);
    SortedCollection(Retain(c, s.ledger.windows, now), order, sorted);
    forall e | e in sorted ensures EntryIsTrue(s, e) {
      EntryOfWindow(c, s, e.idHash);
    }
  }

  lemma EntryOfWindow(c: Config, s: State, id: IdHash)
    requires Inv(c, s) && id in s.ledger.windows && s.ledger.windows[id].CountFits()
    ensures EntryIsTrue(s, EntryOf(id, s.ledger.windows[id]))
  {
    hide TruncateToHour;
    var w := s.ledger.windows[id];
    assert L.EntryOk(c, s.ledger, id);
    P.KeptAreHolders(c, s.ledger, id);
    TruncationIsMonotone(w.startedAt, w.startedAt);
    TruncationIsMonotone(w.lastRequestAt, w.lastRequestAt);
  }

  lemma WindowTimesAreOrdered(c: Config, s: State, id: IdHash)
    requires Inv(c, s) && id in s.ledger.windows
    ensures var w := s.ledger.windows[id];
      && TruncateToHour(w.startedAt) - HOUR <= TruncateToHour(w.lastRequestAt)
      && (c.skew == 0 ==> TruncateToHour(w.startedAt) <= TruncateToHour(w.lastRequestAt))
  {
    hide TruncateToHour;
    var w := s.ledger.windows[id];
    assert L.EntryOk(c, s.ledger, id);
    TruncationOfEarlier(w.startedAt, w.lastRequestAt);
    if c.skew == 0 {
      TruncationIsMonotone(w.startedAt, w.lastRequestAt);
    }
  }

  lemma TruncationOfEarlier(s: Time, t: Time)
    requires s - HOUR <= t
    ensures TruncateToHour(s) - HOUR <= TruncateToHour(t)
  {
    TruncationIsMonotone(s - HOUR, t);
  }

  /** A window opened on the hour, and entered late by a request that read the
      clock just before it. */
  ghost predicate EnteredLate(ws: Windows, id: IdHash) {
    && ws.Keys == {id} && CountsFit(ws)
    && ws[id].startedAt == HOUR && ws[id].lastRequestAt == HOUR - 1
    && HOUR - 1 <= ws[id].lastCandidateAt
  }

  lemma LateEntry(c: Config, id: IdHash, early: Tag, late: Tag)
    requires c.Valid()
    ensures CountsFit(map[]) && CountsFit(Admit(c, map[], id, late, HOUR).0)
    ensures EnteredLate(Admit(c, Admit(c, map[], id, late, HOUR).0, id, early, HOUR - 1).0, id)
  {
    var ws := Admit(c, map[], id, late, HOUR).0;
    assert ws == map[id := Window(HOUR, HOUR, HOUR, map[late := Pending], 0, 1)];
    assert Purge(c, ws, id, HOUR - 1) == ws;
  }

  lemma LatePublication(c: Config, s: State, id: IdHash) returns (order: seq<IdHash>, sorted: seq<AttemptEntry>)
    requires c.Valid() && EnteredLate(s.ledger.windows, id)
    ensures Published(c, s, HOUR, order, sorted)
    ensures |sorted| == 1 && sorted[0].lastAttemptAt == sorted[0].windowStartedAt - HOUR
  {
    var ws := s.ledger.windows;
    assert Retain(c, ws, HOUR) == ws;
    order, sorted := [id], [EntryOf(id, ws[id])];
    assert Collect(ws, [id]) == sorted;
  }

  /** Two requests have read the clock, one on each side of the hour. */
  lemma BothAsked(c: Config, id: IdHash, early: Tag, late: Tag) returns (steps: seq<Step>, s: State)
    requires c.Valid()
    ensures |steps| == 3 && Run(c, Init(c, HOUR - 1), steps) == Some(s) && Inv(c, s)
    ensures s.ledger.windows == map[] && s.ledger.clock == HOUR
    ensures s.tasks == map[0 := Queued(Fetch, id, early, HOUR - 1), 1 := Queued(Fetch, id, late, HOUR)]
  {
    hide Inv, L.Inv;
    InitHolds(c, HOUR - 1);
    steps := [Arrive(Fetch, id, early), Tick(HOUR), Arrive(Fetch, id, late)];
    assert steps[1..] == [Tick(HOUR), Arrive(Fetch, id, late)] && steps[1..][1..] == [Arrive(Fetch, id, late)];
    var s0 := Init(c, HOUR - 1);
    StepKeeps(c, s0, steps[0]);
    var s1 := Next(c, s0, steps[0]);
    StepKeeps(c, s1, steps[1]);
    var s2 := Next(c, s1, steps[1]);
    StepKeeps(c, s2, steps[2]);
    s := Next(c, s2, steps[2]);
    assert Run(c, s2, [steps[2]]) == Some(s);
    assert Run(c, s1, steps[1..]) == Some(s);
  }

  /** A request entering changes the map as an admission does, and no other request. */
  lemma EnterAdmits(c: Config, s: State, n: nat) returns (s': State)
    requires Inv(c, s) && Enabled(c, s, Enter(n))
    ensures Run(c, s, [Enter(n)]) == Some(s') && Inv(c, s') && CountsFit(s.ledger.windows)
    ensures s'.ledger.windows ==
      Admit(c, s.ledger.windows, s.tasks[n].id, s.tasks[n].tag, s.tasks[n].requestedAt).0
    ensures s'.ledger.clock == s.ledger.clock
    ensures forall m | m in s.tasks && m != n :: m in s'.tasks && s'.tasks[m] == s.tasks[m]
  {
    hide L.Inv, Admit, L.Admitted;
    StepKeeps(c, s, Enter(n));
    assert TaskOk(s, n);
    var t := s.tasks[n];
    AdmittedRecord(c, s.ledger, n, t.id, t.tag, t.requestedAt);
    P.AdmittedWindows(c, s.ledger, n, t.id, t.tag, t.requestedAt);
    s' := Next(c, s, Enter(n));
    assert [Enter(n)][1..] == [];
  }

  /** With any skew at all the order can be lost: a request reads the clock just
      before the hour and takes the lock after one that read it on the hour. */
  lemma OutOfOrderReadings(c: Config, id: IdHash, early: Tag, late: Tag)
    returns (steps: seq<Step>, s: State, order: seq<IdHash>, sorted: seq<AttemptEntry>)
    requires c.Valid() && c.skew > 0
    ensures Reaches(c, HOUR - 1, steps, s) && Published(c, s, HOUR, order, sorted)
    ensures |sorted| == 1 && sorted[0].lastAttemptAt == sorted[0].windowStartedAt - HOUR
  {
    hide Inv, Run, Next, Admit, Published, EnteredLate;
    var asked, s3 := BothAsked(c, id, early, late);
    var s4 := EnterAdmits(c, s3, 1);
    s := EnterAdmits(c, s4, 0);
    steps := asked + ([Enter(1)] + [Enter(0)]);
    T.RunConcat(c, s3, [Enter(1)], [Enter(0)]);
    T.RunConcat(c, Init(c, HOUR - 1), asked, [Enter(1)] + [Enter(0)]);
    LateEntry(c, id, early, late);
    order, sorted := LatePublication(c, s, id);
  }
}
