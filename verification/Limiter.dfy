/** The critical sections of `src/handlers/fetch.rs` and `src/rate_limit.rs`:
    what each of them does to the identifier map while it holds the lock. */
module Limiter {
  import opened Wrappers
  import opened Models

  /** What a `PendingGuard` or a detached finalizer remembers. */
  datatype Claim = Claim(id: IdHash, tag: Tag, generation: Time)

  datatype Outcome =
    | Refused                                            // 503, map full
    | Limited(count: u8, lastCandidateAt: Time)          // 429
    | Duplicate                                          // 503, same candidate pending
    | Replayed(status: AttemptStatus, generation: Time)
    | New(status: AttemptStatus, generation: Time)

  predicate Expired(c: Config, w: Window, now: Time) {
    now - w.lastCandidateAt > c.Cooldown()
  }

  ghost predicate CountsFit(ws: Windows) {
    forall id | id in ws :: ws[id].CountFits()
  }

  function SaturatingInc(x: nat, max: nat): nat
    requires x <= max
  {
    if x < max then x + 1 else max
  }

  function Status(c: Config, w: Window, previous: Option<Time>): AttemptStatus
    requires w.CountFits()
  {
    AttemptStatus(
      w.Count(), w.failed,
      if c.maxAttempts >= w.Count() then c.maxAttempts - w.Count() else 0,
      w.totalRequests, w.startedAt, previous, w.lastCandidateAt + c.Cooldown())
  }

  /** The map-wide removal used by the sweeper, the snapshot and a full map. */
  function Retain(c: Config, ws: Windows, now: Time): Windows {
    map id | id in ws && !Expired(c, ws[id], now) :: ws[id]
  }

  /** The removals an admission makes before it looks at its own entry. */
  function Purge(c: Config, ws: Windows, id: IdHash, now: Time): Windows {
    var own := if id in ws && Expired(c, ws[id], now) then ws - {id} else ws;
    if id !in own && |own| >= c.maxIdentifiers then Retain(c, own, now) else own
  }

  /** The part of an admission that only concerns the identifier's own window. */
  function EnterWindow(c: Config, w: Window, tag: Tag, now: Time): (Window, Outcome)
    requires w.CountFits()
  {
    var seen := w.(totalRequests := SaturatingInc(w.totalRequests, U64_MAX), lastRequestAt := now);
    if seen.Count() >= c.maxAttempts then
      (seen, Limited(seen.Count(), seen.lastCandidateAt))
    else if tag in seen.candidates then
      (seen, if seen.candidates[tag] == Pending then Duplicate
             else Replayed(Status(c, seen, None), seen.startedAt))
    else
      var previous := if seen.Count() > 0 then Some(seen.lastCandidateAt) else None;
      var reserved := seen.(candidates := seen.candidates[tag := Pending], lastCandidateAt := now);
      (reserved, New(Status(c, reserved, previous), reserved.startedAt))
  }

  /** The same on the map: the entry is created when there is none. */
  function Visit(c: Config, ws: Windows, id: IdHash, tag: Tag, now: Time): (Windows, Outcome)
    requires CountsFit(ws)
  {
    var (w, outcome) := EnterWindow(c, if id in ws then ws[id] else NewWindow(now), tag, now);
    (ws[id := w], outcome)
  }

  function Admit(c: Config, ws: Windows, id: IdHash, tag: Tag, now: Time): (Windows, Outcome)
    requires CountsFit(ws)
  {
    var room := Purge(c, ws, id, now);
    if id !in room && |room| >= c.maxIdentifiers then
      (room, Refused)
    else
      Visit(c, room, id, tag, now)
  }

  /** The test both completions make before they touch anything. */
  predicate Acts(ws: Windows, claim: Claim) {
    && claim.id in ws
    && ws[claim.id].startedAt == claim.generation
    && claim.tag in ws[claim.id].candidates
    && ws[claim.id].candidates[claim.tag] == Pending
  }

  function RemovePending(ws: Windows, claim: Claim): Windows {
    if claim.id !in ws then ws
    else
      var w := ws[claim.id];
      var left := if Acts(ws, claim) then w.candidates - {claim.tag} else w.candidates;
      if w.startedAt == claim.generation && left == map[] then ws - {claim.id}
      else ws[claim.id := w.(candidates := left)]
  }

  function Finalize(ws: Windows, claim: Claim, result: LookupResult): Windows {
    if !Acts(ws, claim) then ws
    else
      var w := ws[claim.id];
      match result
      case Found(_) =>
        ws[claim.id := w.(candidates := w.candidates[claim.tag := Committed])]
      case Absent =>
        ws[claim.id := w.(candidates := w.candidates[claim.tag := Committed],
                          failed := SaturatingInc(w.failed, U8_MAX))]
      case Failed =>
        var left := w.candidates - {claim.tag};
        if left == map[] then ws - {claim.id} else ws[claim.id := w.(candidates := left)]
  }

  /** A removal only ever drops expired entries and changes none. */
  ghost predicate DropsOnlyExpired(c: Config, before: Windows, after: Windows, now: Time) {
    && (forall id | id in after :: id in before && after[id] == before[id])
    && (forall id | id in before && id !in after :: Expired(c, before[id], now))
  }

  lemma PurgeDropsOnlyExpired(c: Config, ws: Windows, id: IdHash, now: Time)
    ensures DropsOnlyExpired(c, ws, Purge(c, ws, id, now), now)
    ensures id in Purge(c, ws, id, now) ==> !Expired(c, ws[id], now)
    ensures |Purge(c, ws, id, now)| <= |ws|
  {
    var room := Purge(c, ws, id, now);
    assert room.Keys <= ws.Keys;
    SubsetSize(room.Keys, ws.Keys);
  }

  lemma RetainDropsOnlyExpired(c: Config, ws: Windows, now: Time)
    ensures DropsOnlyExpired(c, ws, Retain(c, ws, now), now)
    ensures |Retain(c, ws, now)| <= |ws|
  {
    assert Retain(c, ws, now).Keys <= ws.Keys;
    SubsetSize(Retain(c, ws, now).Keys, ws.Keys);
  }

  lemma SubsetSize<T>(a: set<T>, b: set<T>)
    requires a <= b
    ensures |a| <= |b|
    ensures |a| == |b| ==> a == b
  {
    assert b == a + (b - a);
  }
}
