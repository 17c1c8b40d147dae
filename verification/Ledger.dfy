/** The identifier map together with the history that explains it: which
    request opened each window, which request holds each candidate, and how
    every reservation ended. The map itself only ever changes through the
    critical sections of `Limiter`; the history is what the theorems talk about. */
module Ledger {
  import opened Models
  import opened Limiter

  /** How a reservation ended, as decided by what its completion did to the map. */
  datatype Fate = Open | Hit | Miss | Refunded | Dropped

  /** A New admission. `window` is the request that opened the window it joined;
      `turn` is the number of New admissions that had the lock before it; `looked`
      says that its database lookup returned without an error. */
  datatype Reservation = Reservation(
    claim: Claim,
    requestedAt: Time,
    lockedAt: Time,
    window: nat,
    turn: nat,
    looked: bool,
    fate: Fate)

  type Reservations = map<nat, Reservation>

  /** A request that reached a window, whatever it was answered. */
  datatype Attachment = Attachment(window: nat, requestedAt: Time)

  /** History of a window still in the map: its opener, the holder of each
      candidate, its last New admission and its last request. */
  datatype Book = Book(opener: nat, holders: map<Tag, nat>, newest: nat, latest: nat)

  datatype Ledger = Ledger(
    clock: Time,
    windows: Windows,
    books: map<IdHash, Book>,
    reservations: Reservations,
    attached: map<nat, Attachment>)

  /** How an owner completes: through `finalize`, or through `remove_pending`. */
  datatype Completion = Settled(result: LookupResult) | Removed
  {
    function Result(): LookupResult {
      if Removed? then Failed else result
    }
  }

  // ----- operations

  function Empty(now: Time): Ledger {
    Ledger(now, map[], map[], map[], map[])
  }

  function DropTo(l: Ledger, kept: Windows): Ledger {
    l.(windows := kept, books := map id | id in l.books && id in kept :: l.books[id])
  }

  function Sweep(c: Config, l: Ledger, now: Time): Ledger {
    DropTo(l, Retain(c, l.windows, now))
  }

  /** Request `n` enters the window of `id`, opening one if there is none. */
  function Join(c: Config, l: Ledger, n: nat, id: IdHash, tag: Tag, now: Time): Ledger
    requires CountsFit(l.windows)
  {
    var (ws, outcome) := Visit(c, l.windows, id, tag, now);
    var book := if id in l.books then l.books[id] else Book(n, map[], n, n);
    var l' := l.(windows := ws, attached := l.attached[n := Attachment(book.opener, now)]);
    if outcome.New? then
      l'.(books := l.books[id := Book(book.opener, book.holders[tag := n], n, n)],
          reservations := l.reservations[n :=
            Reservation(Claim(id, tag, outcome.generation), now, l.clock, book.opener, |l.reservations|, false, Open)])
    else
      l'.(books := l.books[id := book.(latest := n)])
  }

  function Admitted(c: Config, l: Ledger, n: nat, id: IdHash, tag: Tag, now: Time): Ledger
    requires CountsFit(l.windows)
  {
    var dropped := DropTo(l, Purge(c, l.windows, id, now));
    if Admit(c, l.windows, id, tag, now).1.Refused? then dropped
    else Join(c, dropped, n, id, tag, now)
  }

  function CompletedWindows(ws: Windows, claim: Claim, how: Completion): Windows {
    if how.Removed? then RemovePending(ws, claim) else Finalize(ws, claim, how.result)
  }

  function CompletedFate(ws: Windows, claim: Claim, how: Completion): Fate {
    if !Acts(ws, claim) then Dropped
    else match how.Result()
      case Found(_) => Hit
      case Absent => Miss
      case Failed => Refunded
  }

  function Completed(l: Ledger, n: nat, how: Completion): Ledger
    requires n in l.reservations
  {
    var r := l.reservations[n];
    var claim := r.claim;
    var ws := CompletedWindows(l.windows, claim, how);
    var fate := CompletedFate(l.windows, claim, how);
    var books :=
      if fate != Refunded || claim.id !in l.books then l.books
      else if claim.id in ws then
        l.books[claim.id := l.books[claim.id].(holders := l.books[claim.id].holders - {claim.tag})]
      else l.books - {claim.id};
    l.(windows := ws, books := books, reservations := l.reservations[n := r.(fate := fate)])
  }

  function LookupReturned(l: Ledger, n: nat): Ledger
    requires n in l.reservations
  {
    l.(reservations := l.reservations[n := l.reservations[n].(looked := true)])
  }

  // ----- what the history says

  /** The window reservation `n` joined is still in the map. */
  ghost predicate Live(l: Ledger, n: nat)
    requires n in l.reservations
  {
    var r := l.reservations[n];
    r.claim.id in l.books && l.books[r.claim.id].opener == r.window
  }

  /** Reservations of window `w` that were never refunded. */
  ghost function Kept(rs: Reservations, w: nat): set<nat> {
    set n | n in rs && rs[n].window == w && rs[n].fate != Refunded
  }

  /** Reservations of window `w` finalized as misses in it. */
  ghost function Misses(rs: Reservations, w: nat): set<nat> {
    set n | n in rs && rs[n].window == w && rs[n].fate == Miss
  }

  ghost function Attached(attached: map<nat, Attachment>, w: nat): set<nat> {
    set n | n in attached && attached[n].window == w
  }

  // ----- the invariant

  /** Candidate `tag` of window `w` is held by the reservation its book names. */
  ghost predicate HolderOk(rs: Reservations, id: IdHash, w: Window, b: Book, tag: Tag) {
    && tag in w.candidates && tag in b.holders && b.holders[tag] in rs
    && var r := rs[b.holders[tag]];
    && r.claim == Claim(id, tag, w.startedAt)
    && r.window == b.opener
    && (w.candidates[tag] == Pending <==> r.fate == Open)
    && (w.candidates[tag] == Committed <==> r.fate in {Hit, Miss})
  }

  /** The totals a window reports are counts over the history. */
  ghost predicate TotalsOk(rs: Reservations, attached: map<nat, Attachment>, w: Window, opener: nat) {
    && w.failed == |Misses(rs, opener)|
    && w.totalRequests == AtMost(|Attached(attached, opener)|, U64_MAX)
  }

  function AtMost(x: nat, max: nat): nat {
    if x <= max then x else max
  }

  /** The instants a window reports are those of requests in the history. */
  ghost predicate InstantsOk(
    c: Config, clock: Time, id: IdHash, w: Window, b: Book,
    rs: Reservations, attached: map<nat, Attachment>)
  {
    && w.startedAt <= clock
    && w.startedAt - c.skew <= w.lastCandidateAt <= clock
    && w.startedAt - c.skew <= w.lastRequestAt <= clock
    && b.opener in rs && rs[b.opener].claim.id == id && rs[b.opener].window == b.opener
    && rs[b.opener].requestedAt == w.startedAt
    && b.newest in rs && rs[b.newest].window == b.opener
    && rs[b.newest].requestedAt == w.lastCandidateAt
    && b.latest in attached && attached[b.latest] == Attachment(b.opener, w.lastRequestAt)
  }

  ghost predicate WindowOk(
    c: Config, clock: Time, id: IdHash, w: Window, b: Book,
    rs: Reservations, attached: map<nat, Attachment>)
  {
    && 1 <= |w.candidates| <= c.maxAttempts
    && b.holders.Keys == w.candidates.Keys
    && (forall tag {:trigger HolderOk(rs, id, w, b, tag)}
          | tag in w.candidates :: HolderOk(rs, id, w, b, tag))
    && InstantsOk(c, clock, id, w, b, rs, attached)
    && TotalsOk(rs, attached, w, b.opener)
  }

  ghost predicate EntryOk(c: Config, l: Ledger, id: IdHash)
    requires id in l.windows && id in l.books
  {
    WindowOk(c, l.clock, id, l.windows[id], l.books[id], l.reservations, l.attached)
  }

  ghost predicate ReservationOk(c: Config, l: Ledger, n: nat)
    requires n in l.reservations
  {
    var r := l.reservations[n];
    var id := r.claim.id;
    && r.lockedAt - c.skew <= r.requestedAt <= r.lockedAt <= l.clock
    && r.window in l.reservations
    && l.reservations[r.window].claim.id == id
    && (Live(l, n) && r.fate != Refunded ==>
          r.claim.tag in l.books[id].holders && l.books[id].holders[r.claim.tag] == n)
    && (Live(l, n) && l.books[id].newest in l.reservations ==>
          r.lockedAt <= l.reservations[l.books[id].newest].lockedAt)
    && r.turn < |l.reservations|
    && (Live(l, n) && l.books[id].newest in l.reservations && n != l.books[id].newest ==>
          r.turn < l.reservations[l.books[id].newest].turn)
    && (r.fate == Open && !Live(l, n) ==>
          && l.clock > r.claim.generation + c.skew
          && (id in l.windows ==> l.windows[id].startedAt > r.claim.generation))
    && (r.fate != Refunded && l.clock <= r.lockedAt + c.Cooldown() - c.skew ==> Live(l, n))
    && (r.fate in {Hit, Miss} ==> r.looked)
    && (r.fate == Refunded ==> !r.looked)
  }

  /** Two unrefunded reservations of one identifier close in time share a window. */
  ghost predicate CloseTogether(c: Config, rs: Reservations, n: nat, m: nat)
    requires n in rs && m in rs
  {
    rs[n].claim.id == rs[m].claim.id && rs[n].fate != Refunded && rs[m].fate != Refunded
    && -(c.Cooldown() - c.skew) <= rs[n].lockedAt - rs[m].lockedAt <= c.Cooldown() - c.skew
    ==> rs[n].window == rs[m].window
  }

  /** Windows, books and reservations agree entry by entry. */
  ghost predicate Agree(c: Config, l: Ledger) {
    && l.books.Keys == l.windows.Keys
    && (forall id {:trigger EntryOk(c, l, id)} | id in l.windows :: EntryOk(c, l, id))
    && (forall n {:trigger ReservationOk(c, l, n)} | n in l.reservations :: ReservationOk(c, l, n))
    && (forall n | n in l.attached :: l.attached[n].window in l.reservations)
  }

  ghost predicate Inv(c: Config, l: Ledger) {
    && Agree(c, l)
    && |l.windows| <= c.maxIdentifiers
    && (forall n, m {:trigger CloseTogether(c, l.reservations, n, m)}
          | n in l.reservations && m in l.reservations :: CloseTogether(c, l.reservations, n, m))
    && (forall w: nat :: |Kept(l.reservations, w)| <= c.maxAttempts)
  }
}
