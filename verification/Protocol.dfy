/** `/fetch`, `/trash` and `/store` as one concurrent machine. A step is what a
    task does between two awaits; every critical section of the map lock, every
    database job and every cancellation is one step. */
module Protocol {
  import opened Models
  import opened Limiter
  import L = Ledger
  import Database

  datatype Lookup = Fetch | Trash

  /** Who is responsible for completing a reservation, and how far it has come. */
  datatype Phase =
    | Guarded                        // handler, guard armed, waiting for a permit
    | TimedOut                       // handler, guard armed, waiting for the lock to remove
    | Cleaner                        // task spawned by the guard's Drop
    | Job                            // detached task, database job holding a permit
    | Finalizer(result: LookupResult) // detached task, waiting for the lock to finalize

  datatype Task =
    | Queued(op: Lookup, id: IdHash, tag: Tag, requestedAt: Time)
    | Owner(op: Lookup, claim: Claim, phase: Phase)
    | Replay(op: Lookup, tag: Tag, running: bool)
    | Store(secret: Secret, running: bool)
  {
    predicate HoldsPermit() {
      (Owner? && phase.Job?) || ((Replay? || Store?) && running)
    }

    /** Waiting for a permit, with the one-second timeout running. */
    predicate WaitsForPermit() {
      (Owner? && phase.Guarded?) || ((Replay? || Store?) && !running)
    }

    function Command(): Database.Command
      requires HoldsPermit()
    {
      match this
      case Owner(op, claim, _) => LookupCommand(op, claim.tag)
      case Replay(op, tag, _) => LookupCommand(op, tag)
      case Store(secret, _) => Database.Write(secret)
    }
  }

  function LookupCommand(op: Lookup, tag: Tag): Database.Command {
    if op == Fetch then Database.Read(tag) else Database.Trash(tag)
  }

  /** Requests are numbered in arrival order; `next` is the next number. */
  datatype State = State(
    ledger: L.Ledger,
    tasks: map<nat, Task>,
    next: nat,
    free: nat,
    rows: Database.Rows,
    log: seq<Database.Event>)

  datatype Step =
    | Tick(now: Time)                       // the clock moves on
    | Arrive(op: Lookup, id: IdHash, tag: Tag) // a lookup reads `requested_at`
    | ArriveStore(secret: Secret)
    | Enter(n: nat)                         // a lookup takes the map lock
    | Acquire(n: nat)                       // permit obtained, job spawned, guard disarmed
    | TimeOut(n: nat)                       // no permit within a second
    | Release(n: nat)                       // removal under the lock, after a timeout or by a cleaner
    | Cancel(n: nat, lockFree: bool)        // the handler is dropped at an await
    | Return(n: nat, fails: bool)           // the database job ends and frees its permit
    | Settle(n: nat)                        // the detached task finalizes
    | Sweep(now: Time)                      // sweeper or snapshot, with its own clock reading

  function Init(c: Config, now: Time): State {
    State(L.Empty(now), map[], 0, c.permits, map[], [])
  }

  predicate Enabled(c: Config, s: State, step: Step) {
    match step
    case Tick(now) => s.ledger.clock <= now
    case Arrive(_, _, _) => true
    case ArriveStore(_) => true
    case Enter(n) =>
      && n in s.tasks && s.tasks[n].Queued?
      && s.ledger.clock - c.skew <= s.tasks[n].requestedAt
    case Acquire(n) => n in s.tasks && s.tasks[n].WaitsForPermit() && s.free > 0
    case TimeOut(n) => n in s.tasks && s.tasks[n].WaitsForPermit()
    case Release(n) => n in s.tasks && s.tasks[n].Owner? && s.tasks[n].phase in {TimedOut, Cleaner}
    case Cancel(n, _) =>
      && n in s.tasks
      && (s.tasks[n].Queued? || s.tasks[n].WaitsForPermit()
          || (s.tasks[n].Owner? && s.tasks[n].phase.TimedOut?))
    case Return(n, _) => n in s.tasks && s.tasks[n].HoldsPermit()
    case Settle(n) => n in s.tasks && s.tasks[n].Owner? && s.tasks[n].phase.Finalizer?
    case Sweep(now) => now <= s.ledger.clock
  }

  function ResultOf(reply: Database.Reply): LookupResult {
    match reply
    case Looked(Some(secret)) => Found(secret)
    case Looked(None) => Absent
    case _ => Failed
  }

  /** Request `n` leaves the machine. */
  function Gone(s: State, n: nat): State {
    s.(tasks := s.tasks - {n})
  }

  /** What the admission answered decides what becomes of the request. */
  function Admission(c: Config, s: State, n: nat): Outcome
    requires n in s.tasks && s.tasks[n].Queued? && CountsFit(s.ledger.windows)
  {
    Admit(c, s.ledger.windows, s.tasks[n].id, s.tasks[n].tag, s.tasks[n].requestedAt).1
  }

  function Entered(c: Config, s: State, n: nat): State
    requires n in s.tasks && s.tasks[n].Queued? && CountsFit(s.ledger.windows)
  {
    var t := s.tasks[n];
    var s' := s.(ledger := L.Admitted(c, s.ledger, n, t.id, t.tag, t.requestedAt));
    match Admission(c, s, n)
    case New(_, generation) =>
      s'.(tasks := s.tasks[n := Owner(t.op, Claim(t.id, t.tag, generation), Guarded)])
    case Replayed(_, _) =>
      s'.(tasks := s.tasks[n := Replay(t.op, t.tag, false)])
    case _ => Gone(s', n)
  }

  function Running(t: Task): Task
    requires t.WaitsForPermit()
  {
    if t.Owner? then t.(phase := Job) else t.(running := true)
  }

  function Completed(s: State, n: nat, how: L.Completion): State
    requires n in s.ledger.reservations
  {
    Gone(s.(ledger := L.Completed(s.ledger, n, how)), n)
  }

  function Returned(s: State, n: nat, fails: bool): State
    requires n in s.tasks && s.tasks[n].HoldsPermit()
    requires s.tasks[n].Owner? ==> n in s.ledger.reservations
  {
    var t := s.tasks[n];
    var (rows, reply) := Database.Execute(s.rows, t.Command(), fails);
    var s' := s.(free := s.free + 1, rows := rows, log := s.log + [Database.Event(t.Command(), reply)]);
    if !t.Owner? then Gone(s', n)
    else
      var result := ResultOf(reply);
      s'.(tasks := s.tasks[n := t.(phase := Finalizer(result))],
          ledger := if result.Failed? then s.ledger else L.LookupReturned(s.ledger, n))
  }

  /** Well-formedness the step function needs; part of the invariant below. */
  ghost predicate Steppable(s: State) {
    && CountsFit(s.ledger.windows)
    && (forall n | n in s.tasks && s.tasks[n].Owner? :: n in s.ledger.reservations)
  }

  function Next(c: Config, s: State, step: Step): State
    requires Steppable(s) && Enabled(c, s, step)
  {
    match step
    case Tick(now) => s.(ledger := s.ledger.(clock := now))
    case Arrive(op, id, tag) =>
      s.(tasks := s.tasks[s.next := Queued(op, id, tag, s.ledger.clock)], next := s.next + 1)
    case ArriveStore(secret) =>
      s.(tasks := s.tasks[s.next := Store(secret, false)], next := s.next + 1)
    case Enter(n) => Entered(c, s, n)
    case Acquire(n) => s.(tasks := s.tasks[n := Running(s.tasks[n])], free := s.free - 1)
    case TimeOut(n) =>
      if s.tasks[n].Owner? then s.(tasks := s.tasks[n := s.tasks[n].(phase := TimedOut)]) else Gone(s, n)
    case Release(n) => Completed(s, n, L.Removed)
    case Cancel(n, lockFree) =>
      if !s.tasks[n].Owner? then Gone(s, n)
      else if lockFree then Completed(s, n, L.Removed)
      else s.(tasks := s.tasks[n := s.tasks[n].(phase := Cleaner)])
    case Return(n, fails) => Returned(s, n, fails)
    case Settle(n) => Completed(s, n, L.Settled(s.tasks[n].phase.result))
    case Sweep(now) => s.(ledger := L.Sweep(c, s.ledger, now))
  }

  // ----- the invariant

  /** A task and its reservation tell the same story. */
  ghost predicate TaskOk(s: State, n: nat)
    requires n in s.tasks
  {
    var t := s.tasks[n];
    && n < s.next
    && (t.Queued? ==>
          && t.requestedAt <= s.ledger.clock
          && n !in s.ledger.reservations && n !in s.ledger.attached)
    && (t.Owner? ==>
          && n in s.ledger.reservations
          && var r := s.ledger.reservations[n];
          && r.claim == t.claim && r.fate == L.Open
          && (r.looked <==> t.phase.Finalizer? && !t.phase.result.Failed?))
  }

  /** An open reservation has its owner. */
  ghost predicate OwnedOk(s: State, n: nat)
    requires n in s.ledger.reservations
  {
    && n < s.next
    && (s.ledger.reservations[n].fate == L.Open ==> n in s.tasks && s.tasks[n].Owner?)
  }

  /** The requests holding a database permit. */
  ghost function Holders(tasks: map<nat, Task>): set<nat> {
    set n | n in tasks && tasks[n].HoldsPermit()
  }

  ghost predicate Inv(c: Config, s: State) {
    && c.Valid()
    && L.Inv(c, s.ledger)
    && (forall n {:trigger TaskOk(s, n)} | n in s.tasks :: TaskOk(s, n))
    && (forall n {:trigger OwnedOk(s, n)} | n in s.ledger.reservations :: OwnedOk(s, n))
    && (forall n | n in s.ledger.attached :: n < s.next)
    && s.free + |Holders(s.tasks)| == c.permits
    && Database.Genuine(s.log) && s.rows == Database.RowsAfter(s.log)
  }
}
