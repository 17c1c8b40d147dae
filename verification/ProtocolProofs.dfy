/** Every step of the machine keeps its invariant, hence so does every run. */
module ProtocolProofs {
  import opened Wrappers
  import opened Models
  import opened Limiter
  import opened Protocol
  import L = Ledger
  import P = LedgerProofs
  import Database

  lemma InitHolds(c: Config, now: Time)
    requires c.Valid()
    ensures Inv(c, Init(c, now))
  {
    P.EmptyHolds(c, now);
    assert Holders(map[]) == {};
  }

  lemma InvSteppable(c: Config, s: State)
    requires Inv(c, s)
    ensures Steppable(s)
  {
    P.CountsAlwaysFit(c, s.ledger);
    forall n | n in s.tasks && s.tasks[n].Owner? ensures n in s.ledger.reservations {
      assert TaskOk(s, n);
    }
  }

  // ----- the frame of a step that concerns request `n` only

  ghost predicate OnlyRequest(s: State, s': State, n: nat) {
    && s.next <= s'.next && s.ledger.clock <= s'.ledger.clock
    && (forall m | m != n :: m in s.tasks <==> m in s'.tasks)
    && (forall m | m != n && m in s.tasks :: s'.tasks[m] == s.tasks[m])
    && (forall m | m != n :: m in s.ledger.reservations <==> m in s'.ledger.reservations)
    && (forall m | m != n && m in s.ledger.reservations :: s'.ledger.reservations[m] == s.ledger.reservations[m])
    && (forall m | m != n :: m in s.ledger.attached <==> m in s'.ledger.attached)
  }

  lemma OtherTask(s: State, s': State, n: nat, m: nat)
    requires OnlyRequest(s, s', n) && m != n
    requires m in s'.tasks && TaskOk(s, m)
    ensures TaskOk(s', m)
  {
  }

  lemma OtherReservation(s: State, s': State, n: nat, m: nat)
    requires OnlyRequest(s, s', n) && m != n
    requires m in s'.ledger.reservations && OwnedOk(s, m)
    ensures OwnedOk(s', m)
  {
  }

  lemma RequestStep(c: Config, s: State, s': State, n: nat)
    requires Inv(c, s) && OnlyRequest(s, s', n)
    requires L.Inv(c, s'.ledger)
    requires n in s'.tasks ==> TaskOk(s', n)
    requires n in s'.ledger.reservations ==> OwnedOk(s', n)
    requires n in s'.ledger.attached ==> n < s'.next
    requires s'.free + |Holders(s'.tasks)| == c.permits
    requires Database.Genuine(s'.log) && s'.rows == Database.RowsAfter(s'.log)
    ensures Inv(c, s')
  {
    hide L.Inv, TaskOk, OwnedOk;
    forall m | m in s'.tasks ensures TaskOk(s', m) {
      if m != n {
        assert TaskOk(s, m);
        OtherTask(s, s', n, m);
      }
    }
    forall m | m in s'.ledger.reservations ensures OwnedOk(s', m) {
      if m != n {
        assert OwnedOk(s, m);
        OtherReservation(s, s', n, m);
      }
    }
  }

  // ----- permits

  lemma HoldersGone(tasks: map<nat, Task>, n: nat)
    ensures |Holders(tasks - {n})| + (if n in Holders(tasks) then 1 else 0) == |Holders(tasks)|
  {
    if n in Holders(tasks) {
      assert Holders(tasks - {n}) == Holders(tasks) - {n};
    } else {
      assert Holders(tasks - {n}) == Holders(tasks);
    }
  }

  lemma HoldersAfter(tasks: map<nat, Task>, n: nat, t: Task)
    ensures |Holders(tasks[n := t])| + (if n in Holders(tasks) then 1 else 0)
            == |Holders(tasks)| + (if t.HoldsPermit() then 1 else 0)
  {
    HoldersGone(tasks, n);
    if t.HoldsPermit() {
      assert Holders(tasks[n := t]) == Holders(tasks - {n}) + {n};
    } else {
      assert Holders(tasks[n := t]) == Holders(tasks - {n});
    }
  }

  // ----- steps

  lemma ClockSteps(c: Config, s: State, step: Step)
    requires Inv(c, s) && Steppable(s) && Enabled(c, s, step) && (step.Tick? || step.Sweep?)
    ensures Inv(c, Next(c, s, step))
  {
    hide L.Inv;
    if step.Tick? {
      P.AdvanceKeeps(c, s.ledger, step.now);
    } else {
      RetainDropsOnlyExpired(c, s.ledger.windows, step.now);
      P.DropKeeps(c, s.ledger, Retain(c, s.ledger.windows, step.now), step.now);
    }
    var s' := Next(c, s, step);
    forall m | m in s'.tasks ensures TaskOk(s', m) {
      assert TaskOk(s, m);
    }
    forall m | m in s'.ledger.reservations ensures OwnedOk(s', m) {
      assert OwnedOk(s, m);
    }
  }

  lemma ArrivalSteps(c: Config, s: State, step: Step)
    requires Inv(c, s) && Steppable(s) && Enabled(c, s, step) && (step.Arrive? || step.ArriveStore?)
    ensures Inv(c, Next(c, s, step))
  {
    hide L.Inv;
    var s' := Next(c, s, step);
    assert s.next in s.tasks ==> TaskOk(s, s.next);
    assert s.next in s.ledger.reservations ==> OwnedOk(s, s.next);
    HoldersAfter(s.tasks, s.next, s'.tasks[s.next]);
    RequestStep(c, s, s', s.next);
  }

  /** Steps that only move one task to another phase without its reservation. */
  lemma PhaseStep(c: Config, s: State, n: nat, t: Task, free: nat)
    requires Inv(c, s) && n in s.tasks && !s.tasks[n].Queued? && !t.Queued?
    requires t.Owner? <==> s.tasks[n].Owner?
    requires t.Owner? ==> t.claim == s.tasks[n].claim && !t.phase.Finalizer? && !s.tasks[n].phase.Finalizer?
    requires free + (if t.HoldsPermit() then 1 else 0) == s.free + (if s.tasks[n].HoldsPermit() then 1 else 0)
    ensures Inv(c, s.(tasks := s.tasks[n := t], free := free))
  {
    hide L.Inv;
    assert TaskOk(s, n);
    if n in s.ledger.reservations { assert OwnedOk(s, n); }
    HoldersAfter(s.tasks, n, t);
    RequestStep(c, s, s.(tasks := s.tasks[n := t], free := free), n);
  }

  /** A request without a reservation of its own leaves. */
  lemma GoneStep(c: Config, s: State, n: nat)
    requires Inv(c, s) && n in s.tasks && !s.tasks[n].Owner? && !s.tasks[n].HoldsPermit()
    ensures Inv(c, Gone(s, n))
  {
    hide L.Inv;
    assert TaskOk(s, n);
    if n in s.ledger.reservations { assert OwnedOk(s, n); }
    HoldersGone(s.tasks, n);
    RequestStep(c, s, Gone(s, n), n);
  }

  lemma CompletionStep(c: Config, s: State, n: nat, how: L.Completion)
    requires Inv(c, s) && n in s.tasks && s.tasks[n].Owner? && !s.tasks[n].HoldsPermit()
    requires how == (if s.tasks[n].phase.Finalizer? then L.Settled(s.tasks[n].phase.result) else L.Removed)
    ensures n in s.ledger.reservations
    ensures Inv(c, Completed(s, n, how))
  {
    hide L.Inv, Acts;
    assert TaskOk(s, n);
    P.CompletedKeeps(c, s.ledger, n, how);
    HoldersGone(s.tasks, n);
    RequestStep(c, s, Completed(s, n, how), n);
  }

  lemma ReturnStep(c: Config, s: State, n: nat, fails: bool)
    requires Inv(c, s) && n in s.tasks && s.tasks[n].HoldsPermit()
    ensures s.tasks[n].Owner? ==> n in s.ledger.reservations
    ensures Inv(c, Returned(s, n, fails))
  {
    hide L.Inv;
    assert TaskOk(s, n);
    if n in s.ledger.reservations { assert OwnedOk(s, n); }
    var t := s.tasks[n];
    var s' := Returned(s, n, fails);
    LogGrows(s, t.Command(), fails);
    if t.Owner? {
      P.LookupReturnedKeeps(c, s.ledger, n);
      HoldersAfter(s.tasks, n, s'.tasks[n]);
    } else {
      HoldersGone(s.tasks, n);
    }
    RequestStep(c, s, s', n);
  }

  lemma LogGrows(s: State, command: Database.Command, fails: bool)
    requires Database.Genuine(s.log) && s.rows == Database.RowsAfter(s.log)
    ensures var (rows, reply) := Database.Execute(s.rows, command, fails);
      var log := s.log + [Database.Event(command, reply)];
      Database.Genuine(log) && rows == Database.RowsAfter(log)
  {
    var (rows, reply) := Database.Execute(s.rows, command, fails);
    var log := s.log + [Database.Event(command, reply)];
    assert log[..|log| - 1] == s.log;
  }

  lemma EnterStep(c: Config, s: State, n: nat)
    requires Inv(c, s) && Steppable(s) && Enabled(c, s, Enter(n))
    ensures Inv(c, Entered(c, s, n))
  {
    hide L.Inv, L.Admitted, Admit, CountsFit;
    assert TaskOk(s, n);
    var t := s.tasks[n];
    var s' := Entered(c, s, n);
    P.AdmittedKeeps(c, s.ledger, n, t.id, t.tag, t.requestedAt);
    AdmittedRecord(c, s.ledger, n, t.id, t.tag, t.requestedAt);
    if n in s'.tasks {
      HoldersAfter(s.tasks, n, s'.tasks[n]);
    } else {
      HoldersGone(s.tasks, n);
    }
    RequestStep(c, s, s', n);
  }

  /** An admission writes at most its own record, and one exactly when it is New. */
  lemma AdmittedRecord(c: Config, l: L.Ledger, n: nat, id: IdHash, tag: Tag, now: Time)
    requires CountsFit(l.windows) && n !in l.reservations && n !in l.attached
    ensures var l' := L.Admitted(c, l, n, id, tag, now);
      var o := Admit(c, l.windows, id, tag, now).1;
      && l'.clock == l.clock
      && (o.Refused? ==> l'.attached == l.attached)
      && (!o.Refused? ==> n in l'.attached && l'.attached == l.attached[n := l'.attached[n]])
      && (!o.New? ==> l'.reservations == l.reservations)
      && (o.New? ==>
            && n in l'.reservations && l'.reservations == l.reservations[n := l'.reservations[n]]
            && l'.reservations[n].claim == Claim(id, tag, o.generation)
            && l'.reservations[n].requestedAt == now && l'.reservations[n].lockedAt == l.clock
            && l'.reservations[n].turn == |l.reservations|
            && l'.reservations[n].fate == L.Open && !l'.reservations[n].looked)
  {
    P.PurgeFits(c, l.windows, id, now);
    P.VisitAnswers(c, Purge(c, l.windows, id, now), id, tag, now);
  }

  lemma StepKeeps(c: Config, s: State, step: Step)
    requires Inv(c, s) && Enabled(c, s, step)
    ensures Steppable(s)
    ensures Inv(c, Next(c, s, step))
  {
    hide L.Inv, TaskOk, OwnedOk;
    InvSteppable(c, s);
    match step
    case Tick(_) => ClockSteps(c, s, step);
    case Sweep(_) => ClockSteps(c, s, step);
    case Arrive(_, _, _) => ArrivalSteps(c, s, step);
    case ArriveStore(_) => ArrivalSteps(c, s, step);
    case Enter(n) => EnterStep(c, s, n);
    case Acquire(n) => PhaseStep(c, s, n, Running(s.tasks[n]), s.free - 1);
    case TimeOut(n) =>
      if s.tasks[n].Owner? {
        PhaseStep(c, s, n, s.tasks[n].(phase := TimedOut), s.free);
      } else {
        GoneStep(c, s, n);
      }
    case Release(n) => CompletionStep(c, s, n, L.Removed);
    case Cancel(n, lockFree) =>
      if !s.tasks[n].Owner? {
        GoneStep(c, s, n);
      } else if lockFree {
        CompletionStep(c, s, n, L.Removed);
      } else {
        PhaseStep(c, s, n, s.tasks[n].(phase := Cleaner), s.free);
      }
    case Return(n, fails) => ReturnStep(c, s, n, fails);
    case Settle(n) => CompletionStep(c, s, n, L.Settled(s.tasks[n].phase.result));
  }

  // ----- runs

  /** Executes the steps in order; None when one of them is not enabled. */
  ghost function Run(c: Config, s: State, steps: seq<Step>): Option<State>
    decreases |steps|
  {
    if steps == [] then Some(s)
    else if !Steppable(s) || !Enabled(c, s, steps[0]) then None
    else Run(c, Next(c, s, steps[0]), steps[1..])
  }

  lemma {:induction false} RunKeeps(c: Config, s: State, steps: seq<Step>)
    requires Inv(c, s) && Run(c, s, steps).Some?
    ensures Inv(c, Run(c, s, steps).value)
    decreases |steps|
  {
    if steps != [] {
      StepKeeps(c, s, steps[0]);
      RunKeeps(c, Next(c, s, steps[0]), steps[1..]);
    }
  }
}
