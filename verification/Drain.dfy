/** Permits are conserved, and once requests stop arriving the machine drains:
    no reservation stays pending and every permit comes back, however many
    handlers were cancelled. */
module Drain {
  import opened Models
  import opened Limiter
  import opened Protocol
  import opened ProtocolProofs
  import opened Theorems
  import L = Ledger

  /** Free permits plus running database jobs, of `/store`, `/fetch` and
      `/trash` together, are always the semaphore's size. */
  lemma PermitsConserved(c: Config, start: Time, steps: seq<Step>, s: State)
    requires Reaches(c, start, steps, s)
    ensures s.free + |Holders(s.tasks)| == c.permits
  {
    ReachableHolds(c, start, steps, s);
  }

  // ----- the measure

  /** An upper bound on the steps a task still takes by itself. */
  function Rank(t: Task): nat {
    match t
    case Queued(_, _, _, _) => 5
    case Owner(_, _, Guarded) => 4
    case Owner(_, _, Job) => 2
    case Owner(_, _, TimedOut) => 2
    case Owner(_, _, Cleaner) => 1
    case Owner(_, _, Finalizer(_)) => 1
    case Replay(_, _, running) => if running then 1 else 2
    case Store(_, running) => if running then 1 else 2
  }

  ghost function Work(tasks: map<nat, Task>, next: nat): nat {
    if next == 0 then 0
    else Work(tasks, next - 1) + (if next - 1 in tasks then Rank(tasks[next - 1]) else 0)
  }

  ghost function Measure(s: State): nat {
    Work(s.tasks, s.next)
  }

  lemma {:induction false} WorkAfter(tasks: map<nat, Task>, tasks': map<nat, Task>, n: nat, next: nat)
    requires forall m | m != n :: m in tasks <==> m in tasks'
    requires forall m | m != n && m in tasks :: tasks'[m] == tasks[m]
    ensures Work(tasks', next) + (if n < next && n in tasks then Rank(tasks[n]) else 0)
         == Work(tasks, next) + (if n < next && n in tasks' then Rank(tasks'[n]) else 0)
  {
    if next != 0 {
      WorkAfter(tasks, tasks', n, next - 1);
    }
  }

  lemma {:induction false} WorkAtLeast(tasks: map<nat, Task>, n: nat, next: nat)
    requires n < next && n in tasks
    ensures Work(tasks, next) >= Rank(tasks[n])
  {
    if n != next - 1 {
      WorkAtLeast(tasks, n, next - 1);
    }
  }

  /** A step that some task takes. */
  predicate TaskStep(step: Step) {
    !step.Tick? && !step.Sweep? && !step.Arrive? && !step.ArriveStore?
  }

  predicate NoArrival(step: Step) {
    !step.Arrive? && !step.ArriveStore?
  }

  function Actor(step: Step): nat
    requires TaskStep(step)
  {
    step.n
  }

  /** A task step makes its own task smaller and leaves the others alone. */
  lemma ActorShrinks(c: Config, s: State, step: Step)
    requires Inv(c, s) && Steppable(s) && Enabled(c, s, step) && TaskStep(step)
    ensures var s' := Next(c, s, step);
      var n := Actor(step);
      && s'.next == s.next && n in s.tasks && n < s.next
      && (forall m | m != n :: m in s.tasks <==> m in s'.tasks)
      && (forall m | m != n && m in s.tasks :: s'.tasks[m] == s.tasks[m])
      && (n in s'.tasks ==> Rank(s'.tasks[n]) < Rank(s.tasks[n]))
  {
    hide L.Inv, L.Completed, L.Admitted, Admit, Acts;
    assert TaskOk(s, Actor(step));
  }

  /** The measure drops with every task step and stays put with the others. */
  lemma MeasureDrops(c: Config, s: State, step: Step)
    requires Inv(c, s) && Steppable(s) && Enabled(c, s, step) && NoArrival(step)
    ensures TaskStep(step) ==> Measure(Next(c, s, step)) < Measure(s)
    ensures !TaskStep(step) ==> Measure(Next(c, s, step)) == Measure(s)
  {
    hide Inv;
    if TaskStep(step) {
      hide Next;
      var s' := Next(c, s, step);
      ActorShrinks(c, s, step);
      WorkAfter(s.tasks, s'.tasks, Actor(step), s.next);
      WorkPositive(s.tasks[Actor(step)]);
    }
  }

  lemma WorkPositive(t: Task)
    ensures Rank(t) >= 1
  {
  }

  ghost function TaskSteps(steps: seq<Step>): nat {
    if steps == [] then 0 else (if TaskStep(steps[0]) then 1 else 0) + TaskSteps(steps[1..])
  }

  /** Without arrivals, a run contains at most `Measure` task steps. */
  lemma {:induction false} RunsAreShort(c: Config, s: State, steps: seq<Step>)
    requires Inv(c, s) && Run(c, s, steps).Some?
    requires forall i | 0 <= i < |steps| :: NoArrival(steps[i])
    ensures TaskSteps(steps) + Measure(Run(c, s, steps).value) <= Measure(s)
    decreases |steps|
  {
    hide Inv, Next;
    if steps != [] {
      StepKeeps(c, s, steps[0]);
      MeasureDrops(c, s, steps[0]);
      RunsAreShort(c, Next(c, s, steps[0]), steps[1..]);
    }
  }

  /** No task is ever stuck: each has an enabled step that depends on nothing
      but itself, and that never needs a permit. */
  lemma NeverStuck(c: Config, s: State, n: nat) returns (step: Step)
    requires Inv(c, s) && n in s.tasks
    ensures TaskStep(step) && Actor(step) == n && Enabled(c, s, step)
  {
    match s.tasks[n]
    case Queued(_, _, _, _) => step := Cancel(n, true);
    case Owner(_, _, Guarded) => step := TimeOut(n);
    case Owner(_, _, Job) => step := Return(n, false);
    case Owner(_, _, Finalizer(_)) => step := Settle(n);
    case Owner(_, _, _) => step := Release(n);
    case Replay(_, _, running) => step := if running then Return(n, false) else TimeOut(n);
    case Store(_, running) => step := if running then Return(n, false) else TimeOut(n);
  }

  /** A machine without tasks holds no permit and no pending candidate. */
  lemma Idle(c: Config, s: State)
    requires Inv(c, s) && s.tasks == map[]
    ensures s.free == c.permits
    ensures forall id, tag | id in s.ledger.windows && tag in s.ledger.windows[id].candidates ::
      s.ledger.windows[id].candidates[tag] == Committed
    ensures forall n | n in s.ledger.reservations :: s.ledger.reservations[n].fate != L.Open
  {
    assert Holders(s.tasks) == {};
    forall n | n in s.ledger.reservations ensures s.ledger.reservations[n].fate != L.Open {
      assert OwnedOk(s, n);
    }
    forall id, tag | id in s.ledger.windows && tag in s.ledger.windows[id].candidates
      ensures s.ledger.windows[id].candidates[tag] == Committed {
      assert L.EntryOk(c, s.ledger, id);
      assert L.HolderOk(s.ledger.reservations, id, s.ledger.windows[id], s.ledger.books[id], tag);
    }
  }

  /** From every reachable state, letting the tasks run in any order reaches an
      idle machine; here is one such run, no longer than the measure. */
  lemma {:induction false} Drains(c: Config, s: State) returns (steps: seq<Step>)
    requires Inv(c, s)
    ensures forall i | 0 <= i < |steps| :: TaskStep(steps[i])
    ensures |steps| <= Measure(s)
    ensures Run(c, s, steps).Some?
    ensures Inv(c, Run(c, s, steps).value) && Run(c, s, steps).value.tasks == map[]
    decreases Measure(s)
  {
    hide Inv, Next;
    if s.tasks == map[] {
      steps := [];
    } else {
      var n :| n in s.tasks;
      var step := NeverStuck(c, s, n);
      StepKeeps(c, s, step);
      MeasureDrops(c, s, step);
      var rest := Drains(c, Next(c, s, step));
      steps := [step] + rest;
      assert steps[1..] == rest;
    }
  }

  /** And any run without arrivals that takes all the task steps it can ends
      idle: with every permit free, nothing pending and nothing open. */
  lemma QuiescentIsIdle(c: Config, start: Time, steps: seq<Step>, s: State)
    requires Reaches(c, start, steps, s)
    requires forall step | TaskStep(step) :: !Enabled(c, s, step)
    ensures s.tasks == map[] && s.free == c.permits
    ensures forall id, tag | id in s.ledger.windows && tag in s.ledger.windows[id].candidates ::
      s.ledger.windows[id].candidates[tag] == Committed
  {
    ReachableHolds(c, start, steps, s);
    if s.tasks != map[] {
      var n :| n in s.tasks;
      var step := NeverStuck(c, s, n);
      assert false;
    }
    Idle(c, s);
  }
}
