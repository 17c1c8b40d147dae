/** Runs of the machine are runs of the lazily expiring map, in timestamp order
    when there is no skew, so what `Independence` and `Expiry` prove of that map
    applies to them. */
module MachineRuns {
  import opened Models
  import opened Limiter
  import opened Protocol
  import opened ProtocolProofs
  import opened Theorems
  import E = Expiry
  import I = Independence
  import L = Ledger
  import P = LedgerProofs

  /** The critical section a step executes, if any. */
  function OpOf(s: State, step: Step): seq<E.Op>
  {
    match step
    case Enter(n) =>
      if n in s.tasks && s.tasks[n].Queued? then
        [E.Request(s.tasks[n].requestedAt, s.tasks[n].id, s.tasks[n].tag)] else []
    case Release(n) => CompletionOf(s, n)
    case Cancel(n, lockFree) => if lockFree then CompletionOf(s, n) else []
    case Settle(n) => CompletionOf(s, n)
    case Sweep(now) => [E.Sweep(now)]
    case _ => []
  }

  function CompletionOf(s: State, n: nat): seq<E.Op> {
    if n in s.tasks && s.tasks[n].Owner? then
      [E.Complete(s.tasks[n].claim,
        if s.tasks[n].phase.Finalizer? then L.Settled(s.tasks[n].phase.result) else L.Removed)]
    else []
  }

  /** What the step answers to a lookup. */
  function AnswerOf(c: Config, s: State, step: Step): seq<E.Answer>
    requires Steppable(s) && Enabled(c, s, step)
  {
    if step.Enter? then [E.Admission(Admission(c, s, step.n))] else []
  }

  lemma StepIsLazy(c: Config, s: State, step: Step)
    requires Inv(c, s) && Steppable(s) && Enabled(c, s, step)
    ensures var s' := Next(c, s, step);
      var ops := OpOf(s, step);
      && |ops| <= 1
      && (ops == [] ==> s'.ledger.windows == s.ledger.windows && AnswerOf(c, s, step) == [])
      && (ops != [] ==> (s'.ledger.windows, AnswerOf(c, s, step)) == E.LazyStep(c, s.ledger.windows, ops[0]))
  {
    hide L.Inv, Admit, Acts, L.CompletedWindows, L.Admitted;
    match step
    case Enter(n) =>
      P.AdmittedWindows(c, s.ledger, n, s.tasks[n].id, s.tasks[n].tag, s.tasks[n].requestedAt);
    case Release(n) => CompletionIsLazy(c, s, n, L.Removed);
    case Cancel(n, _) =>
      if s.tasks[n].Owner? {
        CompletionIsLazy(c, s, n, L.Removed);
      }
    case Settle(n) => CompletionIsLazy(c, s, n, L.Settled(s.tasks[n].phase.result));
    case _ =>
  }

  lemma CompletionIsLazy(c: Config, s: State, n: nat, how: L.Completion)
    requires Inv(c, s) && n in s.tasks && s.tasks[n].Owner?
    ensures n in s.ledger.reservations
    ensures Completed(s, n, how).ledger.windows
         == L.CompletedWindows(s.ledger.windows, s.tasks[n].claim, how)
  {
    hide L.Inv, Acts;
    assert TaskOk(s, n);
  }

  ghost function Ops(c: Config, s: State, steps: seq<Step>): seq<E.Op>
    requires Run(c, s, steps).Some?
    decreases |steps|
  {
    if steps == [] then []
    else OpOf(s, steps[0]) + Ops(c, Next(c, s, steps[0]), steps[1..])
  }

  ghost function Answers(c: Config, s: State, steps: seq<Step>): seq<E.Answer>
    requires Run(c, s, steps).Some?
    decreases |steps|
  {
    if steps == [] then []
    else AnswerOf(c, s, steps[0]) + Answers(c, Next(c, s, steps[0]), steps[1..])
  }

  /** Without skew, a step reads the clock in order. */
  lemma StepInOrder(c: Config, s: State, step: Step, t: Time)
    requires Inv(c, s) && Steppable(s) && Enabled(c, s, step) && c.skew == 0 && t <= s.ledger.clock
    ensures var ops := OpOf(s, step);
      && s.ledger.clock <= Next(c, s, step).ledger.clock
      && (ops != [] ==> E.InOrder([ops[0]], t) && E.TimeAfter(ops[0], t) <= s.ledger.clock)
  {
    hide L.Inv, Admit, L.Admitted, L.Completed;
    if step.Enter? {
      assert TaskOk(s, step.n);
      var task := s.tasks[step.n];
      AdmittedRecord(c, s.ledger, step.n, task.id, task.tag, task.requestedAt);
    } else {
      ClockStays(c, s, step);
    }
  }

  lemma ClockStays(c: Config, s: State, step: Step)
    requires Steppable(s) && Enabled(c, s, step) && !step.Enter?
    ensures s.ledger.clock <= Next(c, s, step).ledger.clock
  {
  }

  lemma FirstInOrder(ops: seq<E.Op>, t: Time)
    requires ops != [] && E.InOrder([ops[0]], t) && E.InOrder(ops[1..], E.TimeAfter(ops[0], t))
    ensures E.InOrder(ops, t)
  {
  }

  /** The machine's map and answers are those of the lazily expiring map. */
  lemma {:induction false} RunIsLazy(c: Config, s: State, steps: seq<Step>)
    requires Inv(c, s) && Run(c, s, steps).Some?
    ensures c.Valid() && E.Sized(c, s.ledger.windows)
    ensures E.LazyRun(c, s.ledger.windows, Ops(c, s, steps))
         == (Run(c, s, steps).value.ledger.windows, Answers(c, s, steps))
    decreases |steps|
  {
    hide L.Inv, Next, OpOf, AnswerOf, E.LazyStep, CountsFit, Enabled;
    MapSized(c, s);
    if steps != [] {
      var step := steps[0];
      StepKeeps(c, s, step);
      StepIsLazy(c, s, step);
      var s' := Next(c, s, step);
      var op := OpOf(s, step);
      RunIsLazy(c, s', steps[1..]);
      var rest := Ops(c, s', steps[1..]);
      if op == [] {
        assert Ops(c, s, steps) == rest;
        assert [] + Answers(c, s', steps[1..]) == Answers(c, s', steps[1..]);
      } else {
        assert Ops(c, s, steps) == [op[0]] + rest && ([op[0]] + rest)[1..] == rest;
        E.StepSized(c, s.ledger.windows, op[0]);
      }
    }
  }

  /** And without skew it observes times in order. */
  lemma {:induction false} RunInOrder(c: Config, s: State, steps: seq<Step>, t: Time)
    requires Inv(c, s) && Run(c, s, steps).Some? && c.skew == 0 && t <= s.ledger.clock
    ensures E.InOrder(Ops(c, s, steps), t)
    decreases |steps|
  {
    hide L.Inv, Next, OpOf, AnswerOf, E.LazyStep, CountsFit, Enabled;
    if steps != [] {
      var step := steps[0];
      StepKeeps(c, s, step);
      StepIsLazy(c, s, step);
      StepInOrder(c, s, step, t);
      var op := OpOf(s, step);
      RunInOrder(c, Next(c, s, step), steps[1..], if op == [] then t else E.TimeAfter(op[0], t));
      var rest := Ops(c, Next(c, s, step), steps[1..]);
      if op == [] {
        assert Ops(c, s, steps) == rest;
      } else {
        assert Ops(c, s, steps) == [op[0]] + rest;
        FirstInOrder(Ops(c, s, steps), t);
      }
    }
  }

  lemma MapSized(c: Config, s: State)
    requires Inv(c, s)
    ensures c.Valid() && E.Sized(c, s.ledger.windows)
  {
    P.CountsAlwaysFit(c, s.ledger);
  }

  /** Hence every lookup of a machine run gets the answer of a map that forgets
      each window the moment its cooldown ends, and never sweeps. */
  lemma MachineAnswersEagerly(c: Config, start: Time, steps: seq<Step>)
    requires c.Valid() && c.skew == 0 && Run(c, Init(c, start), steps).Some?
    ensures E.Sized(c, map[])
    ensures Answers(c, Init(c, start), steps)
         == E.EagerRun(c, map[], E.Unswept(Ops(c, Init(c, start), steps))).1
  {
    var s := Init(c, start);
    InitHolds(c, start);
    RunIsLazy(c, s, steps);
    RunInOrder(c, s, steps, start);
    var ops := Ops(c, s, steps);
    E.LazyRefinesEager(c, map[], map[], start, ops);
    E.EagerIgnoresSweeps(c, map[], ops);
  }

  // ----- one identifier of a run

  /** What the lookups of `id` are answered along the run, but for capacity refusals. */
  ghost function AnswersTo(c: Config, s: State, steps: seq<Step>, id: IdHash): seq<E.Answer>
    requires Run(c, s, steps).Some?
    decreases |steps|
  {
    if steps == [] then []
    else AnswerTo(c, s, steps[0], id) + AnswersTo(c, Next(c, s, steps[0]), steps[1..], id)
  }

  function AnswerTo(c: Config, s: State, step: Step, id: IdHash): seq<E.Answer>
    requires Steppable(s) && Enabled(c, s, step)
  {
    if step.Enter? && s.tasks[step.n].id == id && !Admission(c, s, step.n).Refused?
    then AnswerOf(c, s, step) else []
  }

  lemma StepAnswersTo(c: Config, s: State, step: Step, id: IdHash)
    requires Inv(c, s) && Steppable(s) && Enabled(c, s, step)
    ensures var op := OpOf(s, step);
      AnswerTo(c, s, step, id) == if op == [] then [] else I.OwnAnswer(c, s.ledger.windows, op[0], id)
  {
    hide Inv, Admit, L.CompletedWindows;
  }

  lemma {:induction false} AnswersAreOwn(c: Config, s: State, steps: seq<Step>, id: IdHash)
    requires Inv(c, s) && Run(c, s, steps).Some?
    ensures c.Valid() && E.Sized(c, s.ledger.windows)
    ensures I.OwnAnswers(c, s.ledger.windows, Ops(c, s, steps), id) == AnswersTo(c, s, steps, id)
    decreases |steps|
  {
    hide L.Inv, Next, OpOf, AnswerOf, AnswerTo, I.OwnAnswer, E.LazyStep, CountsFit, Enabled;
    MapSized(c, s);
    if steps != [] {
      var step := steps[0];
      StepKeeps(c, s, step);
      StepIsLazy(c, s, step);
      StepAnswersTo(c, s, step, id);
      var s' := Next(c, s, step);
      var op := OpOf(s, step);
      AnswersAreOwn(c, s', steps[1..], id);
      var rest := Ops(c, s', steps[1..]);
      if op == [] {
        assert Ops(c, s, steps) == rest;
        assert [] + AnswersTo(c, s', steps[1..], id) == AnswersTo(c, s', steps[1..], id);
      } else {
        assert Ops(c, s, steps) == [op[0]] + rest && ([op[0]] + rest)[1..] == rest;
      }
    }
  }

  /** In every run of the machine, whatever the skew, an identifier's entry and
      the answers to its lookups are those of a map that nobody else uses. */
  lemma MachineTreatsIdentifiersAlone(c: Config, start: Time, steps: seq<Step>, s: State, id: IdHash)
    requires Reaches(c, start, steps, s)
    ensures E.Sized(c, map[])
    ensures var alone := I.Alone(c, map[], Ops(c, Init(c, start), steps), id);
      && E.LazyRun(c, map[], alone)
           == (I.Only(s.ledger.windows, id), AnswersTo(c, Init(c, start), steps, id))
      && (forall op | op in alone :: op.Sweep? || I.Concerns(op, id))
  {
    var init := Init(c, start);
    InitHolds(c, start);
    RunIsLazy(c, init, steps);
    AnswersAreOwn(c, init, steps, id);
    I.IdentifiersAreIndependent(c, map[], Ops(c, init, steps), id);
    I.AloneConcerns(c, map[], Ops(c, init, steps), id);
    assert I.Only(map[], id) == map[];
  }
}
