/** Candidate tags never leak from one identifier's window into another's. */
module Tags {
  import opened Models
  import opened Limiter
  import opened Protocol
  import opened ProtocolProofs
  import opened Theorems
  import L = Ledger
  import U = Utils

  /** The bucket and the tag of every lookup that arrives in the run. */
  function Pairs(steps: seq<Step>): set<(IdHash, Tag)> {
    if steps == [] then {}
    else (if steps[0].Arrive? then {(steps[0].id, steps[0].tag)} else {}) + Pairs(steps[1..])
  }

  /** Everything in flight or reserved came from one of these lookups. */
  ghost predicate From(s: State, pairs: set<(IdHash, Tag)>) {
    && (forall n | n in s.tasks && s.tasks[n].Queued? :: (s.tasks[n].id, s.tasks[n].tag) in pairs)
    && (forall n | n in s.ledger.reservations ::
          (s.ledger.reservations[n].claim.id, s.ledger.reservations[n].claim.tag) in pairs)
  }

  lemma StepFrom(c: Config, s: State, step: Step, pairs: set<(IdHash, Tag)>)
    requires Inv(c, s) && Steppable(s) && Enabled(c, s, step) && From(s, pairs)
    requires step.Arrive? ==> (step.id, step.tag) in pairs
    ensures From(Next(c, s, step), pairs)
  {
    hide L.Inv, Admit, Acts, From, L.Admitted;
    if step.Enter? {
      EnterFrom(c, s, step.n, pairs);
    } else {
      OtherStepFrom(c, s, step, pairs);
    }
  }

  lemma EnterFrom(c: Config, s: State, n: nat, pairs: set<(IdHash, Tag)>)
    requires Inv(c, s) && Steppable(s) && Enabled(c, s, Enter(n)) && From(s, pairs)
    ensures From(Entered(c, s, n), pairs)
  {
    hide L.Inv, Admit, L.Admitted, CountsFit;
    assert TaskOk(s, n);
    var t := s.tasks[n];
    AdmittedRecord(c, s.ledger, n, t.id, t.tag, t.requestedAt);
  }

  lemma OtherStepFrom(c: Config, s: State, step: Step, pairs: set<(IdHash, Tag)>)
    requires Steppable(s) && Enabled(c, s, step) && From(s, pairs) && !step.Enter?
    requires step.Arrive? ==> (step.id, step.tag) in pairs
    ensures From(Next(c, s, step), pairs)
  {
    hide Acts, L.CompletedWindows, L.CompletedFate, CountsFit;
  }

  lemma {:induction false} RunFrom(c: Config, s: State, steps: seq<Step>, pairs: set<(IdHash, Tag)>)
    requires Inv(c, s) && Run(c, s, steps).Some? && From(s, pairs) && Pairs(steps) <= pairs
    ensures From(Run(c, s, steps).value, pairs)
    decreases |steps|
  {
    hide Inv, Next, From;
    if steps != [] {
      StepKeeps(c, s, steps[0]);
      StepFrom(c, s, steps[0], pairs);
      RunFrom(c, Next(c, s, steps[0]), steps[1..], pairs);
    }
  }

  /** Every lookup is of a canonical identifier and key. */
  ghost predicate Derived(hash: seq<int> -> string, pair: (IdHash, Tag)) {
    exists identifier: string, key: string
      {:trigger U.SecretId(hash, identifier, key)} ::
      && U.Canonical(identifier) && U.Canonical(key)
      && pair.0 == U.IdentifierHash(hash, identifier) && pair.1 == U.SecretId(hash, identifier, key)
  }

  /** In every reachable state no tag is a candidate of two identifiers. */
  lemma TagsStayHome(
    c: Config, start: Time, steps: seq<Step>, s: State, hash: seq<int> -> string,
    id: IdHash, id': IdHash, tag: Tag)
    requires Reaches(c, start, steps, s)
    requires U.Injective(hash) && forall pair | pair in Pairs(steps) :: Derived(hash, pair)
    requires id in s.ledger.windows && tag in s.ledger.windows[id].candidates
    requires id' in s.ledger.windows && tag in s.ledger.windows[id'].candidates
    ensures id == id'
  {
    InitHolds(c, start);
    RunFrom(c, Init(c, start), steps, Pairs(steps));
    ReachableHolds(c, start, steps, s);
    CandidateFrom(c, s, Pairs(steps), id, tag);
    CandidateFrom(c, s, Pairs(steps), id', tag);
    assert Derived(hash, (id, tag)) && Derived(hash, (id', tag));
    SameHome(hash, id, id', tag);
  }

  lemma CandidateFrom(c: Config, s: State, pairs: set<(IdHash, Tag)>, id: IdHash, tag: Tag)
    requires Inv(c, s) && From(s, pairs)
    requires id in s.ledger.windows && tag in s.ledger.windows[id].candidates
    ensures (id, tag) in pairs
  {
    assert L.EntryOk(c, s.ledger, id);
    assert L.HolderOk(s.ledger.reservations, id, s.ledger.windows[id], s.ledger.books[id], tag);
  }

  lemma SameHome(hash: seq<int> -> string, id: IdHash, id': IdHash, tag: Tag)
    requires U.Injective(hash) && Derived(hash, (id, tag)) && Derived(hash, (id', tag))
    ensures id == id'
  {
    var x: string, k: string :| U.Canonical(x) && U.Canonical(k)
      && id == U.IdentifierHash(hash, x) && tag == U.SecretId(hash, x, k);
    var y: string, m: string :| U.Canonical(y) && U.Canonical(m)
      && id' == U.IdentifierHash(hash, y) && tag == U.SecretId(hash, y, m);
    U.TagHasOneBucket(hash, x, k, y, m);
  }
}
