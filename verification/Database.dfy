/** The `secret` table of `src/database.rs`: each call is one atomic step on
    the rows, and may fail without changing them. */
module Database {
  import opened Wrappers
  import opened Models

  type Rows = map<Tag, Secret>

  datatype Command = Write(secret: Secret) | Read(id: Tag) | Trash(id: Tag)

  /** `Stored` is `write` returning true: a new row, or one already there. */
  datatype Reply = Stored | Looked(row: Option<Secret>) | Errored

  function Row(rows: Rows, id: Tag): Option<Secret> {
    if id in rows then Some(rows[id]) else None
  }

  function Execute(rows: Rows, command: Command, fails: bool): (Rows, Reply) {
    if fails then (rows, Errored)
    else match command
      case Write(secret) => (if secret.id in rows then rows else rows[secret.id := secret], Stored)
      case Read(id) => (rows, Looked(Row(rows, id)))
      case Trash(id) => (rows - {id}, Looked(Row(rows, id)))
  }

  /** Where a call on the connection may fail. */
  datatype Fault = NoFault | OnRead | OnDelete | OnCommit

  class Table {
    var rows: Rows

    constructor ()
      ensures rows == map[]
    {
      rows := map[];
    }

    /** Insert, doing nothing on conflict; only an error is reported. */
    method Insert(secret: Secret, fault: Fault) returns (ok: bool)
      modifies this
      ensures (rows, if ok then Stored else Errored) == Execute(old(rows), Write(secret), fault != NoFault)
    {
      if fault != NoFault {
        return false;
      }
      if secret.id !in rows {
        rows := rows[secret.id := secret];
      }
      return true;
    }

    method ReadSecretById(id: Tag, fault: Fault) returns (reply: Reply)
      ensures (rows, reply) == Execute(rows, Read(id), fault == OnRead)
    {
      if fault == OnRead {
        return Errored;
      }
      return Looked(if id in rows then Some(rows[id]) else None);
    }

    /** One immediate transaction: read, delete, commit. Any error, including a
        delete that does not hit exactly one row, rolls the rows back. */
    method ReadAndTrashSecretById(id: Tag, fault: Fault) returns (reply: Reply)
      modifies this
      ensures (rows, reply) == Execute(old(rows), Trash(id),
        fault in {OnRead, OnCommit} || (fault == OnDelete && id in old(rows)))
    {
      var before := rows;
      var found := ReadSecretById(id, fault);
      if found.Errored? || found.row.None? {
        assert found.Looked? ==> rows - {id} == rows;
        return if fault == OnCommit then Errored else found;
      }
      if fault == OnDelete {
        return Errored;
      }
      var size := |rows|;
      rows := rows - {id};
      var deleted := size - |rows|;
      DeletesOne(before, id);
      if deleted != 1 || fault == OnCommit {
        rows := before;
        return Errored;
      }
      return found;
    }
  }

  lemma DeletesOne(rows: Rows, id: Tag)
    requires id in rows
    ensures |rows - {id}| == |rows| - 1
  {
    assert (rows - {id}).Keys == rows.Keys - {id};
    assert |(rows - {id}).Keys| == |rows.Keys| - 1;
  }

  // ----- histories

  datatype Event = Event(command: Command, reply: Reply)

  ghost function RowsAfter(log: seq<Event>): Rows {
    if log == [] then map[]
    else
      var last := log[|log| - 1];
      Execute(RowsAfter(log[..|log| - 1]), last.command, last.reply.Errored?).0
  }

  /** Every reply in the log is the one its command gets at that point. */
  ghost predicate Genuine(log: seq<Event>) {
    log != [] ==>
      var last := log[|log| - 1];
      && Genuine(log[..|log| - 1])
      && last.reply == Execute(RowsAfter(log[..|log| - 1]), last.command, last.reply.Errored?).1
  }

  /** A `/store` answered 201 for this id. */
  predicate Accepted(e: Event, id: Tag) {
    e.command.Write? && e.command.secret.id == id && e.reply == Stored
  }

  /** A `/trash` that handed out the row. */
  predicate HandedOut(e: Event, id: Tag) {
    e.command == Trash(id) && e.reply.Looked? && e.reply.row.Some?
  }

  /** Event `i` is the first accepted store of `id` since its last release. */
  ghost predicate Standing(log: seq<Event>, id: Tag, i: nat) {
    && i < |log|
    && Accepted(log[i], id)
    && (forall j | i < j < |log| :: !HandedOut(log[j], id))
    && (forall j | 0 <= j < i && Accepted(log[j], id) :: HandedOutBetween(log, id, j, i))
  }

  ghost predicate HandedOutBetween(log: seq<Event>, id: Tag, j: nat, i: nat)
    requires j < i < |log|
  {
    exists k | j < k < i :: HandedOut(log[k], id)
  }

  /** An accepted store that nothing released leaves a standing one. */
  lemma {:induction false} SomeStands(log: seq<Event>, id: Tag, j: nat) returns (i: nat)
    requires j < |log| && Accepted(log[j], id)
    requires forall k | j < k < |log| :: !HandedOut(log[k], id)
    ensures Standing(log, id, i)
  {
    if forall h | 0 <= h < j && Accepted(log[h], id) :: HandedOutBetween(log, id, h, j) {
      i := j;
    } else {
      var h :| 0 <= h < j && Accepted(log[h], id) && !HandedOutBetween(log, id, h, j);
      forall k | h < k < |log| ensures !HandedOut(log[k], id) {
        if k < j {
          assert !HandedOutBetween(log, id, h, j);
        }
      }
      i := SomeStands(log, id, h);
    }
  }

  lemma StandingExtends(log: seq<Event>, e: Event, id: Tag, i: nat)
    requires i < |log| && !HandedOut(e, id)
    ensures Standing(log, id, i) <==> Standing(log + [e], id, i)
  {
    var longer := log + [e];
    forall j | 0 <= j < i ensures HandedOutBetween(log, id, j, i) <==> HandedOutBetween(longer, id, j, i) {
      if HandedOutBetween(log, id, j, i) {
        var k :| j < k < i && HandedOut(log[k], id);
        assert HandedOut(longer[k], id);
      }
      if HandedOutBetween(longer, id, j, i) {
        var k :| j < k < i && HandedOut(longer[k], id);
        assert HandedOut(log[k], id);
      }
    }
    if Standing(log, id, i) {
      forall j | 0 <= j < i && Accepted(longer[j], id) ensures HandedOutBetween(longer, id, j, i) {
        assert HandedOutBetween(log, id, j, i);
      }
    }
    if Standing(longer, id, i) {
      forall j | i < j < |log| ensures !HandedOut(log[j], id) {
        assert !HandedOut(longer[j], id);
      }
      forall j | 0 <= j < i && Accepted(log[j], id) ensures HandedOutBetween(log, id, j, i) {
        assert HandedOutBetween(longer, id, j, i);
      }
    }
  }

  /** What one more event does to the standing store. */
  lemma StandingAfter(log: seq<Event>, e: Event, id: Tag, present: bool)
    requires present <==> exists i: nat :: Standing(log, id, i)
    ensures HandedOut(e, id) ==> forall i: nat :: !Standing(log + [e], id, i)
    ensures !HandedOut(e, id) && (present || !Accepted(e, id)) ==>
      forall i: nat :: Standing(log + [e], id, i) <==> Standing(log, id, i)
    ensures Accepted(e, id) && !present ==>
      forall i: nat :: Standing(log + [e], id, i) <==> i == |log|
  {
    var longer := log + [e];
    assert longer[|log|] == e;
    if !HandedOut(e, id) {
      forall i: nat | i < |log| ensures Standing(log, id, i) <==> Standing(longer, id, i) {
        StandingExtends(log, e, id, i);
      }
      if present {
        var i: nat :| Standing(log, id, i);
        assert Accepted(longer[i], id);
        if Standing(longer, id, |log|) {
          assert HandedOutBetween(longer, id, i, |log|);
        }
      } else if Accepted(e, id) {
        forall j | 0 <= j < |log| && Accepted(longer[j], id) ensures HandedOutBetween(longer, id, j, |log|) {
          if forall k | j < k < |log| :: !HandedOut(log[k], id) {
            var i := SomeStands(log, id, j);
          } else {
            var k :| j < k < |log| && HandedOut(log[k], id);
            assert HandedOut(longer[k], id);
          }
        }
        assert Standing(longer, id, |log|);
      }
    }
  }

  /** A row is there exactly when some accepted store still stands, and it is
      the first one since the last release: later stores never overwrite it. */
  lemma {:induction false} RowIsFirstStored(log: seq<Event>, id: Tag)
    requires Genuine(log)
    ensures id in RowsAfter(log) <==> exists i: nat :: Standing(log, id, i)
    ensures forall i: nat :: Standing(log, id, i) ==>
      id in RowsAfter(log) && RowsAfter(log)[id] == log[i].command.secret
  {
    if log != [] {
      var n := |log| - 1;
      var before, last := log[..n], log[n];
      assert log == before + [last];
      RowIsFirstStored(before, id);
      StandingAfter(before, last, id, id in RowsAfter(before));
      if id in RowsAfter(before) {
        var i: nat :| Standing(before, id, i);
        assert !HandedOut(last, id) ==> Standing(log, id, i);
      } else if Accepted(last, id) {
        assert Standing(log, id, n);
      }
    }
  }

  /** What a lookup in the history answered is the standing store at its point. */
  lemma LookupAnswersStanding(log: seq<Event>, j: nat, id: Tag)
    requires Genuine(log) && j < |log|
    requires log[j].command in {Read(id), Trash(id)} && !log[j].reply.Errored?
    ensures log[j].reply.Looked?
    ensures log[j].reply.row.Some? <==> exists i: nat :: Standing(log[..j], id, i)
    ensures forall i: nat :: Standing(log[..j], id, i) ==>
      log[j].reply == Looked(Some(log[i].command.secret))
  {
    GenuinePrefix(log, j + 1);
    assert log[..j + 1][..j] == log[..j];
    RowIsFirstStored(log[..j], id);
  }

  lemma {:induction false} GenuinePrefix(log: seq<Event>, n: nat)
    requires Genuine(log) && n <= |log|
    ensures Genuine(log[..n])
  {
    if n == |log| {
      assert log[..n] == log;
    } else {
      GenuinePrefix(log[..|log| - 1], n);
      assert log[..|log| - 1][..n] == log[..n];
    }
  }

  /** Stores that created a row (the id was absent when they ran). */
  ghost function Created(log: seq<Event>, id: Tag): nat {
    if log == [] then 0
    else
      var n := |log| - 1;
      Created(log[..n], id) + (if Accepted(log[n], id) && id !in RowsAfter(log[..n]) then 1 else 0)
  }

  ghost function Releases(log: seq<Event>, id: Tag): nat {
    if log == [] then 0
    else
      var n := |log| - 1;
      Releases(log[..n], id) + (if HandedOut(log[n], id) then 1 else 0)
  }

  /** Rows created minus rows released is presence. */
  lemma {:induction false} RowsAreConserved(log: seq<Event>, id: Tag)
    requires Genuine(log)
    ensures Created(log, id) == Releases(log, id) + (if id in RowsAfter(log) then 1 else 0)
  {
    if log != [] {
      RowsAreConserved(log[..|log| - 1], id);
    }
  }

  /** However many trashes race, two releases of one id have an accepted store
      of that id between them. */
  lemma ReleasedOnce(log: seq<Event>, id: Tag, i: nat, j: nat)
    requires Genuine(log) && i < j < |log|
    requires HandedOut(log[i], id) && HandedOut(log[j], id)
    ensures exists k | i < k < j :: Accepted(log[k], id)
  {
    LookupAnswersStanding(log, j, id);
    var k: nat :| Standing(log[..j], id, k);
    assert Accepted(log[..j][k], id);
    assert !HandedOut(log[..j][i], id) || i <= k;
    assert !Accepted(log[i], id);
  }
}
