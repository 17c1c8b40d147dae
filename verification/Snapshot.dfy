/** The public telemetry snapshot of `src/handlers/attempts.rs` and its canonical
    form. */
module Snapshot {
  import opened Models
  import opened Limiter

  datatype AttemptEntry = AttemptEntry(
    idHash: IdHash,
    totalAttempts: u8,
    failedAttempts: u8,
    totalRequests: u64,
    windowStartedAt: Time,
    lastAttemptAt: Time)

  /** Rounds down to the hour, also before the epoch. */
  function TruncateToHour(t: Time): Time {
    t - t % HOUR
  }

  lemma TruncationIsMonotone(s: Time, t: Time)
    requires s <= t
    ensures TruncateToHour(s) <= TruncateToHour(t)
    ensures t - HOUR < TruncateToHour(t) <= t && TruncateToHour(t) % HOUR == 0
  {
    assert s / HOUR <= t / HOUR;
  }

  function EntryOf(id: IdHash, w: Window): AttemptEntry
    requires w.CountFits()
  {
    AttemptEntry(id, w.Count(), w.failed, w.totalRequests,
                 TruncateToHour(w.startedAt), TruncateToHour(w.lastRequestAt))
  }

  // ----- the order of id_hash strings

  predicate Less(a: string, b: string) {
    b != [] && (a == [] || a[0] < b[0] || (a[0] == b[0] && Less(a[1..], b[1..])))
  }

  /** It ascends: the first difference decides, and a prefix comes first. */
  lemma {:induction false} LessIsLexicographic(a: string, b: string)
    ensures Less(a, b) <==> exists k :: 0 <= k <= |a| && k < |b| && a[..k] == b[..k] && (k == |a| || a[k] < b[k])
  {
    if a != [] && b != [] && a[0] == b[0] {
      LessIsLexicographic(a[1..], b[1..]);
      if Less(a[1..], b[1..]) {
        var k :| 0 <= k <= |a[1..]| && k < |b[1..]| && a[1..][..k] == b[1..][..k]
          && (k == |a[1..]| || a[1..][k] < b[1..][k]);
        assert a[..k + 1] == [a[0]] + a[1..][..k] && b[..k + 1] == [b[0]] + b[1..][..k];
      }
      if k :| 0 <= k <= |a| && k < |b| && a[..k] == b[..k] && (k == |a| || a[k] < b[k]) {
        assert k > 0;
        assert a[1..][..k - 1] == a[..k][1..] && b[1..][..k - 1] == b[..k][1..];
      }
    } else {
      assert a[..0] == b[..0];
      if k :| 0 <= k <= |a| && k < |b| && a[..k] == b[..k] && (k == |a| || a[k] < b[k]) {
        SameHead(a, b, k);
      }
    }
  }

  lemma SameHead(a: string, b: string, k: nat)
    requires k <= |a| && k <= |b| && a[..k] == b[..k]
    ensures k > 0 ==> a[0] == b[0]
  {
    if k > 0 {
      assert a[..k][0] == b[..k][0];
    }
  }

  lemma {:induction false} LessTransitive(a: string, b: string, d: string)
    requires Less(a, b) && Less(b, d)
    ensures Less(a, d)
  {
    if a != [] && a[0] == b[0] && b[0] == d[0] {
      LessTransitive(a[1..], b[1..], d[1..]);
    }
  }

  lemma {:induction false} LessTotal(a: string, b: string)
    ensures Less(a, b) || Less(b, a) || a == b
    ensures !(Less(a, b) && Less(b, a)) && !Less(a, a)
  {
    if a != [] {
      LessTotal(a[1..], a[1..]);
      if b != [] && a[0] == b[0] {
        LessTotal(a[1..], b[1..]);
        assert a == [a[0]] + a[1..] && b == [b[0]] + b[1..];
      }
    }
  }

  // ----- collecting and sorting

  /** An iteration order of the map: every key once. */
  ghost predicate Enumerates(order: seq<IdHash>, ws: Windows) {
    && (forall id :: id in order <==> id in ws)
    && (forall i, j | 0 <= i < j < |order| :: order[i] != order[j])
  }

  function Collect(ws: Windows, order: seq<IdHash>): seq<AttemptEntry>
    requires CountsFit(ws) && forall id | id in order :: id in ws
  {
    if order == [] then []
    else [EntryOf(order[0], ws[order[0]])] + Collect(ws, order[1..])
  }

  ghost predicate NonDecreasing(entries: seq<AttemptEntry>) {
    forall i, j | 0 <= i < j < |entries| :: !Less(entries[j].idHash, entries[i].idHash)
  }

  ghost predicate Increasing(entries: seq<AttemptEntry>) {
    forall i, j | 0 <= i < j < |entries| :: Less(entries[i].idHash, entries[j].idHash)
  }

  /** What any sort by `id_hash` delivers. */
  ghost predicate SortOf(sorted: seq<AttemptEntry>, entries: seq<AttemptEntry>) {
    multiset(sorted) == multiset(entries) && NonDecreasing(sorted)
  }

  lemma {:induction false} CollectedAt(ws: Windows, order: seq<IdHash>)
    requires CountsFit(ws) && forall id | id in order :: id in ws
    ensures |Collect(ws, order)| == |order|
    ensures forall i | 0 <= i < |order| :: Collect(ws, order)[i] == EntryOf(order[i], ws[order[i]])
  {
    if order != [] {
      CollectedAt(ws, order[1..]);
    }
  }

  /** The snapshot lists exactly the entries of the map. */
  ghost predicate Lists(entries: seq<AttemptEntry>, ws: Windows)
    requires CountsFit(ws)
  {
    && (forall e | e in entries :: e.idHash in ws && e == EntryOf(e.idHash, ws[e.idHash]))
    && (forall id | id in ws :: EntryOf(id, ws[id]) in entries)
  }

  /** A sorted collection is strictly increasing and lists exactly the map. */
  lemma SortedCollection(ws: Windows, order: seq<IdHash>, sorted: seq<AttemptEntry>)
    requires CountsFit(ws) && Enumerates(order, ws) && SortOf(sorted, Collect(ws, order))
    ensures Increasing(sorted) && Lists(sorted, ws)
  {
    var entries := Collect(ws, order);
    CollectedAt(ws, order);
    forall i, j | 0 <= i < j < |sorted| ensures Less(sorted[i].idHash, sorted[j].idHash) {
      LessTotal(sorted[i].idHash, sorted[j].idHash);
      if sorted[i].idHash == sorted[j].idHash {
        SameKeyTwice(entries, sorted, i, j);
      }
    }
    forall e | e in sorted ensures e.idHash in ws && e == EntryOf(e.idHash, ws[e.idHash]) {
      assert e in multiset(entries);
    }
    forall id | id in ws ensures EntryOf(id, ws[id]) in sorted {
      var i :| 0 <= i < |order| && order[i] == id;
      assert entries[i] in multiset(sorted);
    }
  }

  /** Entries with distinct keys stay distinct under any reordering. */
  lemma SameKeyTwice(entries: seq<AttemptEntry>, sorted: seq<AttemptEntry>, i: nat, j: nat)
    requires multiset(sorted) == multiset(entries) && i < j < |sorted|
    requires forall p, q | 0 <= p < q < |entries| :: entries[p].idHash != entries[q].idHash
    ensures sorted[i].idHash != sorted[j].idHash
  {
    assert sorted[i] in multiset(sorted) && sorted[j] in multiset(sorted);
    assert sorted[i] in entries && sorted[j] in entries;
    if sorted[i].idHash == sorted[j].idHash {
      assert sorted[i] == sorted[j];
      assert sorted == sorted[..i] + [sorted[i]] + sorted[i + 1..j] + [sorted[j]] + sorted[j + 1..];
      assert multiset(sorted)[sorted[i]] >= 2;
      OnceAtMost(entries, sorted[i]);
    }
  }

  lemma {:induction false} OnceAtMost(entries: seq<AttemptEntry>, e: AttemptEntry)
    requires forall p, q | 0 <= p < q < |entries| :: entries[p].idHash != entries[q].idHash
    ensures multiset(entries)[e] <= 1
  {
    if entries != [] {
      var rest := entries[1..];
      assert entries == [entries[0]] + rest;
      OnceAtMost(rest, e);
      if entries[0] == e {
        assert e !in rest;
        assert multiset(rest)[e] == 0;
      }
    }
  }

  lemma EmptyListing(ws: Windows, a: seq<AttemptEntry>)
    requires CountsFit(ws) && Lists(a, ws)
    ensures a == [] <==> ws == map[]
  {
    if a != [] {
      assert a[0] in a;
    }
    if id :| id in ws {
      assert EntryOf(id, ws[id]) in a;
    }
  }

  /** Increasing listings of one map are equal. */
  lemma {:induction false} ListingIsUnique(ws: Windows, a: seq<AttemptEntry>, b: seq<AttemptEntry>)
    requires CountsFit(ws) && Increasing(a) && Increasing(b) && Lists(a, ws) && Lists(b, ws)
    ensures a == b
    decreases |ws|
  {
    EmptyListing(ws, a);
    EmptyListing(ws, b);
    if a != [] {
      hide Lists, Increasing;
      SameFirst(ws, a, b);
      var id := a[0].idHash;
      var rest := ws - {id};
      ListsRest(ws, a);
      ListsRest(ws, b);
      assert rest.Keys == ws.Keys - {id};
      assert |rest.Keys| < |ws.Keys|;
      ListingIsUnique(rest, a[1..], b[1..]);
      assert a == [a[0]] + a[1..] && b == [b[0]] + b[1..];
    }
  }

  lemma SameFirst(ws: Windows, a: seq<AttemptEntry>, b: seq<AttemptEntry>)
    requires CountsFit(ws) && Increasing(a) && Increasing(b) && Lists(a, ws) && Lists(b, ws)
    requires a != [] && b != []
    ensures a[0] == b[0]
  {
    var i :| 0 <= i < |b| && b[i] == a[0];
    var j :| 0 <= j < |a| && a[j] == b[0];
    LessTotal(a[0].idHash, b[0].idHash);
  }

  lemma ListsRest(ws: Windows, a: seq<AttemptEntry>)
    requires CountsFit(ws) && Increasing(a) && Lists(a, ws) && a != []
    ensures CountsFit(ws - {a[0].idHash})
    ensures Lists(a[1..], ws - {a[0].idHash}) && Increasing(a[1..])
  {
    var id := a[0].idHash;
    forall e | e in a[1..] ensures e.idHash != id && e.idHash in ws && e == EntryOf(e.idHash, ws[e.idHash]) {
      var i :| 0 <= i < |a[1..]| && a[1..][i] == e;
      assert a[i + 1] == e;
      LessTotal(id, id);
    }
    forall x | x in ws - {id} ensures EntryOf(x, ws[x]) in a[1..] {
      var i :| 0 <= i < |a| && a[i] == EntryOf(x, ws[x]);
      assert a[1..][i - 1] == a[i];
    }
  }

  /** Whatever order the hash map is iterated in and whatever the sort does with
      it, the payload is the same: one strictly increasing list of exactly the
      entries in force. */
  lemma SnapshotIsCanonical(c: Config, ws: Windows, now: Time,
      order: seq<IdHash>, order': seq<IdHash>, sorted: seq<AttemptEntry>, sorted': seq<AttemptEntry>)
    requires CountsFit(Retain(c, ws, now))
    requires Enumerates(order, Retain(c, ws, now)) && Enumerates(order', Retain(c, ws, now))
    requires SortOf(sorted, Collect(Retain(c, ws, now), order))
    requires SortOf(sorted', Collect(Retain(c, ws, now), order'))
    ensures sorted == sorted'
    ensures Increasing(sorted)
    ensures forall id :: (exists e :: e in sorted && e.idHash == id) <==> id in ws && !Expired(c, ws[id], now)
  {
    var kept := Retain(c, ws, now);
    SortedCollection(kept, order, sorted);
    SortedCollection(kept, order', sorted');
    ListingIsUnique(kept, sorted, sorted');
    forall id ensures (exists e :: e in sorted && e.idHash == id) <==> id in ws && !Expired(c, ws[id], now) {
      if id in kept {
        assert EntryOf(id, kept[id]) in sorted && EntryOf(id, kept[id]).idHash == id;
      }
    }
  }

  /** One such sort. */
  function Insert(e: AttemptEntry, sorted: seq<AttemptEntry>): seq<AttemptEntry> {
    if sorted == [] || Less(e.idHash, sorted[0].idHash) then [e] + sorted
    else [sorted[0]] + Insert(e, sorted[1..])
  }

  function Sort(entries: seq<AttemptEntry>): seq<AttemptEntry> {
    if entries == [] then [] else Insert(entries[0], Sort(entries[1..]))
  }

  lemma {:induction false} InsertSorts(e: AttemptEntry, sorted: seq<AttemptEntry>)
    requires NonDecreasing(sorted)
    ensures SortOf(Insert(e, sorted), [e] + sorted)
  {
    if sorted != [] {
      var first := sorted[0];
      assert sorted == [first] + sorted[1..];
      if Less(e.idHash, first.idHash) {
        forall i, j | 0 <= i < j < |[e] + sorted|
          ensures !Less(([e] + sorted)[j].idHash, ([e] + sorted)[i].idHash) {
          if i == 0 {
            LessTotal(first.idHash, first.idHash);
            NotAbove(e.idHash, first.idHash, sorted[j - 1].idHash);
          }
        }
      } else {
        InsertSorts(e, sorted[1..]);
        var rest := Insert(e, sorted[1..]);
        forall i, j | 0 <= i < j < |[first] + rest|
          ensures !Less(([first] + rest)[j].idHash, ([first] + rest)[i].idHash) {
          if i == 0 {
            assert rest[j - 1] in multiset([e] + sorted[1..]);
          }
        }
      }
    }
  }

  lemma NotAbove(a: string, b: string, d: string)
    requires Less(a, b) && !Less(d, b)
    ensures !Less(d, a)
  {
    if Less(d, a) {
      LessTransitive(d, a, b);
    }
  }

  lemma {:induction false} SortSorts(entries: seq<AttemptEntry>)
    ensures SortOf(Sort(entries), entries)
  {
    if entries != [] {
      SortSorts(entries[1..]);
      InsertSorts(entries[0], Sort(entries[1..]));
      assert entries == [entries[0]] + entries[1..];
    }
  }
}
