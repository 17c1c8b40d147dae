/** Every ledger operation keeps the ledger invariant. */
module LedgerProofs {
  import opened Models
  import opened Limiter
  import opened Ledger

  lemma EmptyHolds(c: Config, now: Time)
    requires c.Valid()
    ensures Inv(c, Empty(now))
  {
    forall w: nat ensures |Kept(map[], w)| <= c.maxAttempts {
      assert Kept(map[], w) == {};
    }
  }

  /** A window is unaffected by time passing and by records of other windows. */
  lemma WindowFrame(
    c: Config, id: IdHash, w: Window, b: Book,
    clock: Time, rs: Reservations, attached: map<nat, Attachment>,
    clock': Time, rs': Reservations, attached': map<nat, Attachment>)
    requires WindowOk(c, clock, id, w, b, rs, attached) && clock <= clock'
    requires forall n | n in rs && rs[n].window == b.opener :: n in rs' && rs'[n] == rs[n]
    requires Misses(rs', b.opener) == Misses(rs, b.opener)
    requires forall n | n in attached && attached[n].window == b.opener :: n in attached' && attached'[n] == attached[n]
    requires Attached(attached', b.opener) == Attached(attached, b.opener)
    ensures WindowOk(c, clock', id, w, b, rs', attached')
  {
    forall tag | tag in w.candidates ensures HolderOk(rs', id, w, b, tag) {
      assert HolderOk(rs, id, w, b, tag);
    }
  }

  lemma AdvanceKeeps(c: Config, l: Ledger, now: Time)
    requires c.Valid() && Inv(c, l) && l.clock <= now
    ensures Inv(c, l.(clock := now))
  {
    var l' := l.(clock := now);
    forall id | id in l'.windows ensures EntryOk(c, l', id) {
      assert EntryOk(c, l, id);
      WindowFrame(c, id, l.windows[id], l.books[id], l.clock, l.reservations, l.attached,
                  now, l.reservations, l.attached);
    }
    forall n | n in l'.reservations ensures ReservationOk(c, l', n) {
      assert ReservationOk(c, l, n);
    }
  }

  /** Dropping entries that are expired at a time already reached. */
  lemma DropKeeps(c: Config, l: Ledger, kept: Windows, now: Time)
    requires c.Valid() && Inv(c, l) && now <= l.clock
    requires DropsOnlyExpired(c, l.windows, kept, now)
    ensures Inv(c, DropTo(l, kept))
  {
    hide EntryOk, ReservationOk, CloseTogether;
    var l' := DropTo(l, kept);
    DropSize(c, l.windows, kept, now);
    forall id | id in l'.windows ensures EntryOk(c, l', id) {
      DroppedEntry(c, l, kept, now, id);
    }
    forall n | n in l'.reservations ensures ReservationOk(c, l', n) {
      DroppedReservation(c, l, kept, now, n);
    }
    SameHistory(c, l, l');
  }

  lemma DropSize(c: Config, ws: Windows, kept: Windows, now: Time)
    requires DropsOnlyExpired(c, ws, kept, now)
    ensures |kept| <= |ws|
  {
    SubsetSize(kept.Keys, ws.Keys);
  }

  lemma DroppedEntry(c: Config, l: Ledger, kept: Windows, now: Time, id: IdHash)
    requires Agree(c, l)
    requires DropsOnlyExpired(c, l.windows, kept, now)
    requires id in kept
    ensures id in DropTo(l, kept).books && EntryOk(c, DropTo(l, kept), id)
  {
    assert EntryOk(c, l, id);
  }

  lemma SameHistory(c: Config, l: Ledger, l': Ledger)
    requires Inv(c, l) && l'.reservations == l.reservations
    ensures forall n, m | n in l'.reservations && m in l'.reservations :: CloseTogether(c, l'.reservations, n, m)
    ensures forall w: nat :: |Kept(l'.reservations, w)| <= c.maxAttempts
  {
    forall n, m | n in l'.reservations && m in l'.reservations
      ensures CloseTogether(c, l'.reservations, n, m) {
      assert CloseTogether(c, l.reservations, n, m);
    }
  }

  lemma DroppedReservation(c: Config, l: Ledger, kept: Windows, now: Time, n: nat)
    requires c.Valid() && Inv(c, l) && now <= l.clock
    requires DropsOnlyExpired(c, l.windows, kept, now)
    requires n in l.reservations
    ensures ReservationOk(c, DropTo(l, kept), n)
  {
    assert ReservationOk(c, l, n);
    var id := l.reservations[n].claim.id;
    if Live(l, n) && id !in kept {
      assert Expired(c, l.windows[id], now);
      LostReservation(c, l, n, now);
    }
  }

  /** A record whose window has expired by now is older than the cooldown. */
  lemma LostReservation(c: Config, l: Ledger, n: nat, now: Time)
    requires c.Valid() && Agree(c, l) && now <= l.clock && n in l.reservations && Live(l, n)
    requires Expired(c, l.windows[l.reservations[n].claim.id], now)
    ensures var r := l.reservations[n];
      && l.clock > r.lockedAt + c.Cooldown() - c.skew
      && (r.fate == Open ==> l.clock > r.claim.generation + c.skew)
  {
    var r := l.reservations[n];
    var id := r.claim.id;
    assert ReservationOk(c, l, n);
    assert EntryOk(c, l, id);
    assert ReservationOk(c, l, l.books[id].newest);
    assert l.windows[id].lastCandidateAt >= r.lockedAt - c.skew;
    if r.fate == Open {
      assert HolderOk(l.reservations, id, l.windows[id], l.books[id], r.claim.tag);
    }
  }

  // ----- counting

  lemma {:induction false} InjectiveImage(m: map<Tag, nat>, tags: set<Tag>)
    requires tags <= m.Keys
    requires forall s, t | s in tags && t in tags && m[s] == m[t] :: s == t
    ensures |set t | t in tags :: m[t]| == |tags|
  {
    var image := set t | t in tags :: m[t];
    if tags != {} {
      var t :| t in tags;
      var rest := set s | s in tags - {t} :: m[s];
      InjectiveImage(m, tags - {t});
      assert image == rest + {m[t]};
      assert m[t] !in rest;
    }
  }

  lemma InjectiveValues(m: map<Tag, nat>)
    requires forall s, t | s in m && t in m && m[s] == m[t] :: s == t
    ensures |m.Values| == |m|
  {
    InjectiveImage(m, m.Keys);
    assert m.Values == set t | t in m.Keys :: m[t];
    assert |m.Keys| == |m|;
  }

  /** The unrefunded reservations of a window in the map are exactly the holders
      of its candidates, one each. */
  lemma KeptAreHolders(c: Config, l: Ledger, id: IdHash)
    requires Agree(c, l) && id in l.windows
    ensures Kept(l.reservations, l.books[id].opener) == l.books[id].holders.Values
    ensures |Kept(l.reservations, l.books[id].opener)| == |l.windows[id].candidates|
  {
    assert EntryOk(c, l, id);
    var b := l.books[id];
    var kept := Kept(l.reservations, b.opener);
    forall n | n in kept ensures n in b.holders.Values {
      assert ReservationOk(c, l, n);
      assert n == b.holders[l.reservations[n].claim.tag];
    }
    forall n | n in b.holders.Values ensures n in kept {
      var tag :| tag in b.holders && b.holders[tag] == n;
      assert HolderOk(l.reservations, id, l.windows[id], b, tag);
    }
    forall s, t | s in b.holders && t in b.holders && b.holders[s] == b.holders[t] ensures s == t {
      assert HolderOk(l.reservations, id, l.windows[id], b, s) && HolderOk(l.reservations, id, l.windows[id], b, t);
    }
    InjectiveValues(b.holders);
    assert |b.holders.Keys| == |l.windows[id].candidates.Keys|;
  }

  /** How one record changes the number of misses of a window. */
  lemma MissesAfter(rs: Reservations, n: nat, r: Reservation, w: nat)
    requires n in rs ==> rs[n].window == r.window && rs[n].fate != Miss
    ensures r.window != w || r.fate != Miss ==> Misses(rs[n := r], w) == Misses(rs, w)
    ensures r.window == w && r.fate == Miss ==> |Misses(rs[n := r], w)| == |Misses(rs, w)| + 1
  {
    if r.window == w && r.fate == Miss {
      assert Misses(rs[n := r], w) == Misses(rs, w) + {n};
    }
  }

  lemma AttachedAfter(attached: map<nat, Attachment>, n: nat, a: Attachment, w: nat)
    requires n !in attached
    ensures a.window != w ==> Attached(attached[n := a], w) == Attached(attached, w)
    ensures a.window == w ==> |Attached(attached[n := a], w)| == |Attached(attached, w)| + 1
  {
    if a.window == w {
      assert Attached(attached[n := a], w) == Attached(attached, w) + {n};
    }
  }

  // ----- joining a window

  ghost predicate MayJoin(c: Config, l: Ledger, n: nat, id: IdHash, now: Time) {
    && c.Valid() && Inv(c, l)
    && n !in l.reservations && n !in l.attached
    && l.clock - c.skew <= now <= l.clock
    && (id in l.windows ==> !Expired(c, l.windows[id], now))
    && (id !in l.windows ==> |l.windows| < c.maxIdentifiers)
  }

  lemma CountsAlwaysFit(c: Config, l: Ledger)
    requires Agree(c, l)
    ensures CountsFit(l.windows)
  {
    forall id | id in l.windows ensures l.windows[id].CountFits() {
      assert EntryOk(c, l, id);
    }
  }

  /** The window a request finds: the entry, or a fresh one. */
  function FoundWindow(l: Ledger, id: IdHash, now: Time): Window {
    if id in l.windows then l.windows[id] else NewWindow(now)
  }

  /** What `EnterWindow` does to a window, case by case. */
  lemma EnterCases(c: Config, w: Window, tag: Tag, now: Time)
    requires w.CountFits()
    ensures var (w', o) := EnterWindow(c, w, tag, now);
      && w'.startedAt == w.startedAt && w'.failed == w.failed && w'.lastRequestAt == now
      && w'.totalRequests == (if w.totalRequests < U64_MAX then w.totalRequests + 1 else U64_MAX)
      && (o.New? <==> |w.candidates| < c.maxAttempts && tag !in w.candidates)
      && (o.New? ==> w'.candidates == w.candidates[tag := Pending] && w'.lastCandidateAt == now
                     && |w'.candidates| == |w.candidates| + 1 && o.generation == w.startedAt)
      && (!o.New? ==> w'.candidates == w.candidates && w'.lastCandidateAt == w.lastCandidateAt)
  {
  }

  /** An entry that a step leaves alone stays sound when the step writes
      record `n`, provided that record belongs to another window. */
  lemma OtherEntry(c: Config, l: Ledger, l': Ledger, x: IdHash, n: nat)
    requires x in l.windows && x in l.books && EntryOk(c, l, x)
    requires x in l'.windows && x in l'.books
    requires l'.windows[x] == l.windows[x] && l'.books[x] == l.books[x] && l.clock <= l'.clock
    requires l'.reservations == l.reservations ||
      (n in l'.reservations && l'.reservations == l.reservations[n := l'.reservations[n]]
       && l'.reservations[n].window != l.books[x].opener
       && (n in l.reservations ==> l.reservations[n].window != l.books[x].opener))
    requires l'.attached == l.attached ||
      (n in l'.attached && n !in l.attached && l'.attached == l.attached[n := l'.attached[n]]
       && l'.attached[n].window != l.books[x].opener)
    ensures EntryOk(c, l', x)
  {
    WindowFrame(c, x, l.windows[x], l.books[x], l.clock, l.reservations, l.attached,
                l'.clock, l'.reservations, l'.attached);
  }

  /** A request joins a window that is already there. */
  lemma OwnEntry(
    c: Config, id: IdHash, w: Window, b: Book, clock: Time,
    rs: Reservations, attached: map<nat, Attachment>, n: nat, tag: Tag, now: Time)
    requires WindowOk(c, clock, id, w, b, rs, attached)
    requires n !in rs && n !in attached && w.CountFits()
    requires c.Valid() && clock - c.skew <= now <= clock
    ensures var (w', o) := EnterWindow(c, w, tag, now);
      var attached' := attached[n := Attachment(b.opener, now)];
      && (!o.New? ==> WindowOk(c, clock, id, w', b.(latest := n), rs, attached'))
      && (o.New? ==> WindowOk(c, clock, id, w', Book(b.opener, b.holders[tag := n], n, n),
           rs[n := Reservation(Claim(id, tag, o.generation), now, clock, b.opener, |rs|, false, Open)], attached'))
  {
    var (w', o) := EnterWindow(c, w, tag, now);
    EnterCases(c, w, tag, now);
    AttachedAfter(attached, n, Attachment(b.opener, now), b.opener);
    var r := Reservation(Claim(id, tag, w.startedAt), now, clock, b.opener, |rs|, false, Open);
    var rs' := if o.New? then rs[n := r] else rs;
    var b' := if o.New? then Book(b.opener, b.holders[tag := n], n, n) else b.(latest := n);
    MissesAfter(rs, n, r, b.opener);
    forall t | t in w'.candidates ensures HolderOk(rs', id, w', b', t) {
      assert t in w.candidates ==> HolderOk(rs, id, w, b, t);
    }
  }

  /** A request opens a window. */
  lemma FreshEntry(
    c: Config, id: IdHash, clock: Time,
    rs: Reservations, attached: map<nat, Attachment>, n: nat, tag: Tag, now: Time)
    requires n !in rs && n !in attached
    requires Misses(rs, n) == {} && Attached(attached, n) == {}
    requires c.Valid() && clock - c.skew <= now <= clock
    ensures var (w', o) := EnterWindow(c, NewWindow(now), tag, now);
      && o.New?
      && WindowOk(c, clock, id, w', Book(n, map[][tag := n], n, n),
           rs[n := Reservation(Claim(id, tag, o.generation), now, clock, n, |rs|, false, Open)],
           attached[n := Attachment(n, now)])
  {
    EnterCases(c, NewWindow(now), tag, now);
    AttachedAfter(attached, n, Attachment(n, now), n);
    MissesAfter(rs, n, Reservation(Claim(id, tag, now), now, clock, n, |rs|, false, Open), n);
  }

  /** No record mentions a window that request `n` has not opened. */
  lemma NothingYet(c: Config, l: Ledger, n: nat)
    requires Agree(c, l) && n !in l.reservations
    ensures Misses(l.reservations, n) == {} && Attached(l.attached, n) == {}
    ensures forall m | m in l.reservations :: l.reservations[m].window != n
    ensures forall id | id in l.books :: l.books[id].opener != n
  {
    forall m | m in l.reservations ensures l.reservations[m].window != n {
      assert ReservationOk(c, l, m);
    }
    forall id | id in l.books ensures l.books[id].opener != n {
      assert EntryOk(c, l, id);
    }
  }

  lemma OpenersDiffer(c: Config, l: Ledger, n: nat, id: IdHash, x: IdHash)
    requires Agree(c, l) && n !in l.reservations && x in l.windows && x != id
    ensures x in l.books && EntryOk(c, l, x)
    ensures l.books[x].opener != n
    ensures id in l.windows ==> l.books[id].opener != l.books[x].opener
  {
    assert EntryOk(c, l, x);
    assert id in l.windows ==> EntryOk(c, l, id);
  }

  lemma JoinOtherEntry(c: Config, l: Ledger, n: nat, id: IdHash, tag: Tag, now: Time, x: IdHash)
    requires MayJoin(c, l, n, id, now) && CountsFit(l.windows)
    requires x in l.windows && x != id
    ensures EntryOk(c, Join(c, l, n, id, tag, now), x)
  {
    var l' := Join(c, l, n, id, tag, now);
    OpenersDiffer(c, l, n, id, x);
    OtherEntry(c, l, l', x, n);
  }

  lemma JoinOwnEntry(c: Config, l: Ledger, n: nat, id: IdHash, tag: Tag, now: Time)
    requires MayJoin(c, l, n, id, now) && CountsFit(l.windows)
    ensures EntryOk(c, Join(c, l, n, id, tag, now), id)
  {
    if id in l.windows {
      assert EntryOk(c, l, id);
      OwnEntry(c, id, l.windows[id], l.books[id], l.clock, l.reservations, l.attached, n, tag, now);
    } else {
      NothingYet(c, l, n);
      FreshEntry(c, id, l.clock, l.reservations, l.attached, n, tag, now);
    }
  }

  /** Records other than the joining one, whatever the answer was. */
  lemma JoinOldReservation(c: Config, l: Ledger, n: nat, id: IdHash, tag: Tag, now: Time, m: nat)
    requires MayJoin(c, l, n, id, now) && CountsFit(l.windows)
    requires m in l.reservations
    ensures ReservationOk(c, Join(c, l, n, id, tag, now), m)
  {
    var l' := Join(c, l, n, id, tag, now);
    EnterCases(c, FoundWindow(l, id, now), tag, now);
    if l.reservations[m].claim.id != id {
      assert ReservationOk(c, l, m);
    } else if id !in l.windows {
      UnseenWindow(c, l, n, m);
    } else {
      assert EntryOk(c, l, id);
      JoinedReservation(c, l, l', n, tag, m);
    }
  }

  /** A record of an identifier without a window, when one is opened. */
  lemma UnseenWindow(c: Config, l: Ledger, n: nat, m: nat)
    requires Agree(c, l) && n !in l.reservations && m in l.reservations
    requires l.reservations[m].claim.id !in l.books
    ensures l.reservations[m].window != n
    ensures ReservationOk(c, l, m)
  {
    assert ReservationOk(c, l, m);
  }

  /** A record of the identifier whose window is joined. */
  lemma JoinedReservation(c: Config, l: Ledger, l': Ledger, n: nat, tag: Tag, m: nat)
    requires Agree(c, l) && n !in l.reservations && m in l.reservations
    requires var id := l.reservations[m].claim.id;
      && id in l.windows && id in l'.windows && id in l'.books && l'.clock == l.clock
      && l'.windows[id].startedAt == l.windows[id].startedAt
      && l'.books[id].opener == l.books[id].opener
      && ((l'.reservations == l.reservations && l'.books[id].holders == l.books[id].holders
           && l'.books[id].newest == l.books[id].newest)
          || (tag !in l.books[id].holders && l'.books[id].holders == l.books[id].holders[tag := n]
              && l'.books[id].newest == n && n in l'.reservations
              && l'.reservations == l.reservations[n := l'.reservations[n]]
              && l'.reservations[n].lockedAt == l.clock && l'.reservations[n].turn == |l.reservations|))
    ensures ReservationOk(c, l', m)
  {
    assert ReservationOk(c, l, m);
  }

  lemma JoinNewReservation(c: Config, l: Ledger, n: nat, id: IdHash, tag: Tag, now: Time)
    requires MayJoin(c, l, n, id, now) && CountsFit(l.windows)
    requires n in Join(c, l, n, id, tag, now).reservations
    ensures ReservationOk(c, Join(c, l, n, id, tag, now), n)
  {
    var l' := Join(c, l, n, id, tag, now);
    EnterCases(c, FoundWindow(l, id, now), tag, now);
    if id in l.windows {
      assert EntryOk(c, l, id);
    }
  }

  /** A new reservation joins the window of every unrefunded recent one. */
  lemma JoinCloseTogether(c: Config, l: Ledger, n: nat, id: IdHash, tag: Tag, now: Time, m: nat)
    requires MayJoin(c, l, n, id, now) && CountsFit(l.windows)
    requires n in Join(c, l, n, id, tag, now).reservations
    requires m in Join(c, l, n, id, tag, now).reservations
    ensures CloseTogether(c, Join(c, l, n, id, tag, now).reservations, n, m)
    ensures CloseTogether(c, Join(c, l, n, id, tag, now).reservations, m, n)
  {
    if m != n {
      assert ReservationOk(c, l, m);
    }
  }

  /** The budget of the joined window holds once the books agree again. */
  lemma JoinBudget(c: Config, l: Ledger, l': Ledger, n: nat, id: IdHash, w: nat)
    requires Inv(c, l) && Agree(c, l') && id in l'.windows
    requires n !in l.reservations
    requires l'.reservations == l.reservations ||
      (n in l'.reservations && l'.reservations == l.reservations[n := l'.reservations[n]]
       && l'.reservations[n].window == l'.books[id].opener)
    ensures |Kept(l'.reservations, w)| <= c.maxAttempts
  {
    if w == l'.books[id].opener {
      KeptAreHolders(c, l', id);
      assert EntryOk(c, l', id);
    } else {
      assert Kept(l'.reservations, w) == Kept(l.reservations, w);
    }
  }

  lemma JoinEntry(c: Config, l: Ledger, n: nat, id: IdHash, tag: Tag, now: Time, x: IdHash)
    requires MayJoin(c, l, n, id, now) && CountsFit(l.windows)
    requires x in Join(c, l, n, id, tag, now).windows
    ensures EntryOk(c, Join(c, l, n, id, tag, now), x)
  {
    hide EntryOk, Inv, EnterWindow;
    if x == id {
      JoinOwnEntry(c, l, n, id, tag, now);
    } else {
      JoinOtherEntry(c, l, n, id, tag, now, x);
    }
  }

  lemma JoinReservation(c: Config, l: Ledger, n: nat, id: IdHash, tag: Tag, now: Time, m: nat)
    requires MayJoin(c, l, n, id, now) && CountsFit(l.windows)
    requires m in Join(c, l, n, id, tag, now).reservations
    ensures ReservationOk(c, Join(c, l, n, id, tag, now), m)
  {
    hide ReservationOk, Inv, EnterWindow;
    if m == n {
      JoinNewReservation(c, l, n, id, tag, now);
    } else {
      JoinOldReservation(c, l, n, id, tag, now, m);
    }
  }

  lemma JoinAgrees(c: Config, l: Ledger, n: nat, id: IdHash, tag: Tag, now: Time)
    requires MayJoin(c, l, n, id, now) && CountsFit(l.windows)
    ensures Agree(c, Join(c, l, n, id, tag, now))
  {
    hide EntryOk, ReservationOk, EnterWindow;
    var l' := Join(c, l, n, id, tag, now);
    forall x | x in l'.windows ensures EntryOk(c, l', x) {
      JoinEntry(c, l, n, id, tag, now, x);
    }
    forall m | m in l'.reservations ensures ReservationOk(c, l', m) {
      JoinReservation(c, l, n, id, tag, now, m);
    }
    JoinAttached(c, l, n, id, tag, now);
  }

  lemma JoinAttached(c: Config, l: Ledger, n: nat, id: IdHash, tag: Tag, now: Time)
    requires MayJoin(c, l, n, id, now) && CountsFit(l.windows)
    ensures var l' := Join(c, l, n, id, tag, now);
      forall m | m in l'.attached :: l'.attached[m].window in l'.reservations
  {
    EnterCases(c, FoundWindow(l, id, now), tag, now);
    if id in l.windows {
      assert EntryOk(c, l, id);
    }
  }

  lemma JoinKeeps(c: Config, l: Ledger, n: nat, id: IdHash, tag: Tag, now: Time)
    requires MayJoin(c, l, n, id, now) && CountsFit(l.windows)
    ensures Inv(c, Join(c, l, n, id, tag, now))
  {
    hide EntryOk, ReservationOk, CloseTogether;
    var l' := Join(c, l, n, id, tag, now);
    JoinAgrees(c, l, n, id, tag, now);
    forall p, q | p in l'.reservations && q in l'.reservations
      ensures CloseTogether(c, l'.reservations, p, q) {
      JoinPair(c, l, n, id, tag, now, p, q);
    }
    forall w: nat ensures |Kept(l'.reservations, w)| <= c.maxAttempts {
      JoinBudget(c, l, l', n, id, w);
    }
  }

  lemma JoinPair(c: Config, l: Ledger, n: nat, id: IdHash, tag: Tag, now: Time, p: nat, q: nat)
    requires MayJoin(c, l, n, id, now) && CountsFit(l.windows)
    requires p in Join(c, l, n, id, tag, now).reservations
    requires q in Join(c, l, n, id, tag, now).reservations
    ensures CloseTogether(c, Join(c, l, n, id, tag, now).reservations, p, q)
  {
    if p == n {
      JoinCloseTogether(c, l, n, id, tag, now, q);
    } else if q == n {
      JoinCloseTogether(c, l, n, id, tag, now, p);
    } else {
      assert CloseTogether(c, l.reservations, p, q);
    }
  }

  // ----- admission

  ghost predicate MayAdmit(c: Config, l: Ledger, n: nat, now: Time) {
    && c.Valid() && Inv(c, l)
    && n !in l.reservations && n !in l.attached
    && l.clock - c.skew <= now <= l.clock
  }

  /** After its own removals, an admission that is not refused may join. */
  lemma RoomToJoin(c: Config, l: Ledger, n: nat, id: IdHash, now: Time)
    requires MayAdmit(c, l, n, now)
    ensures var room := Purge(c, l.windows, id, now);
      && DropsOnlyExpired(c, l.windows, room, now)
      && Inv(c, DropTo(l, room))
      && CountsFit(room)
      && (id in room || |room| < c.maxIdentifiers ==> MayJoin(c, DropTo(l, room), n, id, now))
  {
    hide EntryOk, ReservationOk, CloseTogether;
    var room := Purge(c, l.windows, id, now);
    PurgeDropsOnlyExpired(c, l.windows, id, now);
    DropKeeps(c, l, room, now);
    CountsAlwaysFit(c, DropTo(l, room));
  }

  lemma PurgeFits(c: Config, ws: Windows, id: IdHash, now: Time)
    requires CountsFit(ws)
    ensures CountsFit(Purge(c, ws, id, now))
  {
    PurgeDropsOnlyExpired(c, ws, id, now);
  }

  lemma VisitAnswers(c: Config, ws: Windows, id: IdHash, tag: Tag, now: Time)
    requires CountsFit(ws)
    ensures !Visit(c, ws, id, tag, now).1.Refused?
  {
  }

  /** The ledger's map is the limiter's map. */
  lemma AdmittedWindows(c: Config, l: Ledger, n: nat, id: IdHash, tag: Tag, now: Time)
    requires CountsFit(l.windows)
    ensures Admitted(c, l, n, id, tag, now).windows == Admit(c, l.windows, id, tag, now).0
  {
    hide Visit;
    PurgeFits(c, l.windows, id, now);
    VisitAnswers(c, Purge(c, l.windows, id, now), id, tag, now);
  }

  lemma AdmittedKeeps(c: Config, l: Ledger, n: nat, id: IdHash, tag: Tag, now: Time)
    requires MayAdmit(c, l, n, now) && CountsFit(l.windows)
    ensures Inv(c, Admitted(c, l, n, id, tag, now))
  {
    hide Inv, Purge, MayJoin, EnterWindow;
    RoomToJoin(c, l, n, id, now);
    var room := Purge(c, l.windows, id, now);
    if id in room || |room| < c.maxIdentifiers {
      JoinKeeps(c, DropTo(l, room), n, id, tag, now);
    }
  }

  // ----- completing a reservation

  ghost predicate MayComplete(c: Config, l: Ledger, n: nat, how: Completion) {
    && c.Valid() && Inv(c, l)
    && n in l.reservations && l.reservations[n].fate == Open
    && (l.reservations[n].looked <==> !how.Result().Failed?)
  }

  /** An owner's completion acts exactly when its own window is still there. */
  lemma ActsIffLive(c: Config, l: Ledger, n: nat)
    requires Agree(c, l) && n in l.reservations && l.reservations[n].fate == Open
    ensures Acts(l.windows, l.reservations[n].claim) <==> Live(l, n)
  {
    assert ReservationOk(c, l, n);
    var claim := l.reservations[n].claim;
    if Live(l, n) {
      assert EntryOk(c, l, claim.id);
      assert HolderOk(l.reservations, claim.id, l.windows[claim.id], l.books[claim.id], claim.tag);
    }
  }

  /** Both completion paths treat a failure alike, since no entry is empty. */
  lemma ReleaseIsFailedFinalize(ws: Windows, claim: Claim)
    requires claim.id in ws ==> |ws[claim.id].candidates| >= 1
    ensures RemovePending(ws, claim) == Finalize(ws, claim, Failed)
  {
  }

  /** The failed count has room for the miss of an open reservation. */
  lemma MissFits(c: Config, l: Ledger, n: nat)
    requires c.Valid() && Inv(c, l)
    requires n in l.reservations && l.reservations[n].fate == Open
    ensures |Misses(l.reservations, l.reservations[n].window)| < c.maxAttempts
  {
    var w := l.reservations[n].window;
    SubsetSize(Misses(l.reservations, w) + {n}, Kept(l.reservations, w));
  }

  lemma CommittedEntry(
    c: Config, id: IdHash, w: Window, b: Book, clock: Time,
    rs: Reservations, attached: map<nat, Attachment>, n: nat, fate: Fate)
    requires WindowOk(c, clock, id, w, b, rs, attached)
    requires n in rs && rs[n].fate == Open && rs[n].claim.tag in b.holders && b.holders[rs[n].claim.tag] == n
    requires fate in {Hit, Miss} && rs[n].window == b.opener
    requires |Misses(rs, b.opener)| < U8_MAX
    ensures WindowOk(c, clock, id,
      w.(candidates := w.candidates[rs[n].claim.tag := Committed],
         failed := if fate == Miss then w.failed + 1 else w.failed),
      b, rs[n := rs[n].(fate := fate)], attached)
  {
    var tag := rs[n].claim.tag;
    var rs' := rs[n := rs[n].(fate := fate)];
    var w' := w.(candidates := w.candidates[tag := Committed],
                 failed := if fate == Miss then w.failed + 1 else w.failed);
    MissesAfter(rs, n, rs'[n], b.opener);
    assert w'.candidates.Keys == w.candidates.Keys;
    assert |w'.candidates| == |w'.candidates.Keys| == |w.candidates|;
    assert HolderOk(rs, id, w, b, tag);
    forall t | t in w'.candidates ensures HolderOk(rs', id, w', b, t) {
      assert HolderOk(rs, id, w, b, t);
    }
  }

  lemma RefundedEntry(
    c: Config, id: IdHash, w: Window, b: Book, clock: Time,
    rs: Reservations, attached: map<nat, Attachment>, n: nat)
    requires WindowOk(c, clock, id, w, b, rs, attached)
    requires n in rs && rs[n].fate == Open && rs[n].claim.tag in b.holders && b.holders[rs[n].claim.tag] == n
    requires w.candidates - {rs[n].claim.tag} != map[] && rs[n].window == b.opener
    ensures WindowOk(c, clock, id,
      w.(candidates := w.candidates - {rs[n].claim.tag}),
      b.(holders := b.holders - {rs[n].claim.tag}), rs[n := rs[n].(fate := Refunded)], attached)
  {
    var tag := rs[n].claim.tag;
    var rs' := rs[n := rs[n].(fate := Refunded)];
    var w' := w.(candidates := w.candidates - {tag});
    var b' := b.(holders := b.holders - {tag});
    MissesAfter(rs, n, rs'[n], b.opener);
    assert w'.candidates.Keys == w.candidates.Keys - {tag};
    SubsetSize(w'.candidates.Keys, w.candidates.Keys);
    forall t | t in w'.candidates ensures HolderOk(rs', id, w', b', t) {
      assert HolderOk(rs, id, w, b, t);
    }
  }

  /** The three things a completion can do: nothing, commit, or refund. */
  ghost predicate CompletionCases(l: Ledger, n: nat, how: Completion, l': Ledger)
    requires n in l.reservations
  {
    var r := l.reservations[n];
    var id := r.claim.id;
    var fate := if !Live(l, n) then Dropped
                else if how.Result().Found? then Hit else if how.Result().Absent? then Miss else Refunded;
    var rs := l.reservations[n := r.(fate := fate)];
    if fate == Dropped then
      l' == l.(reservations := rs)
    else if id !in l.windows || id !in l.books then
      false
    else if fate != Refunded then
      l' == l.(reservations := rs, windows := l.windows[id := l.windows[id].(
        candidates := l.windows[id].candidates[r.claim.tag := Committed],
        failed := SaturatingInc(l.windows[id].failed, if fate == Miss then U8_MAX else l.windows[id].failed))])
    else if l.windows[id].candidates - {r.claim.tag} != map[] then
      l' == l.(reservations := rs,
        windows := l.windows[id := l.windows[id].(candidates := l.windows[id].candidates - {r.claim.tag})],
        books := l.books[id := l.books[id].(holders := l.books[id].holders - {r.claim.tag})])
    else
      l' == l.(reservations := rs, windows := l.windows - {id}, books := l.books - {id})
  }

  lemma CompletedCases(c: Config, l: Ledger, n: nat, how: Completion)
    requires MayComplete(c, l, n, how)
    ensures CompletionCases(l, n, how, Completed(l, n, how))
  {
    var claim := l.reservations[n].claim;
    ActsIffLive(c, l, n);
    if claim.id in l.windows {
      assert EntryOk(c, l, claim.id);
    }
    if how.Removed? {
      ReleaseIsFailedFinalize(l.windows, claim);
    }
  }

  lemma CompletedEntry(c: Config, l: Ledger, n: nat, how: Completion, l': Ledger, x: IdHash)
    requires MayComplete(c, l, n, how) && CompletionCases(l, n, how, l')
    requires x in l'.windows
    ensures x in l'.books && EntryOk(c, l', x)
  {
    hide EntryOk, ReservationOk, CloseTogether;
    if x == l.reservations[n].claim.id && Live(l, n) {
      CompletedOwnEntry(c, l, n, how, l');
    } else {
      CompletedElsewhere(c, l, n, x);
      OtherEntry(c, l, l', x, n);
    }
  }

  lemma CompletedElsewhere(c: Config, l: Ledger, n: nat, x: IdHash)
    requires Agree(c, l) && n in l.reservations && x in l.windows
    requires x != l.reservations[n].claim.id || !Live(l, n)
    ensures x in l.books && EntryOk(c, l, x) && l.books[x].opener != l.reservations[n].window
  {
    if x != l.reservations[n].claim.id {
      OtherWindow(c, l, n, x);
    } else {
      assert EntryOk(c, l, x);
    }
  }

  lemma CompletedOwnEntry(c: Config, l: Ledger, n: nat, how: Completion, l': Ledger)
    requires MayComplete(c, l, n, how) && CompletionCases(l, n, how, l') && Live(l, n)
    requires l.reservations[n].claim.id in l'.windows
    ensures l.reservations[n].claim.id in l'.books && EntryOk(c, l', l.reservations[n].claim.id)
  {
    var x := l.reservations[n].claim.id;
    assert ReservationOk(c, l, n);
    assert EntryOk(c, l, x);
    MissFits(c, l, n);
    if how.Result().Failed? {
      RefundedEntry(c, x, l.windows[x], l.books[x], l.clock, l.reservations, l.attached, n);
    } else {
      CommittedEntry(c, x, l.windows[x], l.books[x], l.clock, l.reservations, l.attached, n,
                     l'.reservations[n].fate);
    }
  }

  lemma OtherWindow(c: Config, l: Ledger, n: nat, x: IdHash)
    requires Agree(c, l) && n in l.reservations && x in l.windows && x != l.reservations[n].claim.id
    ensures x in l.books && EntryOk(c, l, x) && l.books[x].opener != l.reservations[n].window
  {
    assert EntryOk(c, l, x);
    assert ReservationOk(c, l, n);
  }

  lemma CompletedReservation(c: Config, l: Ledger, n: nat, how: Completion, l': Ledger, m: nat)
    requires MayComplete(c, l, n, how) && CompletionCases(l, n, how, l')
    requires m in l'.reservations
    ensures ReservationOk(c, l', m)
  {
    if m == n {
      assert ReservationOk(c, l, n);
    } else {
      CompletedOtherReservation(c, l, n, how, l', m);
    }
  }

  lemma CompletedOtherReservation(c: Config, l: Ledger, n: nat, how: Completion, l': Ledger, m: nat)
    requires MayComplete(c, l, n, how) && CompletionCases(l, n, how, l')
    requires m in l.reservations && m != n
    ensures ReservationOk(c, l', m)
  {
    assert ReservationOk(c, l, m);
    if Live(l, n) && l.reservations[m].claim.id == l.reservations[n].claim.id {
      SameWindowHolders(c, l, n, m);
    }
  }

  /** Two live unrefunded records of one window hold two of its candidates. */
  lemma SameWindowHolders(c: Config, l: Ledger, n: nat, m: nat)
    requires Agree(c, l) && n in l.reservations && m in l.reservations && m != n
    requires Live(l, n) && l.reservations[n].fate == Open
    requires l.reservations[m].claim.id == l.reservations[n].claim.id
    ensures var id := l.reservations[n].claim.id;
      && id in l.windows && l.books[id].newest in l.reservations
      && l.books[id].holders.Keys == l.windows[id].candidates.Keys
    ensures Live(l, m) && l.reservations[m].fate != Refunded ==>
      && l.reservations[m].claim.tag != l.reservations[n].claim.tag
      && l.reservations[m].claim.tag in l.windows[l.reservations[n].claim.id].candidates
      && l.windows[l.reservations[n].claim.id].candidates - {l.reservations[n].claim.tag} != map[]
  {
    assert ReservationOk(c, l, n) && ReservationOk(c, l, m);
    var id := l.reservations[n].claim.id;
    assert EntryOk(c, l, id);
    if Live(l, m) && l.reservations[m].fate != Refunded {
      assert l.reservations[m].claim.tag in l.windows[id].candidates - {l.reservations[n].claim.tag};
    }
  }

  lemma CompletedBudget(c: Config, l: Ledger, n: nat, r: Reservation, w: nat)
    requires Inv(c, l) && n in l.reservations
    requires r == l.reservations[n].(fate := r.fate) && l.reservations[n].fate == Open
    ensures |Kept(l.reservations[n := r], w)| <= c.maxAttempts
  {
    SubsetSize(Kept(l.reservations[n := r], w), Kept(l.reservations, w));
  }

  lemma CompletedPair(c: Config, l: Ledger, n: nat, r: Reservation, p: nat, q: nat)
    requires Inv(c, l) && n in l.reservations && p in l.reservations && q in l.reservations
    requires r == l.reservations[n].(fate := r.fate) && l.reservations[n].fate == Open
    ensures CloseTogether(c, l.reservations[n := r], p, q)
  {
    assert CloseTogether(c, l.reservations, p, q);
  }

  lemma CompletedKeeps(c: Config, l: Ledger, n: nat, how: Completion)
    requires MayComplete(c, l, n, how)
    ensures Inv(c, Completed(l, n, how))
  {
    hide EntryOk, ReservationOk, CloseTogether, Completed;
    var l' := Completed(l, n, how);
    CompletedCases(c, l, n, how);
    CompletedShape(c, l, n, how, l');
    forall x | x in l'.windows ensures EntryOk(c, l', x) {
      CompletedEntry(c, l, n, how, l', x);
    }
    forall m | m in l'.reservations ensures ReservationOk(c, l', m) {
      CompletedReservation(c, l, n, how, l', m);
    }
    forall p, q | p in l'.reservations && q in l'.reservations
      ensures CloseTogether(c, l'.reservations, p, q) {
      CompletedPair(c, l, n, l'.reservations[n], p, q);
    }
    forall w: nat ensures |Kept(l'.reservations, w)| <= c.maxAttempts {
      CompletedBudget(c, l, n, l'.reservations[n], w);
    }
  }

  lemma CompletedShape(c: Config, l: Ledger, n: nat, how: Completion, l': Ledger)
    requires MayComplete(c, l, n, how) && CompletionCases(l, n, how, l')
    ensures Inv(c, l) && n in l.reservations && l.reservations[n].fate == Open
    ensures n in l'.reservations && l'.reservations[n] == l.reservations[n].(fate := l'.reservations[n].fate)
    ensures l'.reservations == l.reservations[n := l'.reservations[n]]
    ensures l'.attached == l.attached
    ensures l'.books.Keys == l'.windows.Keys && |l'.windows| <= |l.windows|
  {
    var id := l.reservations[n].claim.id;
    assert l'.windows.Keys <= l.windows.Keys;
    SubsetSize(l'.windows.Keys, l.windows.Keys);
  }

  // ----- a lookup returns

  lemma LookupReturnedKeeps(c: Config, l: Ledger, n: nat)
    requires c.Valid() && Inv(c, l)
    requires n in l.reservations && l.reservations[n].fate == Open
    ensures Inv(c, LookupReturned(l, n))
  {
    hide EntryOk, ReservationOk, CloseTogether;
    var l' := LookupReturned(l, n);
    forall x | x in l'.windows ensures EntryOk(c, l', x) {
      LookedEntry(c, l, n, x);
    }
    forall m | m in l'.reservations ensures ReservationOk(c, l', m) {
      LookedReservation(c, l, n, m);
    }
    forall p, q | p in l'.reservations && q in l'.reservations
      ensures CloseTogether(c, l'.reservations, p, q) {
      LookedPair(c, l, n, p, q);
    }
    forall w: nat ensures |Kept(l'.reservations, w)| <= c.maxAttempts {
      assert Kept(l'.reservations, w) == Kept(l.reservations, w);
    }
  }

  lemma LookedEntry(c: Config, l: Ledger, n: nat, x: IdHash)
    requires Agree(c, l) && n in l.reservations && l.reservations[n].fate == Open
    requires x in l.windows
    ensures x in l.books && EntryOk(c, LookupReturned(l, n), x)
  {
    assert EntryOk(c, l, x);
    var l' := LookupReturned(l, n);
    MissesAfter(l.reservations, n, l'.reservations[n], l.books[x].opener);
    forall t | t in l.windows[x].candidates ensures HolderOk(l'.reservations, x, l.windows[x], l.books[x], t) {
      assert HolderOk(l.reservations, x, l.windows[x], l.books[x], t);
    }
  }

  lemma LookedReservation(c: Config, l: Ledger, n: nat, m: nat)
    requires Agree(c, l) && n in l.reservations && l.reservations[n].fate == Open
    requires m in l.reservations
    ensures ReservationOk(c, LookupReturned(l, n), m)
  {
    assert ReservationOk(c, l, m);
  }

  lemma LookedPair(c: Config, l: Ledger, n: nat, p: nat, q: nat)
    requires Inv(c, l) && n in l.reservations && p in l.reservations && q in l.reservations
    ensures CloseTogether(c, LookupReturned(l, n).reservations, p, q)
  {
    assert CloseTogether(c, l.reservations, p, q);
  }
}