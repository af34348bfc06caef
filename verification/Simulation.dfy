/** For a standard queue without redrive, the timer-driven in-memory store and the lazy SQLite store simulate each
    other: timer callbacks are stutter steps, everything else gives the same replies, up to the fractions of a
    millisecond that the table does not keep. */
module Simulation {
  import opened StoreTypes
  import opened MemorySpec
  import opened MemoryInvariants
  import opened MemoryRuns
  import opened SqliteSpec

  predicate Standard(cfg: Config) {
    !cfg.isFifo && (cfg.maxReceiveCount <= 0 || !cfg.hasRedrive)
  }

  // ---------------------------------------------------------------- the relation

  /** Row r stores what entry e stores, times in whole milliseconds. The entry's handle may be blank only when its
      visibility has run out. */
  ghost predicate Mirrors(now: int, e: Entry, r: Row) {
    && r.body == e.msg.body && r.groupId == e.msg.groupId && r.dedupId == e.msg.dedupId
    && r.sequenceNumber == e.msg.sequenceNumber
    && r.sentTimestamp == Millis(e.msg.sentTimestamp)
    && r.visibleAt == Millis(e.visibleAt)
    && r.receiveCount == e.receiveCount
    && (r.handle == e.handle || (e.handle == NO_HANDLE && e.visibleAt <= now))
  }

  ghost function Ids(es: seq<Entry>): set<string> {
    set e | e in es :: e.msg.id
  }

  /** Ids are unique and send times never decrease along the list. */
  ghost predicate Spread(es: seq<Entry>) {
    forall i, j :: 0 <= i < j < |es| ==> es[i].msg.id != es[j].msg.id && es[i].msg.sentTimestamp <= es[j].msg.sentTimestamp
  }

  ghost predicate AllSent(now: int, es: seq<Entry>) {
    forall e :: e in es ==> e.msg.sentTimestamp <= now
  }

  ghost predicate RowHandles(rows: map<string, Row>, nextHandle: nat) {
    && (forall id :: id in rows ==> rows[id].handle < nextHandle)
    && (forall a, b :: a in rows && b in rows && a != b && rows[a].handle != NO_HANDLE ==> rows[a].handle != rows[b].handle)
  }

  ghost predicate Stores(now: int, es: seq<Entry>, rows: map<string, Row>) {
    && rows.Keys == Ids(es)
    && forall i :: 0 <= i < |es| ==> es[i].msg.id in rows && Mirrors(now, es[i], rows[es[i].msg.id])
  }

  ghost predicate Related(now: int, s: State, t: Table) {
    && Inv(s) && Standard(s.cfg) && t.cfg == s.cfg && !s.closed && !t.closed && t.nextHandle == s.nextHandle
    && Spread(s.entries) && AllSent(now, s.entries)
    && Stores(now, s.entries, t.rows)
    && RowHandles(t.rows, t.nextHandle)
  }

  // ---------------------------------------------------------------- one entry and its row

  lemma UpdateStores(now: int, es: seq<Entry>, rows: map<string, Row>, i: nat, e': Entry, r': Row)
    requires Stores(now, es, rows) && Spread(es) && i < |es| && e'.msg.id == es[i].msg.id
    requires Mirrors(now, e', r')
    ensures Stores(now, es[i := e'], rows[e'.msg.id := r'])
  {
    var es', rows' := es[i := e'], rows[e'.msg.id := r'];
    forall j | 0 <= j < |es'| ensures es'[j].msg.id in rows' && Mirrors(now, es'[j], rows'[es'[j].msg.id]) {
      if j != i { assert es[j].msg.id != es[i].msg.id by { assert j < i || i < j; } }
    }
    SameIds(es, es');
  }

  lemma SameIds(es: seq<Entry>, es': seq<Entry>)
    requires |es| == |es'| && forall i :: 0 <= i < |es| ==> es[i].msg.id == es'[i].msg.id
    ensures Ids(es) == Ids(es')
  {
    forall id ensures id in Ids(es) <==> id in Ids(es') {
      if id in Ids(es) { var i :| 0 <= i < |es| && es[i].msg.id == id; assert es'[i] in es'; }
      if id in Ids(es') { var i :| 0 <= i < |es'| && es'[i].msg.id == id; assert es[i] in es; }
    }
  }

  lemma StillSpread(now: int, es: seq<Entry>, i: nat, e': Entry)
    requires Spread(es) && AllSent(now, es)
    requires i < |es| && e'.msg.id == es[i].msg.id && e'.msg.sentTimestamp == es[i].msg.sentTimestamp
    ensures Spread(es[i := e']) && AllSent(now, es[i := e'])
  {
    assert es[i] in es;
  }

  lemma SpreadIds(es: seq<Entry>, i: nat, j: nat)
    requires Spread(es) && i < |es| && j < |es| && es[i].msg.id == es[j].msg.id
    ensures i == j
  {
  }

  lemma RemoveStores(now: int, es: seq<Entry>, rows: map<string, Row>, i: nat)
    requires Stores(now, es, rows) && Spread(es) && i < |es|
    ensures Stores(now, es[..i] + es[i + 1..], rows - {es[i].msg.id})
  {
    var es' := es[..i] + es[i + 1..];
    forall j | 0 <= j < |es'|
      ensures es'[j].msg.id in rows - {es[i].msg.id} && Mirrors(now, es'[j], rows[es'[j].msg.id])
    {
      var was := if j < i then j else j + 1;
      assert es'[j] == es[was] && Mirrors(now, es[was], rows[es[was].msg.id]);
      assert es[was].msg.id != es[i].msg.id by { assert was < i || i < was; }
    }
    RemovedIds(es, i);
  }

  lemma RemovedIds(es: seq<Entry>, i: nat)
    requires Spread(es) && i < |es|
    ensures Ids(es[..i] + es[i + 1..]) == Ids(es) - {es[i].msg.id}
  {
    var es' := es[..i] + es[i + 1..];
    forall j | 0 <= j < |es'| ensures es'[j].msg.id != es[i].msg.id && es'[j] in es {
      assert es'[j] == if j < i then es[j] else es[j + 1];
    }
    forall id | id in Ids(es) && id != es[i].msg.id ensures id in Ids(es') {
      var j :| 0 <= j < |es| && es[j].msg.id == id;
      assert es[j] == if j < i then es'[j] else es'[j - 1];
    }
  }

  lemma RemovedSpread(now: int, es: seq<Entry>, i: nat)
    requires Spread(es) && AllSent(now, es) && i < |es|
    ensures Spread(es[..i] + es[i + 1..]) && AllSent(now, es[..i] + es[i + 1..])
  {
  }

  lemma AppendStores(now: int, es: seq<Entry>, rows: map<string, Row>, n: Entry, r: Row)
    requires Stores(now, es, rows) && n.msg.id !in rows && Mirrors(now, n, r)
    ensures Stores(now, es + [n], rows[n.msg.id := r])
  {
    var es', rows' := es + [n], rows[n.msg.id := r];
    forall i | 0 <= i < |es'| ensures es'[i].msg.id in rows' && Mirrors(now, es'[i], rows'[es'[i].msg.id]) {
      if i < |es| { assert es'[i] == es[i]; }
    }
    assert Ids(es') == Ids(es) + {n.msg.id} by { assert n in es'; }
  }

  /** Row id keeps its handle, loses it, or gets one never used before. */
  lemma UpdateRowHandles(rows: map<string, Row>, next: nat, id: string, r: Row, next': nat)
    requires RowHandles(rows, next) && next <= next'
    requires r.handle == NO_HANDLE < next' || (id in rows && r.handle == rows[id].handle) || next <= r.handle < next'
    ensures RowHandles(rows[id := r], next')
  {
  }

  // ---------------------------------------------------------------- send, clock, timers, purge

  /** The in-memory store accepts every send, the table the sends under an id it does not hold; then both return the
      same message and stay related. */
  lemma SendSimulates(now: int, s: State, t: Table, msg: Message, delay: int)
    requires Related(now, s, t)
    ensures Send(s, now, msg, delay).1.SendAccepted?
    ensures Insert(t, now, msg, delay).1.Inserted? <==> msg.id !in t.rows
    ensures msg.id !in t.rows ==>
              && Related(now, Send(s, now, msg, delay).0, Insert(t, now, msg, delay).0)
              && Send(s, now, msg, delay).1.msg == Insert(t, now, msg, delay).1.msg
  {
    if msg.id !in t.rows {
      SendInv(s, now, msg, delay);
      var s', t' := Send(s, now, msg, delay).0, Insert(t, now, msg, delay).0;
      var n := s'.entries[|s.entries|];
      assert s'.entries == s.entries + [n];
      AppendStores(now, s.entries, t.rows, n, t'.rows[msg.id]);
      UpdateRowHandles(t.rows, t.nextHandle, msg.id, t'.rows[msg.id], t.nextHandle);
      LaterIsSpread(s.entries, n);
    }
  }

  lemma LaterIsSpread(es: seq<Entry>, n: Entry)
    requires Spread(es) && n.msg.id !in Ids(es) && AllSent(n.msg.sentTimestamp, es)
    ensures Spread(es + [n])
  {
    forall i | 0 <= i < |es| ensures es[i].msg.id != n.msg.id && es[i].msg.sentTimestamp <= n.msg.sentTimestamp {
      assert es[i] in es;
    }
  }

  lemma TickSimulates(now: int, s: State, t: Table, elapsed: nat)
    requires Related(now, s, t)
    ensures Related(now + elapsed, s, t)
  {
    forall i | 0 <= i < |s.entries| ensures Mirrors(now + elapsed, s.entries[i], t.rows[s.entries[i].msg.id]) {
      assert Mirrors(now, s.entries[i], t.rows[s.entries[i].msg.id]);
    }
  }

  /** A timer callback is a stutter step of the table. */
  lemma FireStutters(now: int, s: State, t: Table, timer: nat)
    requires Related(now, s, t)
    ensures Related(now, Fire(s, now, timer).0, t) && Fire(s, now, timer).1.None?
  {
    FireInv(s, now, timer);
    if timer in s.armed && s.armed[timer].deadline <= now {
      TimerFindsItsMessage(s, timer);
      var i := FindKey(s.entries, s.armed[timer].key);
      var e := s.entries[i];
      var e' := e.(handle := NO_HANDLE, timer := None, msg := e.msg.(isVisible := true));
      assert Mirrors(now, e, t.rows[e.msg.id]);
      UpdateStores(now, s.entries, t.rows, i, e', t.rows[e.msg.id]);
      assert t.rows[e.msg.id := t.rows[e.msg.id]] == t.rows;
      StillSpread(now, s.entries, i, e');
    }
  }

  lemma PurgeSimulates(now: int, s: State, t: Table)
    requires Related(now, s, t)
    ensures Related(now, Purge(s), PurgeRows(t).0)
  {
    PurgeInv(s);
  }

  // ---------------------------------------------------------------- deletes and visibility changes

  /** A row is still under h although its message has no handle any more: h is empty, or it ran out and the in-memory
      store's timer has already taken it back. */
  ghost predicate Spent(s: State, t: Table, h: Handle) {
    exists i :: 0 <= i < |s.entries| && s.entries[i].handle == NO_HANDLE
                && s.entries[i].msg.id in t.rows && t.rows[s.entries[i].msg.id].handle == h
  }

  /** A non-empty handle whose visibility has not run out, or one the table does not know. */
  ghost predicate Unexpired(now: int, t: Table, h: Handle) {
    h != NO_HANDLE && forall id :: id in t.rows && t.rows[id].handle == h ==> t.rows[id].visibleAt > Millis(now)
  }

  lemma UnexpiredIsNotSpent(now: int, s: State, t: Table, h: Handle)
    requires Related(now, s, t) && Unexpired(now, t, h)
    ensures !Spent(s, t, h)
  {
    forall i | 0 <= i < |s.entries| && s.entries[i].handle == NO_HANDLE
      ensures t.rows[s.entries[i].msg.id].handle != h
    {
      assert Mirrors(now, s.entries[i], t.rows[s.entries[i].msg.id]);
    }
  }

  /** Unless h is spent, both stores find the same message under h, or both find none. */
  lemma SameHolder(now: int, s: State, t: Table, h: Handle)
    requires Related(now, s, t)
    ensures var i := FindHandle(s.entries, h);
            if i < |s.entries| then !Spent(s, t, h) && WithHandle(t.rows, h) == {s.entries[i].msg.id}
            else WithHandle(t.rows, h) != {} <==> Spent(s, t, h)
  {
    var i := FindHandle(s.entries, h);
    if i < |s.entries| {
      var id := s.entries[i].msg.id;
      assert Mirrors(now, s.entries[i], t.rows[id]);
      forall j | 0 <= j < |s.entries| && t.rows[s.entries[j].msg.id].handle == h ensures j == i {
        SpreadIds(s.entries, i, if s.entries[j].msg.id == id then j else i);
      }
    } else {
      forall id | id in WithHandle(t.rows, h) ensures Spent(s, t, h) {
        var j :| 0 <= j < |s.entries| && s.entries[j].msg.id == id;
        assert Mirrors(now, s.entries[j], t.rows[id]);
      }
      if Spent(s, t, h) {
        var j :| 0 <= j < |s.entries| && s.entries[j].handle == NO_HANDLE
                 && s.entries[j].msg.id in t.rows && t.rows[s.entries[j].msg.id].handle == h;
        assert s.entries[j].msg.id in WithHandle(t.rows, h);
      }
    }
  }

  /** The two stores agree on a delete exactly when the handle is not spent, and then stay related. */
  lemma DeleteAgrees(now: int, s: State, t: Table, h: Handle)
    requires Related(now, s, t)
    ensures (Delete(s, h).1 <==> DeleteRows(t, h).1.Updated?) <==> !Spent(s, t, h)
    ensures !Spent(s, t, h) ==> Related(now, Delete(s, h).0, DeleteRows(t, h).0)
  {
    SameHolder(now, s, t, h);
    var i := FindHandle(s.entries, h);
    if i < |s.entries| {
      DeleteSimulates(now, s, t, i, h);
    } else if !Spent(s, t, h) {
      assert t.rows - {} == t.rows;
    }
  }

  lemma DeleteSimulates(now: int, s: State, t: Table, i: nat, h: Handle)
    requires Related(now, s, t) && i == FindHandle(s.entries, h) < |s.entries|
    requires WithHandle(t.rows, h) == {s.entries[i].msg.id}
    ensures Related(now, Delete(s, h).0, DeleteRows(t, h).0)
  {
    DeleteInv(s, h);
    RemoveStores(now, s.entries, t.rows, i);
    RemovedSpread(now, s.entries, i);
    var s', t' := Delete(s, h).0, DeleteRows(t, h).0;
    assert s' == Remove(s, i).(notify := true) && t' == t.(rows := t.rows - {s.entries[i].msg.id});
    assert s'.entries == s.entries[..i] + s.entries[i + 1..];
    hide Inv, Mirrors, Stores, Spread, AllSent, Delete, DeleteRows, Remove;
  }

  /** The same for a change of visibility. */
  lemma ChangeVisibilityAgrees(now: int, s: State, t: Table, h: Handle, timeout: int)
    requires Related(now, s, t)
    ensures (ChangeVisibility(s, now, h, timeout).1 <==> UpdateVisibility(t, now, h, timeout).1.Updated?) <==> !Spent(s, t, h)
    ensures !Spent(s, t, h) ==>
              Related(now, ChangeVisibility(s, now, h, timeout).0, UpdateVisibility(t, now, h, timeout).0)
  {
    SameHolder(now, s, t, h);
    ChangeVisibilityInv(s, now, h, timeout);
    var i := FindHandle(s.entries, h);
    if i < |s.entries| {
      ChangeVisibilitySimulates(now, s, t, i, h, timeout);
    } else if !Spent(s, t, h) {
      assert UpdateVisibility(t, now, h, timeout).0.rows == t.rows by {
        SetVisibleNone(t.rows, h, Millis(now), NO_HANDLE);
        SetVisibleNone(t.rows, h, Millis(now + timeout * SECOND), h);
      }
    }
  }

  lemma SetVisibleNone(rows: map<string, Row>, h: Handle, at: int, h': Handle)
    requires WithHandle(rows, h) == {}
    ensures SetVisible(rows, h, at, h') == rows
  {
    forall id | id in rows ensures rows[id].handle != h { assert id !in WithHandle(rows, h); }
  }

  lemma SetVisibleOne(rows: map<string, Row>, h: Handle, at: int, h': Handle, id: string)
    requires WithHandle(rows, h) == {id}
    ensures id in rows && rows[id].handle == h
    ensures SetVisible(rows, h, at, h') == rows[id := rows[id].(visibleAt := at, handle := h')]
  {
    assert id in WithHandle(rows, h);
    forall other | other in rows && other != id ensures rows[other].handle != h {
      assert other !in WithHandle(rows, h);
    }
  }

  lemma ChangeVisibilitySimulates(now: int, s: State, t: Table, i: nat, h: Handle, timeout: int)
    requires Related(now, s, t) && i == FindHandle(s.entries, h) < |s.entries|
    requires WithHandle(t.rows, h) == {s.entries[i].msg.id}
    ensures Related(now, ChangeVisibility(s, now, h, timeout).0, UpdateVisibility(t, now, h, timeout).0)
  {
    ChangeVisibilityInv(s, now, h, timeout);
    var e, e' := s.entries[i], ChangeVisibility(s, now, h, timeout).0.entries[i];
    var id := e.msg.id;
    var at := if timeout == 0 then Millis(now) else Millis(now + timeout * SECOND);
    var r' := t.rows[id].(visibleAt := at, handle := if timeout == 0 then NO_HANDLE else h);
    assert Mirrors(now, e, t.rows[id]);
    SetVisibleOne(t.rows, h, at, r'.handle, id);
    assert ChangeVisibility(s, now, h, timeout).0.entries == s.entries[i := e'];
    UpdateStores(now, s.entries, t.rows, i, e', r');
    UpdateRowHandles(t.rows, t.nextHandle, id, r', t.nextHandle);
    StillSpread(now, s.entries, i, e');
  }

  // ---------------------------------------------------------------- receive

  lemma {:induction false} KeptSpread(es: seq<Entry>, cutoff: int)
    requires Spread(es)
    ensures Spread(Kept(es, cutoff))
  {
    if es != [] {
      var front := es[..|es| - 1];
      KeptSpread(front, cutoff);
      KeptMembers(front, cutoff);
      forall i | 0 <= i < |Kept(front, cutoff)|
        ensures Kept(front, cutoff)[i].msg.id != es[|es| - 1].msg.id
                && Kept(front, cutoff)[i].msg.sentTimestamp <= es[|es| - 1].msg.sentTimestamp
      {
        assert Kept(front, cutoff)[i] in Kept(front, cutoff);
      }
    }
  }

  /** Message e was sent before the cutoff, but in the cutoff's millisecond: the table still keeps it. */
  predicate ExpiresEarly(cutoff: int, e: Entry) {
    e.msg.sentTimestamp < cutoff && Millis(e.msg.sentTimestamp) == Millis(cutoff)
  }

  /** Message e is not visible yet, but will be within this millisecond: the table already shows it. */
  predicate ShowsEarly(now: int, e: Entry) {
    now < e.visibleAt && Millis(e.visibleAt) == Millis(now)
  }

  ghost predicate NoneExpiresEarly(now: int, s: State) {
    forall e :: e in s.entries ==> !ExpiresEarly(s.cfg.Cutoff(now), e)
  }

  /** Retention drops the same messages from both stores if and only if none was sent before the cutoff and in the
      cutoff's millisecond; they then stay related. */
  lemma ExpireSimulates(now: int, s: State, t: Table)
    requires Related(now, s, t)
    ensures DeleteExpired(t, now).rows.Keys == Ids(Expire(s, now).entries) <==> NoneExpiresEarly(now, s)
    ensures NoneExpiresEarly(now, s) ==> Related(now, Expire(s, now), DeleteExpired(t, now))
  {
    ExpireInv(s, now);
    var cutoff := s.cfg.Cutoff(now);
    KeptSpread(s.entries, cutoff);
    KeptMembers(s.entries, cutoff);
    assert DeleteExpired(t, now).rows == SentSince(t.rows, Millis(cutoff));
    KeptStores(now, s.entries, t.rows, cutoff);
  }

  function SentSince(rows: map<string, Row>, millis: int): map<string, Row> {
    map id | id in rows && rows[id].sentTimestamp >= millis :: rows[id]
  }

  /** Message e and its row on either side of the cutoff. */
  lemma KeptRow(now: int, es: seq<Entry>, rows: map<string, Row>, cutoff: int, e: Entry)
    requires Stores(now, es, rows) && Spread(es) && e in es
    ensures e.msg.id in rows && Mirrors(now, e, rows[e.msg.id])
    ensures e.msg.id in SentSince(rows, Millis(cutoff)) <==> e.msg.sentTimestamp >= cutoff || ExpiresEarly(cutoff, e)
    ensures e.msg.id in Ids(Kept(es, cutoff)) <==> e.msg.sentTimestamp >= cutoff
  {
    KeptMembers(es, cutoff);
    forall e' | e' in es && e'.msg.id == e.msg.id ensures e' == e {
      SpreadMembers(es, e, e');
    }
  }

  lemma SpreadMembers(es: seq<Entry>, a: Entry, b: Entry)
    requires Spread(es) && a in es && b in es && a.msg.id == b.msg.id
    ensures a == b
  {
    var i :| 0 <= i < |es| && es[i] == a;
    var j :| 0 <= j < |es| && es[j] == b;
    SpreadIds(es, i, j);
  }

  lemma KeptStores(now: int, es: seq<Entry>, rows: map<string, Row>, cutoff: int)
    requires Stores(now, es, rows) && Spread(es)
    ensures SentSince(rows, Millis(cutoff)).Keys == Ids(Kept(es, cutoff))
            <==> forall e :: e in es ==> !ExpiresEarly(cutoff, e)
    ensures SentSince(rows, Millis(cutoff)).Keys == Ids(Kept(es, cutoff)) ==>
              Stores(now, Kept(es, cutoff), SentSince(rows, Millis(cutoff)))
  {
    KeptMembers(es, cutoff);
    var kept, rows' := Kept(es, cutoff), SentSince(rows, Millis(cutoff));
    forall e | e in es
      ensures e.msg.id in rows && Mirrors(now, e, rows[e.msg.id])
      ensures e.msg.id in rows' <==> e.msg.sentTimestamp >= cutoff || ExpiresEarly(cutoff, e)
      ensures e.msg.id in Ids(kept) <==> e.msg.sentTimestamp >= cutoff
    {
      KeptRow(now, es, rows, cutoff, e);
    }
    hide Mirrors, Spread;
    SameKeysIff(es, rows', kept, cutoff);
    forall i | 0 <= i < |kept| && rows'.Keys == Ids(kept)
      ensures kept[i].msg.id in rows' && Mirrors(now, kept[i], rows'[kept[i].msg.id])
    {
      assert kept[i] in kept;
    }
  }

  lemma SameKeysIff(es: seq<Entry>, rows: map<string, Row>, kept: seq<Entry>, cutoff: int)
    requires rows.Keys <= Ids(es) && forall e :: e in kept ==> e in es
    requires forall e :: e in es ==> (e.msg.id in rows <==> e.msg.sentTimestamp >= cutoff || ExpiresEarly(cutoff, e))
    requires forall e :: e in es ==> (e.msg.id in Ids(kept) <==> e.msg.sentTimestamp >= cutoff)
    ensures rows.Keys == Ids(kept) <==> forall e :: e in es ==> !ExpiresEarly(cutoff, e)
  {
    if forall e :: e in es ==> !ExpiresEarly(cutoff, e) {
      forall id ensures id in rows <==> id in Ids(kept) {
        if id in rows { var e :| e in es && e.msg.id == id; }
      }
    } else {
      var e :| e in es && ExpiresEarly(cutoff, e);
      assert e.msg.id in rows && e.msg.id !in Ids(kept);
    }
  }
}
