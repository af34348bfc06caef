/** Receives of related stores: exactly when both hand out the same messages. */
module SimulationReceive {
  import opened StoreTypes
  import opened MemorySpec
  import opened MemoryInvariants
  import opened Ordering
  import opened MemoryRuns
  import opened ReceivePass
  import opened SqliteSpec
  import opened Simulation

  // ---------------------------------------------------------------- what both stores choose from

  /** Unexpired and visible in the in-memory store. */
  predicate Due(now: int, s: State, e: Entry) {
    s.cfg.Cutoff(now) <= e.msg.sentTimestamp && e.visibleAt <= now
  }

  /** Unexpired and visible in the table, which compares whole milliseconds. */
  predicate TableDue(now: int, s: State, e: Entry) {
    Millis(s.cfg.Cutoff(now)) <= Millis(e.msg.sentTimestamp) && Millis(e.visibleAt) <= Millis(now)
  }

  lemma DueIsTableDue(now: int, s: State, e: Entry)
    ensures Due(now, s, e) <==> TableDue(now, s, e) && !ExpiresEarly(s.cfg.Cutoff(now), e) && !ShowsEarly(now, e)
  {
  }

  /** The keys of the due messages, in store order. */
  ghost function DueKeys(now: int, s: State): (keys: seq<nat>)
    ensures |keys| == |EligibleFrom(Expire(s, now), now, 0)|
  {
    var kept := Expire(s, now);
    var all := EligibleFrom(kept, now, 0);
    EligibleFromExact(kept, now, 0);
    assert forall k :: 0 <= k < |all| ==> all[k] in all;
    KeysAt(kept.entries, all)
  }

  ghost function KeysAt(es: seq<Entry>, at: seq<nat>): (keys: seq<nat>)
    requires forall k :: 0 <= k < |at| ==> at[k] < |es|
    ensures |keys| == |at| && forall k :: 0 <= k < |at| ==> keys[k] == es[at[k]].key
  {
    seq(|at|, k requires 0 <= k < |at| => es[at[k]].key)
  }

  lemma KeysAtIncrease(es: seq<Entry>, at: seq<nat>)
    requires forall k :: 0 <= k < |at| ==> at[k] < |es|
    requires forall i, j :: 0 <= i < j < |es| ==> es[i].key < es[j].key
    ensures Increasing(KeysAt(es, at)) <==> Increasing(at)
  {
    forall i, j | 0 <= i < j < |at| ensures KeysAt(es, at)[i] < KeysAt(es, at)[j] <==> at[i] < at[j] {
      KeyOrder(es, at[i], at[j]);
    }
  }

  lemma KeyOrder(es: seq<Entry>, p: nat, q: nat)
    requires p < |es| && q < |es| && forall i, j :: 0 <= i < j < |es| ==> es[i].key < es[j].key
    ensures es[p].key < es[q].key <==> p < q
  {
    assert p < q || p == q || q < p;
  }

  /** With increasing keys, the key at position p is among those at `at` exactly when p is in `at`. */
  lemma KeyAt(es: seq<Entry>, at: seq<nat>, p: nat)
    requires p < |es| && forall k :: 0 <= k < |at| ==> at[k] < |es|
    requires forall i, j :: 0 <= i < j < |es| ==> es[i].key < es[j].key
    ensures es[p].key in KeysAt(es, at) <==> p in at
  {
    var keys := KeysAt(es, at);
    forall k | 0 <= k < |at| ensures keys[k] == es[p].key <==> at[k] == p {
      assert at[k] < p || at[k] == p || p < at[k];
    }
  }

  lemma KeyFrom(es: seq<Entry>, at: seq<nat>, key: nat)
    requires forall k :: 0 <= k < |at| ==> at[k] < |es|
    requires key in KeysAt(es, at)
    ensures exists e :: e in es && e.key == key
  {
    var k :| 0 <= k < |at| && KeysAt(es, at)[k] == key;
    assert es[at[k]] in es;
  }

  lemma DueKeysIncrease(now: int, s: State)
    requires Inv(s)
    ensures Increasing(DueKeys(now, s))
    ensures forall key :: key in DueKeys(now, s) ==>
              exists e :: e in s.entries && e.key == key && s.cfg.Cutoff(now) <= e.msg.sentTimestamp
  {
    var kept := Expire(s, now);
    var all := EligibleFrom(kept, now, 0);
    ExpireInv(s, now);
    InvKeys(kept);
    EligibleFromExact(kept, now, 0);
    assert forall k :: 0 <= k < |all| ==> all[k] in all;
    KeysAtIncrease(kept.entries, all);
    KeptMembers(s.entries, s.cfg.Cutoff(now));
    hide Inv, KeysOk, Increasing, Eligible, EligibleFrom;
    forall key | key in DueKeys(now, s)
      ensures exists e :: e in s.entries && e.key == key && s.cfg.Cutoff(now) <= e.msg.sentTimestamp
    {
      KeyFrom(kept.entries, all, key);
    }
  }

  /** DueKeys holds the keys of the due messages. */
  lemma DueKey(now: int, s: State, e: Entry)
    requires Inv(s) && Standard(s.cfg) && e in s.entries
    ensures e.key in DueKeys(now, s) <==> Due(now, s, e)
  {
    var kept := Expire(s, now);
    KeptMembers(s.entries, s.cfg.Cutoff(now));
    if e in kept.entries {
      ExpireInv(s, now);
      InvKeys(kept);
      EligibleFromExact(kept, now, 0);
      var all := EligibleFrom(kept, now, 0);
      assert forall k :: 0 <= k < |all| ==> all[k] in all;
      var p: nat :| p < |kept.entries| && kept.entries[p] == e;
      hide Inv, Increasing;
      KeyAt(kept.entries, all, p);
      assert Eligible(kept, now, p) <==> e.visibleAt <= now;
    } else {
      DueKeysIncrease(now, s);
      InvKeys(s);
      hide Inv, DueKeys;
      forall e' | e' in s.entries ensures e'.key == e.key ==> e' == e { SameIfSameKey(s, e', e); }
    }
  }

  // ---------------------------------------------------------------- the listing

  ghost function PositionOf(es: seq<Entry>, id: string): (i: nat)
    requires id in Ids(es)
    ensures i < |es| && es[i].msg.id == id
  {
    var i :| 0 <= i < |es| && es[i].msg.id == id; i
  }

  /** Where the listed ids are stored. */
  ghost function Positions(es: seq<Entry>, ids: seq<string>): (at: seq<nat>)
    requires forall k :: 0 <= k < |ids| ==> ids[k] in Ids(es)
    ensures |at| == |ids|
    ensures forall k :: 0 <= k < |ids| ==> at[k] < |es| && es[at[k]].msg.id == ids[k]
  {
    seq(|ids|, k requires 0 <= k < |ids| => PositionOf(es, ids[k]))
  }

  /** The listing follows the order of arrival, also among rows sent in the same millisecond. */
  ghost predicate InStoreOrder(es: seq<Entry>, listing: seq<string>) {
    forall i, j, p, q :: 0 <= i < j < |listing| && 0 <= p < |es| && 0 <= q < |es| ==>
      es[p].msg.id == listing[i] && es[q].msg.id == listing[j] ==> p < q
  }

  lemma ListedAreStored(now: int, s: State, t: Table, listing: seq<string>)
    requires Related(now, s, t) && IsListing(DeleteExpired(t, now).rows, now, listing)
    ensures forall k :: 0 <= k < |listing| ==> listing[k] in Ids(s.entries)
  {
  }

  ghost function ListedKeys(es: seq<Entry>, listing: seq<string>): (keys: seq<nat>)
    requires forall k :: 0 <= k < |listing| ==> listing[k] in Ids(es)
    ensures |keys| == |listing|
  {
    KeysAt(es, Positions(es, listing))
  }

  lemma ListedKeysIncrease(now: int, s: State, t: Table, listing: seq<string>)
    requires Related(now, s, t) && IsListing(DeleteExpired(t, now).rows, now, listing)
    requires InStoreOrder(s.entries, listing)
    requires forall k :: 0 <= k < |listing| ==> listing[k] in Ids(s.entries)
    ensures Increasing(ListedKeys(s.entries, listing))
    ensures forall key :: key in ListedKeys(s.entries, listing) ==> exists e :: e in s.entries && e.key == key
  {
    var at := Positions(s.entries, listing);
    InvKeys(s);
    assert Increasing(at);
    KeysAtIncrease(s.entries, at);
    hide Inv, KeysOk, Increasing, InStoreOrder, Stores;
    forall key | key in ListedKeys(s.entries, listing) ensures exists e :: e in s.entries && e.key == key {
      KeyFrom(s.entries, at, key);
    }
  }

  lemma IdKey(s: State, ids: seq<string>, e: Entry)
    requires KeysOk(s) && Spread(s.entries) && e in s.entries
    requires forall k :: 0 <= k < |ids| ==> ids[k] in Ids(s.entries)
    ensures e.key in ListedKeys(s.entries, ids) <==> e.msg.id in ids
  {
    var at := Positions(s.entries, ids);
    var p: nat :| p < |s.entries| && s.entries[p] == e;
    KeyAt(s.entries, at, p);
    forall k | 0 <= k < |ids| ensures at[k] == p <==> ids[k] == e.msg.id {
      if ids[k] == e.msg.id { SpreadIds(s.entries, at[k], p); }
    }
  }

  /** ListedKeys holds the keys of the messages that the table finds due. */
  lemma ListedKey(now: int, s: State, t: Table, listing: seq<string>, e: Entry)
    requires Related(now, s, t) && IsListing(DeleteExpired(t, now).rows, now, listing) && e in s.entries
    requires forall k :: 0 <= k < |listing| ==> listing[k] in Ids(s.entries)
    ensures e.key in ListedKeys(s.entries, listing) <==> e.msg.id in listing
    ensures e.msg.id in listing <==> TableDue(now, s, e)
  {
    var p: nat :| p < |s.entries| && s.entries[p] == e;
    InvKeys(s);
    ListedIsDue(now, s, t, listing, p);
    hide Inv, Stores, RowHandles, IsListing, TableDue, KeysOk, Spread;
    IdKey(s, listing, e);
  }

  lemma ListedIsDue(now: int, s: State, t: Table, listing: seq<string>, p: nat)
    requires Related(now, s, t) && IsListing(DeleteExpired(t, now).rows, now, listing) && p < |s.entries|
    ensures s.entries[p].msg.id in listing <==> TableDue(now, s, s.entries[p])
  {
    assert Mirrors(now, s.entries[p], t.rows[s.entries[p].msg.id]);
  }

  /** When the visible rows were sent in different milliseconds, every listing is in store order. */
  lemma ListingIsStoreOrder(now: int, s: State, t: Table, listing: seq<string>)
    requires Related(now, s, t) && IsListing(DeleteExpired(t, now).rows, now, listing)
    requires DistinctTimes(DeleteExpired(t, now).rows, now)
    ensures InStoreOrder(s.entries, listing)
  {
    forall i, j, p, q | 0 <= i < j < |listing| && 0 <= p < |s.entries| && 0 <= q < |s.entries|
                        && s.entries[p].msg.id == listing[i] && s.entries[q].msg.id == listing[j]
      ensures p < q
    {
      ListedInOrder(now, s, t, listing, i, j, p, q);
    }
  }

  lemma ListedInOrder(now: int, s: State, t: Table, listing: seq<string>, i: nat, j: nat, p: nat, q: nat)
    requires Related(now, s, t) && IsListing(DeleteExpired(t, now).rows, now, listing)
    requires DistinctTimes(DeleteExpired(t, now).rows, now)
    requires i < j < |listing| && p < |s.entries| && q < |s.entries|
    requires s.entries[p].msg.id == listing[i] && s.entries[q].msg.id == listing[j]
    ensures p < q
  {
    assert Mirrors(now, s.entries[p], t.rows[listing[i]]) && Mirrors(now, s.entries[q], t.rows[listing[j]]);
    hide Inv, RowHandles, Stores;
    assert listing[i] in listing && listing[j] in listing && listing[i] != listing[j];
    assert t.rows[listing[i]].sentTimestamp < t.rows[listing[j]].sentTimestamp;
    SentInStoreOrder(s.entries, q, p);
  }

  lemma SentInStoreOrder(es: seq<Entry>, q: nat, p: nat)
    requires Spread(es) && p < |es| && q < |es|
    ensures q <= p ==> Millis(es[q].msg.sentTimestamp) <= Millis(es[p].msg.sentTimestamp)
  {
  }

  // ---------------------------------------------------------------- choosing from a subset

  function First(s: seq<nat>, n: nat): seq<nat> {
    if n < |s| then s[..n] else s
  }

  /** c is increasing, consists of elements of a, and leaves out none that is smaller than one it has. */
  ghost predicate Initial(a: seq<nat>, c: seq<nat>) {
    && Increasing(c)
    && (forall k :: k in c ==> k in a)
    && forall x, y :: x in a && x !in c && y in c ==> y < x
  }

  lemma {:induction false} InitialIsFirst(a: seq<nat>, c: seq<nat>)
    requires Increasing(a) && Initial(a, c)
    ensures |c| <= |a| && c == a[..|c|]
    decreases |c|
  {
    if c != [] {
      assert c[0] in a && c[0] in c && a[0] in a;
      assert a[0] <= c[0];
      assert a[0] in c;
      assert c[0] == a[0];
      InitialTails(a, c);
      InitialIsFirst(a[1..], c[1..]);
      assert a == [a[0]] + a[1..] && c == [c[0]] + c[1..];
    }
  }

  lemma InitialTails(a: seq<nat>, c: seq<nat>)
    requires Increasing(a) && Initial(a, c) && a != [] && c != [] && a[0] == c[0]
    ensures Increasing(a[1..]) && Initial(a[1..], c[1..])
  {
    TailMembers(a);
    TailMembers(c);
    hide Increasing;
  }

  lemma TailMembers(s: seq<nat>)
    requires Increasing(s) && s != []
    ensures Increasing(s[1..]) && forall k :: k in s[1..] <==> k in s && k > s[0]
  {
    assert s == [s[0]] + s[1..];
  }

  lemma FirstIsInitial(a: seq<nat>, n: nat)
    requires Increasing(a)
    ensures Initial(a, First(a, n))
  {
    var c := First(a, n);
    forall x, y | x in a && x !in c && y in c ensures y < x {
      var i :| 0 <= i < |a| && a[i] == x;
      var j :| 0 <= j < |c| && c[j] == y;
      AmongFirst(a, n, i);
      assert a[j] == y;
    }
  }

  lemma AmongFirst(a: seq<nat>, n: nat, i: nat)
    requires i < |a|
    ensures i < |First(a, n)| ==> a[i] in First(a, n)
  {
  }

  /** The first n of a are the first n of b, which holds all of a, if and only if these are initial in a. */
  lemma FirstIff(a: seq<nat>, b: seq<nat>, n: nat)
    requires Increasing(a) && forall k :: k in a ==> k in b
    ensures First(a, n) == First(b, n) <==> Initial(a, First(b, n))
  {
    FirstIsInitial(a, n);
    var c := First(b, n);
    if Initial(a, c) {
      InitialIsFirst(a, c);
      if |b| <= n {
        hide Initial, Increasing;
        NotRepeated(a, |c|);
      }
    }
  }

  lemma NotRepeated(a: seq<nat>, n: nat)
    requires Increasing(a)
    ensures n < |a| ==> a[n] in a && a[n] !in a[..n]
  {
  }

  /** If b is increasing as well, that is if and only if they are in a. */
  lemma InitialIff(a: seq<nat>, b: seq<nat>, n: nat)
    requires Increasing(b) && forall k :: k in a ==> k in b
    ensures Initial(a, First(b, n)) <==> forall k :: k in First(b, n) ==> k in a
  {
    FirstIsInitial(b, n);
  }

  // ---------------------------------------------------------------- the two answers

  /** Equal except for the first-receive time, which the SQLite store never records, and the fraction of a millisecond
      in the send time. */
  predicate SameReceived(m: Message, q: Message) {
    q == m.(firstReceived := q.firstReceived, sentTimestamp := Millis(m.sentTimestamp) * MILLISECOND)
  }

  predicate SameMessages(ms: seq<Message>, qs: seq<Message>) {
    |ms| == |qs| && forall k :: 0 <= k < |ms| ==> SameReceived(ms[k], qs[k])
  }

  /** How many messages a receive may return in memory, and how many from the table. */
  function MemoryLimit(max: int): nat {
    if max < 1 then 1 else max
  }

  function TableLimit(max: int): nat {
    if max < 0 then 1 else max
  }

  /** The same messages in the same order: positions p of the list, ids of the table. */
  ghost predicate SamePicks(es: seq<Entry>, p: seq<nat>, ids: seq<string>) {
    |p| == |ids| && forall k :: 0 <= k < |p| ==> p[k] < |es| && ids[k] == es[p[k]].msg.id
  }

  /** Received together under the same handle, an entry and its row still match and return the same message. */
  lemma ReceivedAlike(now: int, e: Entry, r: Row, visibility: int, h: Handle, timer: nat)
    requires Mirrors(now, e, r)
    ensures Mirrors(now, Received(e, now, visibility, h, timer), ReceivedRow(r, now, visibility, h))
    ensures SameReceived(Received(e, now, visibility, h, timer).msg, ReturnedMessage(e.msg.id, r, h, now))
  {
  }

  /** The messages of an in-memory answer and their rows. */
  ghost predicate AreMirrored(now: int, es: seq<Entry>, p: seq<nat>, rows: map<string, Row>) {
    forall k :: 0 <= k < |p| ==> p[k] < |es| && es[p[k]].msg.id in rows && Mirrors(now, es[p[k]], rows[es[p[k]].msg.id])
  }

  /** Two answers are the same exactly when they are about the same messages in the same order. */
  lemma SameAnswers(now: int, s: State, t: Table, visibility: int, p: seq<nat>, ids: seq<string>,
                    s': State, t': Table, ms: seq<Message>, qs: seq<Message>)
    requires s.nextHandle == t.nextHandle && AreMirrored(now, s.entries, p, t.rows)
    requires HandsOut(s, s, now, visibility, p, [], s', ms) && HandsOutRows(t, ids, now, visibility, [], t', qs)
    ensures SameMessages(ms, qs) <==> SamePicks(s.entries, p, ids)
  {
    if |p| == |ids| {
      forall k | 0 <= k < |p| ensures SameReceived(ms[k], qs[k]) <==> ids[k] == s.entries[p[k]].msg.id {
        SameAnswer(now, s, t, visibility, p, ids, s', t', ms, qs, k);
      }
    }
  }

  lemma SameAnswer(now: int, s: State, t: Table, visibility: int, p: seq<nat>, ids: seq<string>,
                   s': State, t': Table, ms: seq<Message>, qs: seq<Message>, k: nat)
    requires s.nextHandle == t.nextHandle && AreMirrored(now, s.entries, p, t.rows) && k < |p| == |ids|
    requires HandsOut(s, s, now, visibility, p, [], s', ms) && HandsOutRows(t, ids, now, visibility, [], t', qs)
    ensures SameReceived(ms[k], qs[k]) <==> ids[k] == s.entries[p[k]].msg.id
  {
    var e, h := s.entries[p[k]], s.nextHandle + k;
    assert ms[0 + k] == s'.entries[p[k]].msg == Received(e, now, visibility, h, s.nextTimer + k).msg;
    assert qs[0 + k] == ReturnedMessage(ids[k], t.rows[ids[k]], h, now);
    if ids[k] == e.msg.id { ReceivedAlike(now, e, t.rows[ids[k]], visibility, h, s.nextTimer + k); }
  }

  // ---------------------------------------------------------------- when the answers are the same

  /** Nothing the table hands out is early: the messages of the first rows listed are unexpired and visible in memory as
      well. */
  ghost predicate NothingEarly(now: int, s: State, ids: seq<string>) {
    forall e :: e in s.entries && e.msg.id in ids ==> !ExpiresEarly(s.cfg.Cutoff(now), e) && !ShowsEarly(now, e)
  }

  /** No message due in memory that the table leaves out arrived before one that it hands out. */
  ghost predicate NoneSkipped(now: int, s: State, ids: seq<string>) {
    forall e, picked :: e in s.entries && picked in s.entries && Due(now, s, e) && e.msg.id !in ids && picked.msg.id in ids ==>
      picked.key < e.key
  }

  /** The rows handed out are not early, in the order of arrival, and skip nothing. With a limit of 0, where the table
      hands out nothing, nothing is due in memory. */
  ghost predicate SameChoice(now: int, s: State, max: int, listing: seq<string>) {
    if max == 0 then forall e :: e in s.entries ==> !Due(now, s, e)
    else
      var ids := Next(listing, 0, TableLimit(max));
      NothingEarly(now, s, ids) && InStoreOrder(s.entries, ids) && NoneSkipped(now, s, ids)
  }

  /** Positions p of kept and the listed ids name the same messages exactly when they have the same keys. */
  lemma PicksAreKeys(s: State, kept: seq<Entry>, p: seq<nat>, ids: seq<string>)
    requires Inv(s) && Spread(s.entries) && forall e :: e in kept ==> e in s.entries
    requires forall k :: 0 <= k < |p| ==> p[k] < |kept|
    requires forall k :: 0 <= k < |ids| ==> ids[k] in Ids(s.entries)
    ensures SamePicks(kept, p, ids) <==> KeysAt(kept, p) == ListedKeys(s.entries, ids)
  {
    var a, b := KeysAt(kept, p), ListedKeys(s.entries, ids);
    InvKeys(s);
    hide Inv;
    if |p| == |ids| {
      forall k | 0 <= k < |p| ensures a[k] == b[k] <==> ids[k] == kept[p[k]].msg.id {
        PickIsKey(s, kept[p[k]], ids[k]);
        assert b[k] == s.entries[PositionOf(s.entries, ids[k])].key;
      }
    }
  }

  lemma PickIsKey(s: State, e: Entry, id: string)
    requires KeysOk(s) && Spread(s.entries) && e in s.entries && id in Ids(s.entries)
    ensures e.key == s.entries[PositionOf(s.entries, id)].key <==> id == e.msg.id
  {
    var e' := s.entries[PositionOf(s.entries, id)];
    SameIfSameKey(s, e, e');
    if id == e.msg.id { SpreadMembers(s.entries, e, e'); }
  }

  lemma FirstKeys(es: seq<Entry>, at: seq<nat>, n: nat)
    requires forall k :: 0 <= k < |at| ==> at[k] < |es|
    ensures KeysAt(es, at[..Min(|at|, n)]) == First(KeysAt(es, at), n)
  {
  }

  lemma FirstListed(es: seq<Entry>, ids: seq<string>, n: nat)
    requires forall k :: 0 <= k < |ids| ==> ids[k] in Ids(es)
    ensures ListedKeys(es, Next(ids, 0, n)) == First(ListedKeys(es, ids), n)
  {
    assert Next(ids, 0, n) == if n < |ids| then ids[..n] else ids;
  }

  /** What a pass picks is the first of the due messages. */
  lemma PickedKeys(now: int, s: State, max: int)
    ensures var kept := Expire(s, now);
            var p := Picked(kept, now, max);
            && (forall k :: 0 <= k < |p| ==> p[k] < |kept.entries|)
            && KeysAt(kept.entries, p) == First(DueKeys(now, s), MemoryLimit(max))
  {
    var kept := Expire(s, now);
    var all := EligibleFrom(kept, now, 0);
    EligibleFromExact(kept, now, 0);
    assert forall k :: 0 <= k < |all| ==> all[k] in all;
    hide Expire, EligibleFrom, Increasing;
    FirstKeys(kept.entries, all, MemoryLimit(max));
  }

  /** One message of the table's choice. */
  lemma ChoiceKey(now: int, s: State, t: Table, ids: seq<string>, listing: seq<string>, e: Entry)
    requires Related(now, s, t) && IsListing(DeleteExpired(t, now).rows, now, listing) && e in s.entries
    requires forall k :: 0 <= k < |listing| ==> listing[k] in Ids(s.entries)
    requires forall k :: 0 <= k < |ids| ==> ids[k] in listing && ids[k] in Ids(s.entries)
    ensures e.key in ListedKeys(s.entries, ids) <==> e.msg.id in ids
    ensures e.msg.id in ids ==>
              (e.key in DueKeys(now, s) <==> !ExpiresEarly(s.cfg.Cutoff(now), e) && !ShowsEarly(now, e))
  {
    InvKeys(s);
    IdKey(s, ids, e);
    ListedKey(now, s, t, listing, e);
    DueKey(now, s, e);
    DueIsTableDue(now, s, e);
  }

  lemma EarlyKeys(now: int, s: State, t: Table, ids: seq<string>, listing: seq<string>)
    requires Related(now, s, t) && IsListing(DeleteExpired(t, now).rows, now, listing)
    requires forall k :: 0 <= k < |listing| ==> listing[k] in Ids(s.entries)
    requires forall k :: 0 <= k < |ids| ==> ids[k] in listing && ids[k] in Ids(s.entries)
    ensures NothingEarly(now, s, ids) <==> forall k :: k in ListedKeys(s.entries, ids) ==> k in DueKeys(now, s)
  {
    hide Related, IsListing, DueKeys, ExpiresEarly, ShowsEarly;
    forall e | e in s.entries
      ensures e.key in ListedKeys(s.entries, ids) <==> e.msg.id in ids
      ensures e.msg.id in ids ==>
                (e.key in DueKeys(now, s) <==> !ExpiresEarly(s.cfg.Cutoff(now), e) && !ShowsEarly(now, e))
    {
      ChoiceKey(now, s, t, ids, listing, e);
    }
    forall k | k in ListedKeys(s.entries, ids) ensures exists e :: e in s.entries && e.key == k && e.msg.id in ids {
      KeyFrom(s.entries, Positions(s.entries, ids), k);
    }
  }

  lemma OrderKeys(s: State, ids: seq<string>)
    requires KeysOk(s) && Spread(s.entries) && NoRepeats(ids)
    requires forall k :: 0 <= k < |ids| ==> ids[k] in Ids(s.entries)
    ensures InStoreOrder(s.entries, ids) <==> Increasing(ListedKeys(s.entries, ids))
  {
    hide Increasing, InStoreOrder, Spread;
    KeysAtIncrease(s.entries, Positions(s.entries, ids));
    OrderPositions(s.entries, ids);
  }

  lemma OrderPositions(es: seq<Entry>, ids: seq<string>)
    requires Spread(es) && forall k :: 0 <= k < |ids| ==> ids[k] in Ids(es)
    ensures InStoreOrder(es, ids) <==> Increasing(Positions(es, ids))
  {
    var at := Positions(es, ids);
    if InStoreOrder(es, ids) {
      forall i, j | 0 <= i < j < |at| ensures at[i] < at[j] {
        assert es[at[i]].msg.id == ids[i] && es[at[j]].msg.id == ids[j];
      }
    }
    if Increasing(at) {
      forall i, j, p, q | 0 <= i < j < |ids| && 0 <= p < |es| && 0 <= q < |es|
                          && es[p].msg.id == ids[i] && es[q].msg.id == ids[j]
        ensures p < q
      {
        SpreadIds(es, p, at[i]);
        SpreadIds(es, q, at[j]);
      }
    }
  }

  lemma SkippedKeys(now: int, s: State, ids: seq<string>)
    requires Inv(s) && Standard(s.cfg) && Spread(s.entries)
    requires forall k :: 0 <= k < |ids| ==> ids[k] in Ids(s.entries)
    ensures NoneSkipped(now, s, ids) <==>
            forall x, y :: x in DueKeys(now, s) && x !in ListedKeys(s.entries, ids) && y in ListedKeys(s.entries, ids) ==> y < x
  {
    InvKeys(s);
    DueKeysIncrease(now, s);
    forall e | e in s.entries
      ensures e.key in ListedKeys(s.entries, ids) <==> e.msg.id in ids
      ensures e.key in DueKeys(now, s) <==> Due(now, s, e)
    {
      IdKey(s, ids, e);
      DueKey(now, s, e);
    }
    hide Inv, KeysOk, Spread, Due, DueKeys, ListedKeys;
    forall k | k in ListedKeys(s.entries, ids) ensures exists e :: e in s.entries && e.key == k {
      ListedFrom(s.entries, ids, k);
    }
  }

  lemma ListedFrom(es: seq<Entry>, ids: seq<string>, key: nat)
    requires forall k :: 0 <= k < |ids| ==> ids[k] in Ids(es)
    requires key in ListedKeys(es, ids)
    ensures exists e :: e in es && e.key == key
  {
    KeyFrom(es, Positions(es, ids), key);
  }

  /** The table's choice is the in-memory store's if and only if its keys are initial among those due. */
  lemma SameChoiceKeys(now: int, s: State, t: Table, max: int, listing: seq<string>)
    requires Related(now, s, t) && IsListing(DeleteExpired(t, now).rows, now, listing) && max != 0
    requires forall k :: 0 <= k < |listing| ==> listing[k] in Ids(s.entries)
    ensures var ids := Next(listing, 0, TableLimit(max));
            SameChoice(now, s, max, listing) <==> Initial(DueKeys(now, s), ListedKeys(s.entries, ids))
  {
    var ids := Next(listing, 0, TableLimit(max));
    assert forall k :: 0 <= k < |ids| ==> ids[k] == listing[k];
    InvKeys(s);
    assert NoRepeats(ids);
    hide Inv, KeysOk, Stores, RowHandles, AllSent, Spread, DueKeys, ListedKeys, NothingEarly, InStoreOrder, NoneSkipped,
         Next, Increasing, IsListing, NoRepeats;
    EarlyKeys(now, s, t, ids, listing);
    OrderKeys(s, ids);
    SkippedKeys(now, s, ids);
  }

  lemma NoneDue(now: int, s: State)
    requires Inv(s) && Standard(s.cfg)
    ensures DueKeys(now, s) == [] <==> forall e :: e in s.entries ==> !Due(now, s, e)
  {
    DueKeysIncrease(now, s);
    forall e | e in s.entries ensures e.key in DueKeys(now, s) <==> Due(now, s, e) { DueKey(now, s, e); }
    hide Inv, DueKeys;
    assert DueKeys(now, s) != [] ==> DueKeys(now, s)[0] in DueKeys(now, s);
  }

  lemma DueAreListed(now: int, s: State, t: Table, listing: seq<string>)
    requires Related(now, s, t) && IsListing(DeleteExpired(t, now).rows, now, listing)
    requires forall k :: 0 <= k < |listing| ==> listing[k] in Ids(s.entries)
    ensures forall k :: k in DueKeys(now, s) ==> k in ListedKeys(s.entries, listing)
  {
    DueKeysIncrease(now, s);
    forall k | k in DueKeys(now, s) ensures k in ListedKeys(s.entries, listing) {
      var e :| e in s.entries && e.key == k;
      DueKey(now, s, e);
      DueIsTableDue(now, s, e);
      ListedKey(now, s, t, listing, e);
    }
  }

  lemma SamePicksAreKeys(now: int, s: State, max: int, listing: seq<string>)
    requires Inv(s) && Spread(s.entries) && forall k :: 0 <= k < |listing| ==> listing[k] in Ids(s.entries)
    ensures var kept := Expire(s, now);
            SamePicks(kept.entries, Picked(kept, now, max), Next(listing, 0, TableLimit(max)))
            <==> First(DueKeys(now, s), MemoryLimit(max)) == First(ListedKeys(s.entries, listing), TableLimit(max))
  {
    var ids := Next(listing, 0, TableLimit(max));
    assert forall k :: 0 <= k < |ids| ==> ids[k] == listing[k];
    var kept := Expire(s, now);
    KeptMembers(s.entries, s.cfg.Cutoff(now));
    hide Inv, Spread, Picked, SamePicks, DueKeys, ListedKeys;
    PickedKeys(now, s, max);
    PicksAreKeys(s, kept.entries, Picked(kept, now, max), ids);
    FirstListed(s.entries, listing, TableLimit(max));
  }

  lemma SamePicksIff(now: int, s: State, t: Table, max: int, listing: seq<string>)
    requires Related(now, s, t) && IsListing(DeleteExpired(t, now).rows, now, listing)
    ensures var kept := Expire(s, now);
            SamePicks(kept.entries, Picked(kept, now, max), Next(listing, 0, TableLimit(max)))
            <==> SameChoice(now, s, max, listing)
  {
    ListedAreStored(now, s, t, listing);
    hide Inv, RowHandles, Stores, Spread, AllSent, IsListing, Picked, SamePicks, Increasing, DueKeys, ListedKeys, Initial;
    SamePicksAreKeys(now, s, max, listing);
    if max == 0 {
      NoneDue(now, s);
    } else {
      SameChoiceKeys(now, s, t, max, listing);
      FirstListed(s.entries, listing, TableLimit(max));
      DueKeysIncrease(now, s);
      DueAreListed(now, s, t, listing);
      FirstIff(DueKeys(now, s), ListedKeys(s.entries, listing), TableLimit(max));
    }
  }

  /** When the listing is in store order, as it is when the visible rows were sent in different milliseconds, only early
      rows matter. */
  lemma ChoiceInStoreOrder(now: int, s: State, t: Table, max: int, listing: seq<string>)
    requires Related(now, s, t) && IsListing(DeleteExpired(t, now).rows, now, listing) && max != 0
    requires InStoreOrder(s.entries, listing)
    ensures SameChoice(now, s, max, listing) <==> NothingEarly(now, s, Next(listing, 0, TableLimit(max)))
  {
    ListedAreStored(now, s, t, listing);
    var ids := Next(listing, 0, TableLimit(max));
    assert forall k :: 0 <= k < |ids| ==> ids[k] == listing[k];
    ListedKeysIncrease(now, s, t, listing);
    hide Inv, RowHandles, Stores, Spread, AllSent, Increasing, DueKeys, ListedKeys, Initial, SameChoice, NothingEarly, Next;
    SameChoiceKeys(now, s, t, max, listing);
    EarlyKeys(now, s, t, ids, listing);
    FirstListed(s.entries, listing, TableLimit(max));
    DueAreListed(now, s, t, listing);
    InitialIff(DueKeys(now, s), ListedKeys(s.entries, listing), TableLimit(max));
  }

  // ---------------------------------------------------------------- after the pass

  lemma PickedRow(es: seq<Entry>, p: seq<nat>, ids: seq<string>, j: nat)
    requires Spread(es) && SamePicks(es, p, ids) && j < |es|
    ensures es[j].msg.id in ids <==> j in p
    ensures j in p ==> exists k :: 0 <= k < |p| && p[k] == j && ids[k] == es[j].msg.id
  {
    forall k | 0 <= k < |p| ensures p[k] == j <==> ids[k] == es[j].msg.id {
      if ids[k] == es[j].msg.id { SpreadIds(es, p[k], j); }
    }
  }

  /** Entry e' is entry e after a pass, and matches its row. */
  ghost predicate StillMirrored(now: int, e: Entry, e': Entry, rows: map<string, Row>) {
    && e'.msg.id == e.msg.id && e'.msg.sentTimestamp == e.msg.sentTimestamp
    && e.msg.id in rows && Mirrors(now, e', rows[e.msg.id])
  }

  /** The k-th message handed out. */
  lemma PickedSimulates(now: int, s: State, t: Table, visibility: int, p: seq<nat>, ids: seq<string>,
                        s': State, t': Table, ms: seq<Message>, qs: seq<Message>, k: nat)
    requires s.nextHandle == t.nextHandle && k < |p| == |ids| && p[k] < |s.entries| && ids[k] == s.entries[p[k]].msg.id
    requires ids[k] in t.rows && Mirrors(now, s.entries[p[k]], t.rows[ids[k]])
    requires HandsOut(s, s, now, visibility, p, [], s', ms) && HandsOutRows(t, ids, now, visibility, [], t', qs)
    ensures StillMirrored(now, s.entries[p[k]], s'.entries[p[k]], t'.rows)
  {
    ReceivedAlike(now, s.entries[p[k]], t.rows[ids[k]], visibility, s.nextHandle + k, s.nextTimer + k);
  }

  /** Entry j after the pass, whether it was handed out or not. */
  lemma EntrySimulates(now: int, s: State, t: Table, visibility: int, p: seq<nat>, ids: seq<string>,
                       s': State, t': Table, ms: seq<Message>, qs: seq<Message>, j: nat)
    requires s.nextHandle == t.nextHandle && Stores(now, s.entries, t.rows) && Spread(s.entries)
    requires SamePicks(s.entries, p, ids) && j < |s.entries|
    requires HandsOut(s, s, now, visibility, p, [], s', ms) && HandsOutRows(t, ids, now, visibility, [], t', qs)
    ensures StillMirrored(now, s.entries[j], s'.entries[j], t'.rows)
  {
    PickedRow(s.entries, p, ids, j);
    var e := s.entries[j];
    assert Mirrors(now, e, t.rows[e.msg.id]);
    if j in p {
      assert |p| == |ids|;
      var k :| 0 <= k < |p| && p[k] == j && ids[k] == e.msg.id;
      hide Stores, Spread, SamePicks, HandsOut, HandsOutRows, Mirrors, StillMirrored;
      PickedSimulates(now, s, t, visibility, p, ids, s', t', ms, qs, k);
    } else {
      hide Stores, Spread, SamePicks, Mirrors;
      assert s'.entries[j] == e && t'.rows[e.msg.id] == t.rows[e.msg.id];
    }
  }

  lemma HandOutStores(now: int, s: State, t: Table, visibility: int, p: seq<nat>, ids: seq<string>,
                      s': State, t': Table, ms: seq<Message>, qs: seq<Message>)
    requires s.nextHandle == t.nextHandle && Stores(now, s.entries, t.rows)
    requires Spread(s.entries) && AllSent(now, s.entries) && SamePicks(s.entries, p, ids)
    requires HandsOut(s, s, now, visibility, p, [], s', ms) && HandsOutRows(t, ids, now, visibility, [], t', qs)
    ensures Stores(now, s'.entries, t'.rows) && Spread(s'.entries) && AllSent(now, s'.entries)
  {
    assert |s'.entries| == |s.entries| && t'.rows.Keys == t.rows.Keys == Ids(s.entries);
    hide SamePicks, HandsOut, HandsOutRows, Mirrors, StillMirrored, Spread, AllSent, Stores;
    forall j | 0 <= j < |s.entries| ensures StillMirrored(now, s.entries[j], s'.entries[j], t'.rows) {
      EntrySimulates(now, s, t, visibility, p, ids, s', t', ms, qs, j);
    }
    MirroredStores(now, s.entries, s'.entries, t'.rows);
  }

  lemma MirroredStores(now: int, es: seq<Entry>, es': seq<Entry>, rows: map<string, Row>)
    requires Spread(es) && AllSent(now, es) && |es'| == |es| && rows.Keys == Ids(es)
    requires forall j :: 0 <= j < |es| ==> StillMirrored(now, es[j], es'[j], rows)
    ensures Stores(now, es', rows) && Spread(es') && AllSent(now, es')
  {
    hide Mirrors;
    SameIds(es, es');
    forall i | 0 <= i < |es'| ensures es'[i].msg.sentTimestamp <= now { assert es[i] in es; }
  }

  lemma HandOutRowHandles(t: Table, ids: seq<string>, now: int, visibility: int, t': Table, qs: seq<Message>)
    requires RowHandles(t.rows, t.nextHandle) && t.nextHandle >= 1 && HandsOutRows(t, ids, now, visibility, [], t', qs)
    ensures RowHandles(t'.rows, t'.nextHandle)
  {
    forall id | id in t'.rows
      ensures if id in ids then exists k :: 0 <= k < |ids| && ids[k] == id && t'.rows[id].handle == t.nextHandle + k
              else t'.rows[id].handle == t.rows[id].handle < t.nextHandle
    {
      if id in ids { var k :| 0 <= k < |ids| && ids[k] == id; }
    }
  }

  /** A pass from related, expired stores that picks the same messages leaves them related. */
  lemma SamePicksStayRelated(now: int, s: State, t: Table, max: int, requested: int, listing: seq<string>)
    requires Related(now, s, t) && Related(now, Expire(s, now), DeleteExpired(t, now))
    requires IsListing(DeleteExpired(t, now).rows, now, listing)
    requires SamePicks(Expire(s, now).entries, Picked(Expire(s, now), now, max), Next(listing, 0, TableLimit(max)))
    ensures Related(now, Receive(s, now, max, requested).0, Select(t, now, max, requested, listing).0)
  {
    var kept, rest := Expire(s, now), DeleteExpired(t, now);
    var visibility := s.cfg.EffectiveVisibility(requested);
    var (s', r) := Receive(s, now, max, requested);
    var (t', q) := Select(t, now, max, requested, listing);
    FirstEligible(s, now, max, requested);
    SelectHandsOut(t, now, max, requested, listing);
    ReceiveInv(s, now, max, requested);
    ScanConfig(kept, 0, now, max, visibility, []);
    var p, ids := Picked(kept, now, max), Next(listing, 0, TableLimit(max));
    hide Inv, Stores, Spread, AllSent, RowHandles, SamePicks, IsListing, Picked, Next;
    HandOutStores(now, kept, rest, visibility, p, ids, s', t', r.value, q.value);
    assert rest.nextHandle >= 1 by { NextHandlePositive(kept); }
    HandOutRowHandles(rest, ids, now, visibility, t', q.value);
  }

  lemma NextHandlePositive(s: State)
    requires Inv(s)
    ensures s.nextHandle >= 1
  {
  }

  lemma PassKeepsIds(now: int, s: State, max: int, requested: int)
    requires !s.closed
    ensures Ids(Receive(s, now, max, requested).0.entries) == Ids(Expire(s, now).entries)
  {
    var kept := Expire(s, now);
    var s' := Receive(s, now, max, requested).0;
    var p := Picked(kept, now, max);
    FirstEligible(s, now, max, requested);
    hide Picked, Receive, Expire;
    forall i | 0 <= i < |kept.entries| ensures kept.entries[i].msg.id == s'.entries[i].msg.id {
      if i in p { var k :| 0 <= k < |p| && p[k] == i; }
    }
    SameIds(kept.entries, s'.entries);
  }

  lemma PassKeepsKeys(now: int, t: Table, max: int, requested: int, listing: seq<string>)
    requires !t.closed && IsListing(DeleteExpired(t, now).rows, now, listing)
    ensures Select(t, now, max, requested, listing).0.rows.Keys == DeleteExpired(t, now).rows.Keys
  {
    SelectHandsOut(t, now, max, requested, listing);
  }

  /** What a pass leaves is related only if retention dropped the same messages. */
  lemma RelatedOnlyIfSameExpired(now: int, s: State, t: Table, max: int, requested: int, listing: seq<string>)
    requires Related(now, s, t) && IsListing(DeleteExpired(t, now).rows, now, listing)
    requires Related(now, Receive(s, now, max, requested).0, Select(t, now, max, requested, listing).0)
    ensures NoneExpiresEarly(now, s)
  {
    hide Inv, Mirrors, RowHandles, Spread, AllSent, IsListing, Receive, Select, DeleteExpired, Expire, NoneExpiresEarly;
    PassKeepsIds(now, s, max, requested);
    PassKeepsKeys(now, t, max, requested, listing);
    ExpireSimulates(now, s, t);
  }

  lemma PicksAreMirrored(now: int, s: State, t: Table, max: int)
    requires Related(now, s, t)
    ensures AreMirrored(now, Expire(s, now).entries, Picked(Expire(s, now), now, max), DeleteExpired(t, now).rows)
  {
    var kept, rest := Expire(s, now), DeleteExpired(t, now);
    var p := Picked(kept, now, max);
    PickedAreVisible(kept, now, max);
    KeptMembers(s.entries, s.cfg.Cutoff(now));
    hide Inv, RowHandles, Spread, Picked;
    forall k | 0 <= k < |p|
      ensures p[k] < |kept.entries| && kept.entries[p[k]].msg.id in rest.rows
              && Mirrors(now, kept.entries[p[k]], rest.rows[kept.entries[p[k]].msg.id])
    {
      assert p[k] in p;
      var e := kept.entries[p[k]];
      assert e in kept.entries;
      var i :| 0 <= i < |s.entries| && s.entries[i] == e;
      assert Mirrors(now, s.entries[i], t.rows[s.entries[i].msg.id]);
    }
  }

  /** Whatever listing the database chooses, the answers to a receive are the same if and only if the table hands out
      nothing early, in the order of arrival and without skipping; the stores are then still related if and only if, in
      addition, retention dropped the same messages from both. */
  lemma ReceiveSimulates(now: int, s: State, t: Table, max: int, requested: int, listing: seq<string>)
    requires Related(now, s, t) && IsListing(DeleteExpired(t, now).rows, now, listing)
    ensures var (s', r) := Receive(s, now, max, requested);
            var (t', q) := Select(t, now, max, requested, listing);
            && r.Some? && q.Some?
            && (SameMessages(r.value, q.value) <==> SameChoice(now, s, max, listing))
            && (Related(now, s', t') && SameMessages(r.value, q.value)
                <==> NoneExpiresEarly(now, s) && SameChoice(now, s, max, listing))
  {
    var kept, rest := Expire(s, now), DeleteExpired(t, now);
    var (s', r) := Receive(s, now, max, requested);
    var (t', q) := Select(t, now, max, requested, listing);
    FirstEligible(s, now, max, requested);
    SelectHandsOut(t, now, max, requested, listing);
    PicksAreMirrored(now, s, t, max);
    SamePicksIff(now, s, t, max, listing);
    ExpireSimulates(now, s, t);
    SameAnswers(now, kept, rest, s.cfg.EffectiveVisibility(requested), Picked(kept, now, max),
                Next(listing, 0, TableLimit(max)), s', t', r.value, q.value);
    hide Related, Inv, IsListing, Receive, Select, Picked, Next, SameMessages, SamePicks, SameChoice,
         NoneExpiresEarly;
    if NoneExpiresEarly(now, s) && SameChoice(now, s, max, listing) {
      SamePicksStayRelated(now, s, t, max, requested, listing);
    }
    if Related(now, s', t') {
      RelatedOnlyIfSameExpired(now, s, t, max, requested, listing);
    }
  }

  // ---------------------------------------------------------------- when nothing is early

  ghost predicate NoneShowsEarly(now: int, s: State) {
    forall e :: e in s.entries ==> !ShowsEarly(now, e)
  }

  /** When no time falls into the present millisecond, the answers are the same exactly when the limit is not 0 or
      nothing is listed: for a limit of 0 the in-memory store hands out one message and the SQLite store none. */
  lemma AlikeIffLimited(now: int, s: State, t: Table, max: int, requested: int, listing: seq<string>)
    requires Related(now, s, t) && IsListing(DeleteExpired(t, now).rows, now, listing)
    requires InStoreOrder(s.entries, listing) && NoneExpiresEarly(now, s) && NoneShowsEarly(now, s)
    ensures SameMessages(Receive(s, now, max, requested).1.value, Select(t, now, max, requested, listing).1.value)
            <==> max != 0 || listing == []
  {
    ReceiveSimulates(now, s, t, max, requested, listing);
    ListedAreStored(now, s, t, listing);
    if max != 0 { ChoiceInStoreOrder(now, s, t, max, listing); }
    forall e | e in s.entries ensures Due(now, s, e) <==> e.msg.id in listing {
      ListedKey(now, s, t, listing, e);
      DueIsTableDue(now, s, e);
    }
    hide Related, IsListing, Due, Receive, Select, InStoreOrder;
    if listing != [] {
      assert listing[0] in Ids(s.entries);
      var e :| e in s.entries && e.msg.id == listing[0];
      assert Due(now, s, e);
    }
  }

  /** A limit of 0: the in-memory store still hands out one message, the SQLite store none. */
  lemma LimitZeroDiffers(now: int, s: State, t: Table, requested: int, listing: seq<string>)
    requires Related(now, s, t) && IsListing(DeleteExpired(t, now).rows, now, listing)
    requires exists e :: e in s.entries && Due(now, s, e)
    ensures |Receive(s, now, 0, requested).1.value| == 1 && |Select(t, now, 0, requested, listing).1.value| == 0
  {
    NoneDue(now, s);
    FirstEligible(s, now, 0, requested);
    SelectHandsOut(t, now, 0, requested, listing);
  }
}
