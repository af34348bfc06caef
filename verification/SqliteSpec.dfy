/** The SQLite store of a standard queue without redrive: SQL statements as updates of a table of rows.
    Visibility is evaluated lazily, so there are no timers. Stored times are whole milliseconds. */
module SqliteSpec {
  import opened StoreTypes
  import opened Ordering

  datatype Row = Row(
    body: string,
    groupId: string,
    dedupId: string,
    sequenceNumber: nat,
    sentTimestamp: int,
    visibleAt: int,
    handle: Handle,
    receiveCount: nat,
    firstReceivedAt: int)

  datatype Table = Table(cfg: Config, rows: map<string, Row>, closed: bool, nextHandle: nat)

  /** Go's zero time in Unix milliseconds; the column default is 0, the Unix epoch, which is not the zero time. */
  const ZERO_TIME_MILLIS := -62_135_596_800_000

  function InitTable(cfg: Config): Table {
    Table(cfg, map[], false, 1)
  }

  /** time.UnixMilli: whole milliseconds, rounded down. */
  function Millis(t: int): int {
    t / MILLISECOND
  }

  // ---------------------------------------------------------------- send

  datatype InsertResult = InsertClosed | InsertDuplicate | Inserted(msg: Message)

  /** SendMessage; the primary key makes the insert fail on an id that is already stored. */
  function Insert(t: Table, now: int, msg: Message, delay: int): (Table, InsertResult) {
    if t.closed then (t, InsertClosed)
    else if msg.id in t.rows then (t, InsertDuplicate)
    else
      var row := Row(msg.body, msg.groupId, msg.dedupId, msg.sequenceNumber, Millis(now),
                     Millis(now + Max0(delay) * SECOND), NO_HANDLE, 0, 0);
      (t.(rows := t.rows[msg.id := row]), Inserted(msg.(sentTimestamp := now, isVisible := delay == 0)))
  }

  // ---------------------------------------------------------------- receive

  function DeleteExpired(t: Table, now: int): Table {
    t.(rows := map id | id in t.rows && t.rows[id].sentTimestamp >= Millis(t.cfg.Cutoff(now)) :: t.rows[id])
  }

  /** A possible answer of SELECT ... WHERE visible_at <= now ORDER BY sent_timestamp: ties come in any order. */
  ghost predicate IsListing(rows: map<string, Row>, now: int, ids: seq<string>) {
    && NoRepeats(ids)
    && (forall i :: 0 <= i < |ids| ==> ids[i] in rows)
    && (forall id :: id in ids <==> id in rows && rows[id].visibleAt <= Millis(now))
    && (forall i, j :: 0 <= i < j < |ids| ==> rows[ids[i]].sentTimestamp <= rows[ids[j]].sentTimestamp)
  }

  /** No two visible rows were sent in the same millisecond. */
  ghost predicate DistinctTimes(rows: map<string, Row>, now: int) {
    forall a, b :: a in rows && b in rows && a != b
                   && rows[a].visibleAt <= Millis(now) && rows[b].visibleAt <= Millis(now) ==>
      rows[a].sentTimestamp != rows[b].sentTimestamp
  }

  /** LIMIT max; a negative limit is no limit. */
  function Limit(ids: seq<string>, max: int): seq<string> {
    if 0 <= max < |ids| then ids[..max] else ids
  }

  /** The first-receive time the code works with: now if the stored time is Go's zero time. */
  function FirstReceived(r: Row, now: int): int {
    if r.firstReceivedAt == ZERO_TIME_MILLIS then now else r.firstReceivedAt * MILLISECOND
  }

  /** The row after it was handed out under handle h. */
  function ReceivedRow(r: Row, now: int, visibility: int, h: Handle): Row {
    r.(handle := h, visibleAt := Millis(now + visibility * SECOND), receiveCount := r.receiveCount + 1,
       firstReceivedAt := Millis(FirstReceived(r, now)))
  }

  /** The message a receive returns for row r under handle h. */
  function ReturnedMessage(id: string, r: Row, h: Handle, now: int): Message {
    Message(id, r.body, r.groupId, r.dedupId, r.sequenceNumber, r.sentTimestamp * MILLISECOND, false, h,
            r.receiveCount + 1, now, FirstReceived(r, now))
  }

  /** Hands out row id: new handle, new visibility. */
  function TakeRow(t: Table, id: string, now: int, visibility: int): Table
    requires id in t.rows
  {
    t.(rows := t.rows[id := ReceivedRow(t.rows[id], now, visibility, t.nextHandle)], nextHandle := t.nextHandle + 1)
  }

  /** The loop over the candidates from position i on, with `acc` already collected. */
  function HandOutRows(t: Table, ids: seq<string>, i: nat, now: int, max: int, visibility: int, acc: seq<Message>)
    : (Table, seq<Message>)
    requires i <= |ids| && forall k :: 0 <= k < |ids| ==> ids[k] in t.rows
    decreases |ids| - i
  {
    if i == |ids| then (t, acc)
    else
      var t1 := TakeRow(t, ids[i], now, visibility);
      var acc1 := acc + [ReturnedMessage(ids[i], t.rows[ids[i]], t.nextHandle, now)];
      if |acc1| >= max then (t1, acc1) else HandOutRows(t1, ids, i + 1, now, max, visibility, acc1)
  }

  /** One pass of ReceiveMessages under the lock, when the database lists the visible rows as `listing`. */
  function Select(t: Table, now: int, max: int, requested: int, listing: seq<string>): (Table, Option<seq<Message>>)
    requires t.closed || IsListing(DeleteExpired(t, now).rows, now, listing)
  {
    if t.closed then (t, None)
    else
      var (t1, ms) := HandOutRows(DeleteExpired(t, now), Limit(listing, max), 0, now, max,
                                  t.cfg.EffectiveVisibility(requested), []);
      (t1, Some(ms))
  }

  // ---------------------------------------------------------------- delete, visibility, purge

  datatype UpdateResult = UpdateClosed | NoSuchHandle | Updated

  function WithHandle(rows: map<string, Row>, h: Handle): set<string> {
    set id | id in rows && rows[id].handle == h
  }

  function ResultOf(t: Table, h: Handle): UpdateResult {
    if t.closed then UpdateClosed else if WithHandle(t.rows, h) == {} then NoSuchHandle else Updated
  }

  /** DELETE ... WHERE receipt_handle = h. */
  function DeleteRows(t: Table, h: Handle): (Table, UpdateResult) {
    (if t.closed then t else t.(rows := t.rows - WithHandle(t.rows, h)), ResultOf(t, h))
  }

  function SetVisible(rows: map<string, Row>, h: Handle, at: int, h': Handle): map<string, Row> {
    map id | id in rows ::
      if rows[id].handle == h then rows[id].(visibleAt := at, handle := h') else rows[id]
  }

  /** UPDATE ... WHERE receipt_handle = h; a timeout of 0 blanks the handle as well. */
  function UpdateVisibility(t: Table, now: int, h: Handle, timeout: int): (Table, UpdateResult) {
    var rows := if timeout == 0 then SetVisible(t.rows, h, Millis(now), NO_HANDLE)
                else SetVisible(t.rows, h, Millis(now + timeout * SECOND), h);
    (if t.closed then t else t.(rows := rows), ResultOf(t, h))
  }

  function PurgeRows(t: Table): (Table, bool) {
    if t.closed then (t, false) else (t.(rows := map[]), true)
  }

  // ---------------------------------------------------------------- counts

  function VisibleRows(t: Table, now: int): set<string> {
    set id | id in t.rows && t.rows[id].visibleAt <= Millis(now)
  }

  function InFlightRows(t: Table, now: int): set<string> {
    set id | id in t.rows && t.rows[id].visibleAt > Millis(now) && t.rows[id].handle != NO_HANDLE
  }

  function DelayedRows(t: Table, now: int): set<string> {
    set id | id in t.rows && t.rows[id].visibleAt > Millis(now) && t.rows[id].handle == NO_HANDLE
  }

  // ---------------------------------------------------------------- what the candidate loop does

  /** The rows ids are handed out in order, on top of `acc`, each under the next fresh handle; the others stay. */
  ghost predicate HandsOutRows(t: Table, ids: seq<string>, now: int, visibility: int, acc: seq<Message>,
                               t': Table, out: seq<Message>) {
    && t'.rows.Keys == t.rows.Keys
    && t' == t.(rows := t'.rows, nextHandle := t.nextHandle + |ids|)
    && |out| == |acc| + |ids| && acc <= out
    && (forall k :: 0 <= k < |ids| ==> ids[k] in t.rows)
    && (forall k :: 0 <= k < |ids| ==>
        t'.rows[ids[k]] == ReceivedRow(t.rows[ids[k]], now, visibility, t.nextHandle + k))
    && (forall k :: 0 <= k < |ids| ==> out[|acc| + k] == ReturnedMessage(ids[k], t.rows[ids[k]], t.nextHandle + k, now))
    && (forall id :: id in t.rows && id !in ids ==> t'.rows[id] == t.rows[id])
  }

  lemma HandsOutOneRowMore(t: Table, id: string, ids: seq<string>, now: int, visibility: int, acc: seq<Message>,
                           t': Table, out: seq<Message>)
    requires id in t.rows && id !in ids
    requires var t1 := TakeRow(t, id, now, visibility);
             HandsOutRows(t1, ids, now, visibility, acc + [ReturnedMessage(id, t.rows[id], t.nextHandle, now)], t', out)
    ensures HandsOutRows(t, [id] + ids, now, visibility, acc, t', out)
  {
    var t1 := TakeRow(t, id, now, visibility);
    var acc1 := acc + [ReturnedMessage(id, t.rows[id], t.nextHandle, now)];
    var all := [id] + ids;
    assert acc1[|acc|] == out[|acc|];
    forall k | 0 <= k < |all|
      ensures all[k] in t.rows
              && t'.rows[all[k]] == ReceivedRow(t.rows[all[k]], now, visibility, t.nextHandle + k)
              && out[|acc| + k] == ReturnedMessage(all[k], t.rows[all[k]], t.nextHandle + k, now)
    {
      if k > 0 {
        assert all[k] == ids[k - 1] && ids[k - 1] in ids;
        assert out[|acc1| + (k - 1)] == ReturnedMessage(ids[k - 1], t1.rows[ids[k - 1]], t1.nextHandle + (k - 1), now);
      }
    }
  }

  /** Up to n candidates from position i on. */
  function Next(ids: seq<string>, i: nat, n: nat): seq<string>
    requires i <= |ids|
  {
    if n < |ids| - i then ids[i..i + n] else ids[i..]
  }

  lemma NextOneMore(ids: seq<string>, i: nat, n: nat)
    requires i < |ids| && n > 0
    ensures Next(ids, i, n) == [ids[i]] + Next(ids, i + 1, n - 1)
  {
  }

  lemma NextAreLater(ids: seq<string>, i: nat, n: nat)
    requires i < |ids| && NoRepeats(ids)
    ensures ids[i] !in Next(ids, i + 1, n)
  {
  }

  /** How many more messages the loop may collect: a limit below 1 acts as 1. */
  function Room(max: int, collected: nat): int {
    (if max < 1 then 1 else max) - collected
  }

  /** The loop hands out its candidates as long as there is room. */
  lemma {:induction false} HandOutRowsFrom(t: Table, ids: seq<string>, i: nat, now: int, max: int, visibility: int,
                                           acc: seq<Message>)
    requires i <= |ids| && NoRepeats(ids) && forall k :: 0 <= k < |ids| ==> ids[k] in t.rows
    requires Room(max, |acc|) > 0
    ensures var (t', out) := HandOutRows(t, ids, i, now, max, visibility, acc);
            HandsOutRows(t, Next(ids, i, Room(max, |acc|)), now, visibility, acc, t', out)
    decreases |ids| - i
  {
    if i < |ids| {
      var t1 := TakeRow(t, ids[i], now, visibility);
      var acc1 := acc + [ReturnedMessage(ids[i], t.rows[ids[i]], t.nextHandle, now)];
      var (t', out) := HandOutRows(t, ids, i, now, max, visibility, acc);
      var rest := Next(ids, i + 1, Room(max, |acc1|));
      NextOneMore(ids, i, Room(max, |acc|));
      NextAreLater(ids, i, Room(max, |acc1|));
      if |acc1| < max {
        HandOutRowsFrom(t1, ids, i + 1, now, max, visibility, acc1);
      }
      assert HandsOutRows(t1, rest, now, visibility, acc1, t', out);
      HandsOutOneRowMore(t, ids[i], rest, now, visibility, acc, t', out);
    }
  }

  /** What one receive returns and changes: the first max rows of the listing (none for a limit of 0, one for a
      negative limit). */
  lemma SelectHandsOut(t: Table, now: int, max: int, requested: int, listing: seq<string>)
    requires !t.closed && IsListing(DeleteExpired(t, now).rows, now, listing)
    ensures var (t', out) := Select(t, now, max, requested, listing);
            && out.Some?
            && HandsOutRows(DeleteExpired(t, now), Next(listing, 0, if max < 0 then 1 else max), now,
                            t.cfg.EffectiveVisibility(requested), [], t', out.value)
  {
    var ids := Limit(listing, max);
    HandOutRowsFrom(DeleteExpired(t, now), ids, 0, now, max, t.cfg.EffectiveVisibility(requested), []);
    assert Next(ids, 0, Room(max, 0)) == Next(listing, 0, if max < 0 then 1 else max);
  }

  /** The first-receive column never leaves its default: 0 is the Unix epoch and not Go's zero time, so the receive
      path never records a first receive and always returns the epoch. */
  lemma FirstReceiveIsNeverRecorded(t: Table, now: int, max: int, requested: int, listing: seq<string>)
    requires !t.closed && IsListing(DeleteExpired(t, now).rows, now, listing)
    requires forall id :: id in t.rows ==> t.rows[id].firstReceivedAt == 0
    ensures var (t', out) := Select(t, now, max, requested, listing);
            && (forall id :: id in t'.rows ==> t'.rows[id].firstReceivedAt == 0)
            && (forall k :: 0 <= k < |out.value| ==> out.value[k].firstReceived == 0)
  {
    SelectHandsOut(t, now, max, requested, listing);
    var ids := Next(listing, 0, if max < 0 then 1 else max);
    var (t', out) := Select(t, now, max, requested, listing);
    HandingOutKeepsEpoch(DeleteExpired(t, now), ids, now, t.cfg.EffectiveVisibility(requested), t', out.value);
  }

  lemma HandingOutKeepsEpoch(t: Table, ids: seq<string>, now: int, visibility: int, t': Table, out: seq<Message>)
    requires HandsOutRows(t, ids, now, visibility, [], t', out)
    requires forall id :: id in t.rows ==> t.rows[id].firstReceivedAt == 0
    ensures forall id :: id in t'.rows ==> t'.rows[id].firstReceivedAt == 0
    ensures forall k :: 0 <= k < |out| ==> out[k].firstReceived == 0
  {
    forall id | id in t'.rows ensures t'.rows[id].firstReceivedAt == 0 {
      if id in ids { var k :| 0 <= k < |ids| && ids[k] == id; }
    }
    forall k | 0 <= k < |out| ensures out[k].firstReceived == 0 {
      assert out[0 + k] == ReturnedMessage(ids[k], t.rows[ids[k]], t.nextHandle + k, now);
    }
  }

  // ---------------------------------------------------------------- how many listings there are

  /** ids holds exactly the given rows, by send time. */
  ghost predicate ListsInTime(rows: map<string, Row>, chosen: set<string>, ids: seq<string>) {
    && NoRepeats(ids)
    && (forall i :: 0 <= i < |ids| ==> ids[i] in rows)
    && (forall id :: id in ids <==> id in chosen)
    && (forall i, j :: 0 <= i < j < |ids| ==> rows[ids[i]].sentTimestamp <= rows[ids[j]].sentTimestamp)
  }

  lemma {:induction false} ListingExists(rows: map<string, Row>, chosen: set<string>)
    requires chosen <= rows.Keys
    ensures exists ids :: ListsInTime(rows, chosen, ids)
    decreases |chosen|
  {
    if chosen == {} {
      assert ListsInTime(rows, chosen, []);
    } else {
      var sentAt := (id: string) => if id in rows then rows[id].sentTimestamp else 0;
      LeastExists(chosen, sentAt);
      var least :| least in chosen && IsLeast(chosen, sentAt, least);
      ListingExists(rows, chosen - {least});
      var rest :| ListsInTime(rows, chosen - {least}, rest);
      PrependLists(rows, chosen, least, rest);
    }
  }

  lemma PrependLists(rows: map<string, Row>, chosen: set<string>, least: string, rest: seq<string>)
    requires chosen <= rows.Keys && least in chosen && ListsInTime(rows, chosen - {least}, rest)
    requires forall id :: id in chosen ==> rows[least].sentTimestamp <= rows[id].sentTimestamp
    ensures ListsInTime(rows, chosen, [least] + rest)
  {
    var ids := [least] + rest;
    forall i | 0 <= i < |rest| ensures rest[i] in chosen && rest[i] != least && ids[i + 1] == rest[i] {
      assert rest[i] in rest;
    }
    forall id ensures id in ids <==> id in chosen {
      assert id in ids <==> id == least || id in rest;
    }
    forall i, j | 0 <= i < j < |ids|
      ensures ids[i] != ids[j] && ids[i] in rows && ids[j] in rows
              && rows[ids[i]].sentTimestamp <= rows[ids[j]].sentTimestamp
    {
      assert ids[j] == rest[j - 1];
      if i > 0 { assert ids[i] == rest[i - 1]; }
    }
  }

  lemma {:induction false} TimesDecide(rows: map<string, Row>, chosen: set<string>, a: seq<string>, b: seq<string>)
    requires ListsInTime(rows, chosen, a) && ListsInTime(rows, chosen, b)
    requires forall x, y :: x in chosen && y in chosen && x != y ==> rows[x].sentTimestamp != rows[y].sentTimestamp
    ensures a == b
    decreases |a|
  {
    NothingListed(rows, chosen, a);
    NothingListed(rows, chosen, b);
    if a != [] {
      assert a[0] in a && b[0] in b;
      FirstIsEarliest(rows, chosen, a, b[0]);
      FirstIsEarliest(rows, chosen, b, a[0]);
      TailLists(rows, chosen, a);
      TailLists(rows, chosen, b);
      TimesDecide(rows, chosen - {a[0]}, a[1..], b[1..]);
      assert a == [a[0]] + a[1..] && b == [b[0]] + b[1..];
    }
  }

  lemma NothingListed(rows: map<string, Row>, chosen: set<string>, a: seq<string>)
    requires ListsInTime(rows, chosen, a)
    ensures a == [] <==> chosen == {}
  {
    assert |a| > 0 ==> a[0] in a;
    assert (forall id :: id !in chosen) ==> chosen == {};
  }

  lemma FirstIsEarliest(rows: map<string, Row>, chosen: set<string>, a: seq<string>, id: string)
    requires ListsInTime(rows, chosen, a) && id in chosen
    ensures a != [] && rows[a[0]].sentTimestamp <= rows[id].sentTimestamp
  {
    assert id in a;
  }

  lemma TailLists(rows: map<string, Row>, chosen: set<string>, a: seq<string>)
    requires ListsInTime(rows, chosen, a) && a != []
    ensures ListsInTime(rows, chosen - {a[0]}, a[1..])
  {
    assert a == [a[0]] + a[1..];
    forall id ensures id in a[1..] <==> id in chosen - {a[0]} {
      if id in a[1..] { var i :| 0 <= i < |a[1..]| && a[1..][i] == id; }
    }
  }

  /** Two rows sent in the same millisecond may change places. */
  lemma SwapLists(rows: map<string, Row>, chosen: set<string>, a: seq<string>, i: nat, j: nat)
    requires ListsInTime(rows, chosen, a) && i < j < |a| && rows[a[i]].sentTimestamp == rows[a[j]].sentTimestamp
    ensures ListsInTime(rows, chosen, a[i := a[j]][j := a[i]]) && a[i := a[j]][j := a[i]] != a
  {
    var b := a[i := a[j]][j := a[i]];
    forall id ensures id in b <==> id in a {
      if id in a {
        var k :| 0 <= k < |a| && a[k] == id;
        assert b[if k == i then j else if k == j then i else k] == id;
      }
    }
    forall k | 0 <= k < |a| ensures b[k] in rows && rows[b[k]].sentTimestamp == rows[a[k]].sentTimestamp {
    }
  }

  ghost predicate TimesDiffer(rows: map<string, Row>, chosen: set<string>) {
    forall x, y :: x in chosen && y in chosen && x != y ==>
      x in rows && y in rows && rows[x].sentTimestamp != rows[y].sentTimestamp
  }

  /** If two of the rows were sent in the same millisecond, there are two ways to list them. */
  lemma TwoListings(rows: map<string, Row>, chosen: set<string>) returns (a: seq<string>, b: seq<string>)
    requires chosen <= rows.Keys && !TimesDiffer(rows, chosen)
    ensures ListsInTime(rows, chosen, a) && ListsInTime(rows, chosen, b) && a != b
  {
    var x, y :| x in chosen && y in chosen && x != y && rows[x].sentTimestamp == rows[y].sentTimestamp;
    ListingExists(rows, chosen);
    a :| ListsInTime(rows, chosen, a);
    var i :| 0 <= i < |a| && a[i] == x;
    var j :| 0 <= j < |a| && a[j] == y;
    var p, q := if i < j then i else j, if i < j then j else i;
    SwapLists(rows, chosen, a, p, q);
    b := a[p := a[q]][q := a[p]];
  }

  lemma ListingIsInTime(rows: map<string, Row>, now: int, ids: seq<string>)
    ensures IsListing(rows, now, ids)
            <==> ListsInTime(rows, (set id | id in rows && rows[id].visibleAt <= Millis(now)), ids)
  {
  }

  /** The database has only one way to list the visible rows if and only if no two of them were sent in the same
      millisecond. */
  lemma ListingUniqueIff(rows: map<string, Row>, now: int)
    ensures (forall a, b :: IsListing(rows, now, a) && IsListing(rows, now, b) ==> a == b) <==> DistinctTimes(rows, now)
  {
    var chosen := set id | id in rows && rows[id].visibleAt <= Millis(now);
    assert DistinctTimes(rows, now) <==> TimesDiffer(rows, chosen);
    if TimesDiffer(rows, chosen) {
      forall a, b | IsListing(rows, now, a) && IsListing(rows, now, b) ensures a == b {
        hide IsListing, ListsInTime, DistinctTimes;
        ListingIsInTime(rows, now, a);
        ListingIsInTime(rows, now, b);
        TimesDecide(rows, chosen, a, b);
      }
    } else {
      hide IsListing, ListsInTime, DistinctTimes;
      var a, b := TwoListings(rows, chosen);
      ListingIsInTime(rows, now, a);
      ListingIsInTime(rows, now, b);
    }
  }
}
