/** What the move task does to a source that is a SQLite queue: the delete with the blanked handle, which finds nothing
    in an in-memory store, removes every row without a handle. */
module MoveSqlite {
  import opened StoreTypes
  import opened MemorySpec
  import opened SqliteSpec
  import opened MoveTask

  /** The inner loop over a batch: each message is prepared and sent, and after a send without an error "deleted"
      under the handle it then carries. Counts those sends. */
  function CopyFromTable(t: Table, dest: State, now: int, ms: seq<Message>): (Table, State, nat) {
    if ms == [] then (t, dest, 0)
    else
      var (t1, d, n) := CopyFromTable(t, dest, now, ms[..|ms| - 1]);
      var msg := PrepareForRedrive(ms[|ms| - 1]);
      var (d', r) := Send(d, now, msg, 0);
      if r.SendClosed? then (t1, d', n) else (DeleteRows(t1, msg.receiptHandle).0, d', n + 1)
  }

  /** The rows that carry a handle. */
  function Handled(rows: map<string, Row>): map<string, Row> {
    map id | id in rows && rows[id].handle != NO_HANDLE :: rows[id]
  }

  lemma BlankDelete(t: Table)
    requires !t.closed
    ensures DeleteRows(t, NO_HANDLE).0 == t.(rows := Handled(t.rows))
    ensures Handled(Handled(t.rows)) == Handled(t.rows)
  {
    assert t.rows - WithHandle(t.rows, NO_HANDLE) == Handled(t.rows);
  }

  /** Into an open destination the loop leaves the rows with a handle, into a closed one it leaves all. */
  lemma {:induction false} CopyDeletesBlank(t: Table, dest: State, now: int, ms: seq<Message>)
    requires !t.closed
    ensures var (t', d, n) := CopyFromTable(t, dest, now, ms);
            && d.closed == dest.closed && n == (if dest.closed then 0 else |ms|)
            && t' == if dest.closed || ms == [] then t else t.(rows := Handled(t.rows))
  {
    if ms != [] {
      CopyDeletesBlank(t, dest, now, ms[..|ms| - 1]);
      BlankDelete(t);
      BlankDelete(t.(rows := Handled(t.rows)));
    }
  }

  /** One turn of the move task over an open SQLite source with at least one message sent. Exactly those unexpired
      messages are lost, neither sent nor left in the source, that carry no handle and are not in the batch. */
  lemma BatchLoses(t: Table, dest: State, now: int, listing: seq<string>, id: string)
    requires !t.closed && !dest.closed && t.nextHandle > NO_HANDLE && id in DeleteExpired(t, now).rows
    requires IsListing(DeleteExpired(t, now).rows, now, listing) && listing != []
    ensures var (t1, batch) := Select(t, now, BATCH_SIZE, MOVE_VISIBILITY, listing);
            var sent := Next(listing, 0, BATCH_SIZE);
            && batch.Some? && |batch.value| == |sent|
            && (forall k :: 0 <= k < |sent| ==> batch.value[k].id == sent[k])
            && (id !in CopyFromTable(t1, dest, now, batch.value).0.rows
                <==> DeleteExpired(t, now).rows[id].handle == NO_HANDLE && id !in sent)
  {
    var rest := DeleteExpired(t, now);
    var sent := Next(listing, 0, BATCH_SIZE);
    var (t1, batch) := Select(t, now, BATCH_SIZE, MOVE_VISIBILITY, listing);
    SelectHandsOut(t, now, BATCH_SIZE, MOVE_VISIBILITY, listing);
    CopyDeletesBlank(t1, dest, now, batch.value);
    forall k | 0 <= k < |sent| ensures batch.value[k].id == sent[k] {
      assert batch.value[0 + k] == ReturnedMessage(sent[k], rest.rows[sent[k]], rest.nextHandle + k, now);
    }
    if id in sent {
      var k :| 0 <= k < |sent| && sent[k] == id;
      assert t1.rows[id].handle == rest.nextHandle + k;
    }
  }

  /** The move task loses nothing in such a turn if and only if every unexpired row without a handle is in the batch. */
  lemma NothingLostIff(t: Table, dest: State, now: int, listing: seq<string>)
    requires !t.closed && !dest.closed && t.nextHandle > NO_HANDLE
    requires IsListing(DeleteExpired(t, now).rows, now, listing) && listing != []
    ensures var (t1, batch) := Select(t, now, BATCH_SIZE, MOVE_VISIBILITY, listing);
            CopyFromTable(t1, dest, now, batch.value).0.rows.Keys == DeleteExpired(t, now).rows.Keys
            <==> forall id :: id in DeleteExpired(t, now).rows && DeleteExpired(t, now).rows[id].handle == NO_HANDLE ==>
                   id in Next(listing, 0, BATCH_SIZE)
  {
    var rest := DeleteExpired(t, now);
    var (t1, batch) := Select(t, now, BATCH_SIZE, MOVE_VISIBILITY, listing);
    SelectHandsOut(t, now, BATCH_SIZE, MOVE_VISIBILITY, listing);
    CopyDeletesBlank(t1, dest, now, batch.value);
    var left := CopyFromTable(t1, dest, now, batch.value).0.rows;
    assert left.Keys <= rest.rows.Keys;
    hide IsListing, Select, CopyFromTable, Next, DeleteExpired;
    forall id | id in rest.rows
      ensures id !in left <==> rest.rows[id].handle == NO_HANDLE && id !in Next(listing, 0, BATCH_SIZE)
    {
      BatchLoses(t, dest, now, listing, id);
    }
    assert (forall id :: id in rest.rows ==> id in left) <==> left.Keys == rest.rows.Keys;
  }
}
