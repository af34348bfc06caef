/** The SQLite store of a standard queue without redrive as an object: each method is one critical section with one
    clock reading, each SQL statement one assignment to the table. */
module SqliteStores {
  import opened StoreTypes
  import opened SqliteSpec
  import opened Ordering

  datatype Candidate = Candidate(msg: Message, receiveCount: nat, firstReceived: int)

  function CandidateOf(id: string, r: Row): Candidate {
    Candidate(Message(id, r.body, r.groupId, r.dedupId, r.sequenceNumber, r.sentTimestamp * MILLISECOND, false,
                      NO_HANDLE, 0, 0, 0),
              r.receiveCount, r.firstReceivedAt * MILLISECOND)
  }

  class SqliteStore {
    const cfg: Config
    var rows: map<string, Row>
    var closed: bool
    var nextHandle: nat

    function Value(): Table
      reads this
    {
      Table(cfg, rows, closed, nextHandle)
    }

    constructor (cfg: Config)
      ensures Value() == InitTable(cfg)
    {
      this.cfg := cfg;
      rows, closed, nextHandle := map[], false, 1;
    }

    method SendMessage(msg: Message, delay: int, now: int) returns (result: InsertResult)
      modifies this`rows
      ensures (Value(), result) == Insert(old(Value()), now, msg, delay)
    {
      if closed {
        return InsertClosed;
      }
      var visibleAt := now;
      if delay > 0 {
        visibleAt := now + delay * SECOND;
      }
      var stamped := msg.(sentTimestamp := now, isVisible := delay == 0);
      if stamped.id in rows {
        return InsertDuplicate;
      }
      rows := rows[stamped.id := Row(msg.body, msg.groupId, msg.dedupId, msg.sequenceNumber, Millis(now),
                                     Millis(visibleAt), NO_HANDLE, 0, 0)];
      result := Inserted(stamped);
    }

    method DeleteExpiredMessages(now: int)
      modifies this`rows
      ensures Value() == DeleteExpired(old(Value()), now)
    {
      var cutoff := Millis(cfg.Cutoff(now));
      rows := map id | id in rows && rows[id].sentTimestamp >= cutoff :: rows[id];
    }

    /** SELECT id ... WHERE visible_at <= now ORDER BY sent_timestamp: rows sent at the same time come in any order. */
    method SelectVisible(now: int) returns (listing: seq<string>)
      ensures IsListing(rows, now, listing)
    {
      var rest := set id | id in rows && rows[id].visibleAt <= Millis(now);
      listing := [];
      while rest != {}
        invariant NoRepeats(listing) && forall i :: 0 <= i < |listing| ==> listing[i] in rows && listing[i] !in rest
        invariant forall id :: id in listing || id in rest <==> id in rows && rows[id].visibleAt <= Millis(now)
        invariant forall i, j :: 0 <= i < j < |listing| ==>
                    rows[listing[i]].sentTimestamp <= rows[listing[j]].sentTimestamp
        invariant forall i, id :: 0 <= i < |listing| && id in rest ==>
                    rows[listing[i]].sentTimestamp <= rows[id].sentTimestamp
      {
        var table := rows;
        var sentAt := (id: string) => if id in table then table[id].sentTimestamp else 0;
        LeastExists(rest, sentAt);
        var id :| id in rest && IsLeast(rest, sentAt, id);
        listing := listing + [id];
        rest := rest - {id};
      }
    }

    /** One pass of ReceiveMessages; `listing` is the order in which the database listed the visible rows. */
    method ReceiveMessages(max: int, requested: int, now: int)
      returns (result: Option<seq<Message>>, ghost listing: seq<string>)
      modifies this`rows, this`nextHandle
      ensures old(closed) || IsListing(DeleteExpired(old(Value()), now).rows, now, listing)
      ensures (Value(), result) == Select(old(Value()), now, max, requested, listing)
    {
      if closed {
        return None, [];
      }
      var visibility := cfg.EffectiveVisibility(requested);
      DeleteExpiredMessages(now);
      var selected := SelectVisible(now);
      listing := selected;
      var ids := Limit(selected, max);
      var candidates := Candidates(ids);
      var batch := HandOutAll(candidates, ids, max, visibility, now);
      result := Some(batch);
    }

    /** The loop over the candidates, which stops when the batch is full. */
    method HandOutAll(candidates: seq<Candidate>, ghost ids: seq<string>, max: int, visibility: int, now: int)
      returns (batch: seq<Message>)
      requires |candidates| == |ids| && NoRepeats(ids) && forall k :: 0 <= k < |ids| ==> ids[k] in rows
      requires forall k :: 0 <= k < |ids| ==> candidates[k] == CandidateOf(ids[k], rows[ids[k]])
      modifies this`rows, this`nextHandle
      ensures (Value(), batch) == HandOutRows(old(Value()), ids, 0, now, max, visibility, [])
    {
      hide ReturnedMessage;
      batch := [];
      for i := 0 to |candidates|
        invariant |batch| == i && rows.Keys == old(rows).Keys
        invariant forall k :: i <= k < |ids| ==> rows[ids[k]] == old(rows)[ids[k]]
        invariant HandOutRows(Value(), ids, i, now, max, visibility, batch)
               == HandOutRows(old(Value()), ids, 0, now, max, visibility, [])
      {
        var message := HandOut(candidates[i], visibility, now);
        batch := batch + [message];
        if |batch| >= max {
          return;
        }
      }
    }

    /** UPDATE ... WHERE id = the candidate's id. */
    method HandOut(c: Candidate, visibility: int, now: int) returns (message: Message)
      requires c.msg.id in rows && c == CandidateOf(c.msg.id, rows[c.msg.id])
      modifies this`rows, this`nextHandle
      ensures Value() == TakeRow(old(Value()), c.msg.id, now, visibility)
      ensures message == ReturnedMessage(c.msg.id, old(rows)[c.msg.id], old(nextHandle), now)
    {
      var handle := nextHandle;
      var first := if c.firstReceived == ZERO_TIME_MILLIS * MILLISECOND then now else c.firstReceived;
      rows := rows[c.msg.id := rows[c.msg.id].(handle := handle, visibleAt := Millis(now + visibility * SECOND),
                                               receiveCount := c.receiveCount + 1, firstReceivedAt := Millis(first))];
      nextHandle := nextHandle + 1;
      message := c.msg.(receiptHandle := handle, receiveCount := c.receiveCount + 1,
                        receivedTimestamp := now, firstReceived := first);
    }

    /** The rows of the answer as messages with what the update needs. */
    method Candidates(ids: seq<string>) returns (candidates: seq<Candidate>)
      requires forall k :: 0 <= k < |ids| ==> ids[k] in rows
      ensures |candidates| == |ids|
      ensures forall k :: 0 <= k < |ids| ==> candidates[k] == CandidateOf(ids[k], rows[ids[k]])
    {
      candidates := [];
      for i := 0 to |ids|
        invariant |candidates| == i
        invariant forall k :: 0 <= k < i ==> candidates[k] == CandidateOf(ids[k], rows[ids[k]])
      {
        candidates := candidates + [CandidateOf(ids[i], rows[ids[i]])];
      }
    }

    method DeleteMessage(handle: Handle) returns (result: UpdateResult)
      modifies this`rows
      ensures (Value(), result) == DeleteRows(old(Value()), handle)
    {
      if closed {
        return UpdateClosed;
      }
      var affected := WithHandle(rows, handle);
      rows := rows - affected;
      result := if |affected| == 0 then NoSuchHandle else Updated;
    }

    method ChangeMessageVisibility(handle: Handle, timeout: int, now: int) returns (result: UpdateResult)
      modifies this`rows
      ensures (Value(), result) == UpdateVisibility(old(Value()), now, handle, timeout)
    {
      if closed {
        return UpdateClosed;
      }
      var affected := |WithHandle(rows, handle)|;
      if timeout == 0 {
        rows := map id | id in rows ::
          if rows[id].handle == handle then rows[id].(visibleAt := Millis(now), handle := NO_HANDLE) else rows[id];
      } else {
        rows := map id | id in rows ::
          if rows[id].handle == handle then rows[id].(visibleAt := Millis(now + timeout * SECOND)) else rows[id];
        assert rows == SetVisible(old(rows), handle, Millis(now + timeout * SECOND), handle);
      }
      result := if affected == 0 then NoSuchHandle else Updated;
    }

    /** SELECT COUNT(*) ... of the visible rows. */
    method ApproximateNumberOfMessages(now: int) returns (count: nat)
      ensures count == |VisibleRows(Value(), now)|
    {
      count := |set id | id in rows && rows[id].visibleAt <= Millis(now)|;
    }

    method ApproximateNumberOfMessagesNotVisible(now: int) returns (count: nat)
      ensures count == |InFlightRows(Value(), now)|
    {
      count := |set id | id in rows && rows[id].visibleAt > Millis(now) && rows[id].handle != NO_HANDLE|;
    }

    method ApproximateNumberOfMessagesDelayed(now: int) returns (count: nat)
      ensures count == |DelayedRows(Value(), now)|
    {
      count := |set id | id in rows && rows[id].visibleAt > Millis(now) && rows[id].handle == NO_HANDLE|;
    }

    method PurgeMessages() returns (ok: bool)
      modifies this`rows
      ensures (Value(), ok) == PurgeRows(old(Value()))
    {
      if closed {
        return false;
      }
      rows := map[];
      ok := true;
    }

    method CloseStore()
      modifies this`closed
      ensures Value() == old(Value()).(closed := true)
    {
      closed := true;
    }
  }
}
