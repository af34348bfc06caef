/** A move task that runs alone with a frozen clock: it ends, and what it has copied when it does. */
module MoveDrain {
  import opened StoreTypes
  import opened MemorySpec
  import opened MemoryInvariants
  import opened Ordering
  import opened ReceivePass
  import opened MoveTask
  import MemoryRuns
  import GroupIndex

  /** Sends the messages in order; counts the sends that met no error. */
  function CopyAll(dest: State, now: int, ms: seq<Message>): (State, nat) {
    if ms == [] then (dest, 0)
    else
      var (d, n) := CopyAll(dest, now, ms[..|ms| - 1]);
      var (d', r) := Send(d, now, PrepareForRedrive(ms[|ms| - 1]), 0);
      (d', if r.SendClosed? then n else n + 1)
  }

  /** One turn of the move task's loop: both stores, the final status if the move task ends here, and the number of
      messages counted. */
  function Turn(source: State, dest: State, now: int): (State, State, Option<Status>, nat) {
    var (s, r) := Receive(source, now, BATCH_SIZE, MOVE_VISIBILITY);
    if r.None? then (source, dest, Some(Failed), 0)
    else if r.value == [] then (s, dest, Some(Completed), 0)
    else
      var (d, n) := CopyAll(dest, now, r.value);
      (s, d, None, n)
  }

  /** The outcome of the move task's loop: both stores, the final status and the number of counted messages. */
  function Drain(source: State, dest: State, now: int): (State, State, Status, nat)
    decreases VisibleCount(source, now)
  {
    var (s, d, status, n) := Turn(source, dest, now);
    if status.Some? then (s, d, status.value, n)
    else
      ReceiveShrinks(source, now);
      Later(Drain(s, d, now), n)
  }

  /** The outcome when n messages were counted before. */
  function Later(outcome: (State, State, Status, nat), n: nat): (State, State, Status, nat) {
    (outcome.0, outcome.1, outcome.2, n + outcome.3)
  }

  // ---------------------------------------------------------------- termination

  predicate IsVisible(now: int, e: Entry) {
    e.visibleAt <= now
  }

  lemma {:induction false} CountNotLarger(es: seq<Entry>, es': seq<Entry>, p: Entry -> bool)
    requires |es| == |es'| && forall i :: 0 <= i < |es| && p(es'[i]) ==> p(es[i])
    ensures CountIf(es', p) <= CountIf(es, p)
  {
    if es != [] { CountNotLarger(es[..|es| - 1], es'[..|es'| - 1], p); }
  }

  lemma {:induction false} CountDrops(es: seq<Entry>, es': seq<Entry>, p: Entry -> bool, i: nat)
    requires |es| == |es'| && forall j :: 0 <= j < |es| && p(es'[j]) ==> p(es[j])
    requires i < |es| && p(es[i]) && !p(es'[i])
    ensures CountIf(es', p) < CountIf(es, p)
  {
    if i < |es| - 1 {
      CountDrops(es[..|es| - 1], es'[..|es'| - 1], p, i);
    } else {
      CountNotLarger(es[..|es| - 1], es'[..|es'| - 1], p);
    }
  }

  lemma {:induction false} CountKept(es: seq<Entry>, cutoff: int, p: Entry -> bool)
    ensures CountIf(Kept(es, cutoff), p) <= CountIf(es, p)
  {
    if es != [] {
      var front, e := es[..|es| - 1], es[|es| - 1];
      CountKept(front, cutoff, p);
      if e.msg.sentTimestamp >= cutoff {
        assert (Kept(front, cutoff) + [e])[..|Kept(front, cutoff)|] == Kept(front, cutoff);
      } else {
        assert Kept(es, cutoff) == Kept(front, cutoff);
      }
    }
  }

  /** Every message a batch hands out was visible and is not any more, so fewer messages are left to deliver. */
  lemma ReceiveShrinks(source: State, now: int)
    requires var r := Receive(source, now, BATCH_SIZE, MOVE_VISIBILITY).1; r.Some? && r.value != []
    ensures VisibleCount(Receive(source, now, BATCH_SIZE, MOVE_VISIBILITY).0, now) < VisibleCount(source, now)
  {
    var visible := (e: Entry) => e.visibleAt <= now;
    var kept := Expire(source, now);
    var (s, r) := Receive(source, now, BATCH_SIZE, MOVE_VISIBILITY);
    var p := Picked(kept, now, BATCH_SIZE);
    FirstEligible(source, now, BATCH_SIZE, MOVE_VISIBILITY);
    EligibleFromExact(kept, now, 0);
    forall i | 0 <= i < |kept.entries| ensures s.entries[i] == kept.entries[i] || !visible(s.entries[i]) {
      if i in p { var k :| 0 <= k < |p| && p[k] == i; }
    }
    assert p[0] in EligibleFrom(kept, now, 0);
    assert visible(kept.entries[p[0]]) && !visible(s.entries[p[0]]);
    CountDrops(kept.entries, s.entries, visible, p[0]);
    CountKept(source.entries, source.cfg.Cutoff(now), visible);
  }

  // ---------------------------------------------------------------- what is copied

  /** What a message carries from queue to queue. */
  datatype Content = Content(id: string, body: string, groupId: string, dedupId: string, sequenceNumber: nat)

  function ContentOf(m: Message): Content {
    Content(m.id, m.body, m.groupId, m.dedupId, m.sequenceNumber)
  }

  function Contents(es: seq<Entry>): seq<Content> {
    if es == [] then [] else Contents(es[..|es| - 1]) + [ContentOf(es[|es| - 1].msg)]
  }

  function MessageContents(ms: seq<Message>): (cs: seq<Content>)
    ensures |cs| == |ms| && forall k :: 0 <= k < |ms| ==> cs[k] == ContentOf(ms[k])
  {
    seq(|ms|, k requires 0 <= k < |ms| => ContentOf(ms[k]))
  }

  /** The contents of the visible messages, in store order. */
  function VisibleContents(es: seq<Entry>, now: int): seq<Content> {
    if es == [] then []
    else VisibleContents(es[..|es| - 1], now)
         + if IsVisible(now, es[|es| - 1]) then [ContentOf(es[|es| - 1].msg)] else []
  }

  /** An open standard destination takes every message of a batch. */
  lemma {:induction false} CopyAllCopies(dest: State, now: int, ms: seq<Message>)
    requires !dest.closed && !dest.cfg.isFifo
    ensures var (d, n) := CopyAll(dest, now, ms);
            && n == |ms| && !d.closed && d.cfg == dest.cfg
            && Contents(d.entries) == Contents(dest.entries) + MessageContents(ms)
  {
    if ms == [] {
      assert Contents(dest.entries) + MessageContents([]) == Contents(dest.entries);
    } else {
      var front, last := ms[..|ms| - 1], ms[|ms| - 1];
      CopyAllCopies(dest, now, front);
      var d := CopyAll(dest, now, front).0;
      var d' := Send(d, now, PrepareForRedrive(last), 0).0;
      var n := d'.entries[|d.entries|];
      assert d'.entries == d.entries + [n] && d'.entries[..|d.entries|] == d.entries;
      assert Contents(d'.entries) == Contents(d.entries) + [ContentOf(last)];
      AppendContent(Contents(dest.entries), front, last);
      assert ms == front + [last];
    }
  }

  lemma AppendContent(was: seq<Content>, front: seq<Message>, last: Message)
    ensures was + MessageContents(front + [last]) == was + MessageContents(front) + [ContentOf(last)]
  {
  }

  // ---------------------------------------------------------------- batches of a standard queue

  /** The visible positions from i on carry the visible contents from i on. */
  function VisibleFrom(s: State, now: int, i: nat): seq<Content>
    requires i <= |s.entries|
    decreases |s.entries| - i
  {
    if i == |s.entries| then []
    else (if IsVisible(now, s.entries[i]) then [ContentOf(s.entries[i].msg)] else []) + VisibleFrom(s, now, i + 1)
  }

  lemma {:induction false} VisibleFromIs(s: State, now: int, i: nat)
    requires i <= |s.entries|
    ensures VisibleContents(s.entries, now) == VisibleContents(s.entries[..i], now) + VisibleFrom(s, now, i)
    decreases |s.entries| - i
  {
    if i == |s.entries| {
      assert s.entries[..i] == s.entries;
    } else {
      VisibleFromIs(s, now, i + 1);
      assert s.entries[..i + 1][..i] == s.entries[..i];
      var one := if IsVisible(now, s.entries[i]) then [ContentOf(s.entries[i].msg)] else [];
      assert VisibleContents(s.entries[..i], now) + one + VisibleFrom(s, now, i + 1)
          == VisibleContents(s.entries[..i], now) + (one + VisibleFrom(s, now, i + 1));
    }
  }

  /** In a standard queue the eligible positions are the visible ones. */
  lemma {:induction false} EligibleContents(s: State, now: int, i: nat)
    requires i <= |s.entries| && !s.cfg.isFifo
    ensures var p := EligibleFrom(s, now, i);
            && |VisibleFrom(s, now, i)| == |p|
            && forall k :: 0 <= k < |p| ==> p[k] < |s.entries| && VisibleFrom(s, now, i)[k] == ContentOf(s.entries[p[k]].msg)
    decreases |s.entries| - i
  {
    if i < |s.entries| {
      EligibleContents(s, now, i + 1);
      assert Eligible(s, now, i) <==> IsVisible(now, s.entries[i]);
    }
  }

  /** The messages of a standard queue that wait to be delivered: visible and not expired. */
  function Waiting(source: State, now: int): seq<Content> {
    VisibleContents(Expire(source, now).entries, now)
  }

  /** The visible positions after the first n have been handed out. */
  lemma RestIsEligible(kept: State, s: State, now: int, p: seq<nat>, n: nat)
    requires !kept.cfg.isFifo && s.cfg == kept.cfg && |s.entries| == |kept.entries|
    requires n <= |EligibleFrom(kept, now, 0)| && p == EligibleFrom(kept, now, 0)[..n]
    requires forall i :: 0 <= i < |s.entries| ==>
               if i in p then s.entries[i].visibleAt > now else s.entries[i] == kept.entries[i]
    ensures EligibleFrom(s, now, 0) == EligibleFrom(kept, now, 0)[n..]
  {
    EligibleFromExact(kept, now, 0);
    EligibleFromExact(s, now, 0);
    var all, rest := EligibleFrom(kept, now, 0), EligibleFrom(kept, now, 0)[n..];
    SplitIncreasing(all, n);
    forall k: nat ensures k in EligibleFrom(s, now, 0) <==> k in rest {
      if k < |s.entries| { assert Eligible(s, now, k) <==> Eligible(kept, now, k) && k !in p; }
    }
    GroupIndex.IncreasingUnique(EligibleFrom(s, now, 0), rest);
  }

  lemma SplitIncreasing(all: seq<nat>, n: nat)
    requires Increasing(all) && n <= |all|
    ensures Increasing(all[n..]) && forall k :: k in all[n..] <==> k in all && k !in all[..n]
  {
    assert all == all[..n] + all[n..];
  }

  lemma VisibleByPosition(s: State, now: int)
    requires !s.cfg.isFifo
    ensures var p := EligibleFrom(s, now, 0);
            && |VisibleContents(s.entries, now)| == |p|
            && forall k :: 0 <= k < |p| ==>
                 p[k] < |s.entries| && VisibleContents(s.entries, now)[k] == ContentOf(s.entries[p[k]].msg)
  {
    VisibleFromIs(s, now, 0);
    EligibleContents(s, now, 0);
    assert VisibleContents(s.entries[..0], now) == [];
  }

  /** A receive pass position by position. */
  lemma PassByPosition(source: State, now: int)
    requires !source.closed
    ensures var kept := Expire(source, now);
            var (s, r) := Receive(source, now, BATCH_SIZE, MOVE_VISIBILITY);
            var p := Picked(kept, now, BATCH_SIZE);
            && r.Some? && |r.value| == |p| && |s.entries| == |kept.entries|
            && s.cfg == source.cfg && !s.closed
            && (forall i :: 0 <= i < |s.entries| ==>
                 if i in p then s.entries[i].visibleAt > now else s.entries[i] == kept.entries[i])
            && (forall i :: 0 <= i < |s.entries| ==> ContentOf(s.entries[i].msg) == ContentOf(kept.entries[i].msg))
            && (forall i :: 0 <= i < |s.entries| ==>
                 s.entries[i].msg.sentTimestamp == kept.entries[i].msg.sentTimestamp)
            && (forall k :: 0 <= k < |p| ==> p[k] < |s.entries| && ContentOf(r.value[k]) == ContentOf(s.entries[p[k]].msg))
  {
    var kept := Expire(source, now);
    var (s, r) := Receive(source, now, BATCH_SIZE, MOVE_VISIBILITY);
    var p := Picked(kept, now, BATCH_SIZE);
    FirstEligible(source, now, BATCH_SIZE, MOVE_VISIBILITY);
    MemoryRuns.ScanConfig(kept, 0, now, BATCH_SIZE, MOVE_VISIBILITY, []);
    forall i | 0 <= i < |s.entries|
      ensures if i in p then s.entries[i].visibleAt > now else s.entries[i] == kept.entries[i]
      ensures ContentOf(s.entries[i].msg) == ContentOf(kept.entries[i].msg)
      ensures s.entries[i].msg.sentTimestamp == kept.entries[i].msg.sentTimestamp
    {
      if i in p { var k :| 0 <= k < |p| && p[k] == i; }
    }
    forall k | 0 <= k < |p| ensures r.value[k] == s.entries[p[k]].msg {
      assert r.value[0 + k] == s.entries[p[k]].msg;
    }
  }

  /** A batch of a standard queue is the first of the waiting messages, and leaves the others waiting. */
  lemma BatchIsFirstWaiting(source: State, now: int)
    requires !source.closed && !source.cfg.isFifo
    ensures var (s, r) := Receive(source, now, BATCH_SIZE, MOVE_VISIBILITY);
            && r.Some? && Waiting(source, now) == MessageContents(r.value) + VisibleContents(s.entries, now)
            && (r.value == [] ==> VisibleContents(s.entries, now) == [])
  {
    PassByPosition(source, now);
    var kept := Expire(source, now);
    var (s, r) := Receive(source, now, BATCH_SIZE, MOVE_VISIBILITY);
    var p := Picked(kept, now, BATCH_SIZE);
    RestIsEligible(kept, s, now, p, |p|);
    VisibleByPosition(kept, now);
    VisibleByPosition(s, now);
    var whole, first, rest := VisibleContents(kept.entries, now), MessageContents(r.value), VisibleContents(s.entries, now);
    forall k | 0 <= k < |rest| ensures whole[|p| + k] == rest[k] {
      assert EligibleFrom(s, now, 0)[k] == EligibleFrom(kept, now, 0)[|p| + k];
    }
    assert whole == first + rest;
  }

  /** A second pass at the same time finds nothing more to expire. */
  lemma {:induction false} NothingMoreExpires(es: seq<Entry>, cutoff: int)
    requires forall i :: 0 <= i < |es| ==> es[i].msg.sentTimestamp >= cutoff
    ensures Kept(es, cutoff) == es
  {
    if es != [] {
      NothingMoreExpires(es[..|es| - 1], cutoff);
    }
  }

  lemma AfterBatch(source: State, now: int)
    requires !source.closed
    ensures var s := Receive(source, now, BATCH_SIZE, MOVE_VISIBILITY).0;
            && Expire(s, now).entries == s.entries && s.cfg == source.cfg && !s.closed
            && Contents(s.entries) == Contents(Expire(source, now).entries)
  {
    PassByPosition(source, now);
    var kept := Expire(source, now);
    var s := Receive(source, now, BATCH_SIZE, MOVE_VISIBILITY).0;
    KeptMembers(source.entries, source.cfg.Cutoff(now));
    forall i | 0 <= i < |s.entries| ensures s.entries[i].msg.sentTimestamp >= s.cfg.Cutoff(now) {
      assert kept.entries[i] in kept.entries;
    }
    NothingMoreExpires(s.entries, s.cfg.Cutoff(now));
    SameContents(s.entries, kept.entries);
  }

  lemma {:induction false} SameContents(es: seq<Entry>, es': seq<Entry>)
    requires |es| == |es'| && forall i :: 0 <= i < |es| ==> ContentOf(es[i].msg) == ContentOf(es'[i].msg)
    ensures Contents(es) == Contents(es')
  {
    if es != [] { SameContents(es[..|es| - 1], es'[..|es'| - 1]); }
  }

  /** The move task has completed and copied `waiting`, all of it and in order, on top of the destination; `kept` is
      still in the source, none of it waiting. */
  ghost predicate CopiedAll(dest: State, now: int, waiting: seq<Content>, kept: seq<Content>,
                            outcome: (State, State, Status, nat)) {
    var (s, d, status, n) := outcome;
    && status == Completed && n == |waiting|
    && Contents(d.entries) == Contents(dest.entries) + waiting
    && Contents(s.entries) == kept && VisibleContents(s.entries, now) == []
  }

  /** Copying a batch first and the rest afterwards. */
  lemma BatchThenRest(dest: State, d: State, now: int, batch: seq<Content>, rest: seq<Content>, kept: seq<Content>,
                      outcome: (State, State, Status, nat), n: nat)
    requires Contents(d.entries) == Contents(dest.entries) + batch && n == |batch|
    requires CopiedAll(d, now, rest, kept, outcome)
    ensures CopiedAll(dest, now, batch + rest, kept, Later(outcome, n))
  {
    assert Contents(dest.entries) + batch + rest == Contents(dest.entries) + (batch + rest);
  }

  /** Alone, with the clock frozen, between open standard queues: the move task completes; it has copied every waiting
      message exactly once and in order, and counted each; nothing is left waiting; and every unexpired message is
      still in the source as well. */
  lemma {:induction false} DrainCopiesAllWaiting(source: State, dest: State, now: int)
    requires !source.closed && !source.cfg.isFifo && !dest.closed && !dest.cfg.isFifo
    ensures CopiedAll(dest, now, Waiting(source, now), Contents(Expire(source, now).entries), Drain(source, dest, now))
    decreases VisibleCount(source, now)
  {
    BatchIsFirstWaiting(source, now);
    AfterBatch(source, now);
    var (s, r) := Receive(source, now, BATCH_SIZE, MOVE_VISIBILITY);
    if r.value == [] {
      assert Contents(dest.entries) + [] == Contents(dest.entries);
    } else {
      var (d, n) := CopyAll(dest, now, r.value);
      CopyAllCopies(dest, now, r.value);
      ReceiveShrinks(source, now);
      DrainCopiesAllWaiting(s, d, now);
      BatchThenRest(dest, d, now, MessageContents(r.value), Waiting(s, now), Contents(s.entries), Drain(s, d, now), n);
    }
  }

  lemma {:induction false} CopyToClosed(dest: State, now: int, ms: seq<Message>)
    requires dest.closed
    ensures CopyAll(dest, now, ms) == (dest, 0)
  {
    if ms != [] { CopyToClosed(dest, now, ms[..|ms| - 1]); }
  }

  /** Into a closed destination the move task still completes, having copied and counted nothing; the source keeps
      everything. */
  lemma {:induction false} DrainIntoClosed(source: State, dest: State, now: int)
    requires !source.closed && dest.closed
    ensures var (s, d, status, n) := Drain(source, dest, now);
            status == Completed && n == 0 && d == dest && Contents(s.entries) == Contents(Expire(source, now).entries)
    decreases VisibleCount(source, now)
  {
    AfterBatch(source, now);
    PassByPosition(source, now);
    var (s, r) := Receive(source, now, BATCH_SIZE, MOVE_VISIBILITY);
    if r.value != [] {
      CopyToClosed(dest, now, r.value);
      ReceiveShrinks(source, now);
      DrainIntoClosed(s, dest, now);
    }
  }
}
