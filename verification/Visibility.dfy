/** The visibility timeout over whole runs: a message that was handed out stays hidden until its deadline, and what a
    message says about its receives is true. */
module Visibility {
  import opened StoreTypes
  import opened MemorySpec
  import opened MemoryInvariants
  import opened MemoryRuns
  import opened ReceivePass

  /** Entry e, if it is still stored, is as it was. */
  ghost predicate Untouched(s: State, e: Entry) {
    forall e' :: e' in s.entries && e'.key == e.key ==> e' == e
  }

  lemma Itself(s: State, e: Entry)
    requires KeysOk(s) && e in s.entries
    ensures Untouched(s, e)
  {
    forall e' | e' in s.entries && e'.key == e.key ensures e' == e { SameKeySameEntry(s, e', e); }
  }

  lemma ReceiveLeavesHidden(s: State, now: int, max: int, requested: int, e: Entry)
    requires Inv(s) && e in s.entries && e.visibleAt > now
    ensures Untouched(Receive(s, now, max, requested).0, e)
  {
    if s.closed {
      Itself(s, e);
    } else {
      var kept := Expire(s, now);
      var s' := Receive(s, now, max, requested).0;
      var p := Picked(kept, now, max);
      FirstEligible(s, now, max, requested);
      PickedAreVisible(kept, now, max);
      KeptMembers(s.entries, s.cfg.Cutoff(now));
      forall e' | e' in s'.entries && e'.key == e.key ensures e' == e {
        var j :| 0 <= j < |s'.entries| && s'.entries[j] == e';
        assert kept.entries[j].key == e.key by {
          if j in p { var k :| 0 <= k < |p| && p[k] == j; }
        }
        SameKeySameEntry(s, kept.entries[j], e);
      }
    }
  }

  lemma ChangeLeavesOthers(s: State, now: int, h: Handle, timeout: int, e: Entry)
    requires Inv(s) && e in s.entries && e.handle != h
    ensures Untouched(ChangeVisibility(s, now, h, timeout).0, e)
  {
    Itself(s, e);
    var i := FindHandle(s.entries, h);
    if i < |s.entries| {
      var s' := ChangeVisibility(s, now, h, timeout).0;
      assert s'.entries == s.entries[i := s'.entries[i]];
      UpdatedMembers(s, i, s'.entries[i]);
      SameKeyAt(s, i, e);
    }
  }

  lemma SameKeyAt(s: State, i: nat, e: Entry)
    requires KeysOk(s) && i < |s.entries| && e in s.entries
    ensures s.entries[i].key == e.key ==> s.entries[i] == e
  {
    if s.entries[i].key == e.key { SameKeySameEntry(s, s.entries[i], e); }
  }

  lemma FireLeavesHidden(s: State, now: int, t: nat, e: Entry)
    requires Inv(s) && e in s.entries && e.visibleAt > now
    ensures Untouched(Fire(s, now, t).0, e)
  {
    Itself(s, e);
    if t in s.armed && s.armed[t].deadline <= now {
      TimerFindsItsMessage(s, t);
      var i := FindKey(s.entries, s.armed[t].key);
      SameKeyAt(s, i, e);
      RemovedMembers(s, i);
      UpdatedMembers(s, i, Release(s, i).entries[i]);
    }
  }

  /** A step before the deadline leaves a held message alone, unless it changes the visibility under its handle. */
  lemma StepLeavesHeld(w: World, a: Action, e: Entry)
    requires Inv(w.store) && e in w.store.entries && e.handle != NO_HANDLE && e.visibleAt > w.now
    requires !(a.DoChangeVisibility? && a.handle == e.handle)
    ensures Untouched(Step(w, a).store, e)
  {
    hide Inv, Send, Receive, ChangeVisibility, Fire;
    match a
    case DoSend(msg, delay) => SendLeaves(w.store, w.now, msg, delay, e);
    case DoReceive(max, requested) => ReceiveLeavesHidden(w.store, w.now, max, requested, e);
    case DoDelete(h) => DeleteLeaves(w.store, h, e);
    case DoChangeVisibility(h, timeout) => ChangeLeavesOthers(w.store, w.now, h, timeout, e);
    case DoFire(t) => FireLeavesHidden(w.store, w.now, t, e);
    case DoTick(_) => StaysItself(w.store, e);
    case DoClose => StaysItself(w.store, e);
    case DoPurge =>
  }

  lemma StaysItself(s: State, e: Entry)
    requires Inv(s) && e in s.entries
    ensures Untouched(s, e) && Untouched(Close(s), e)
  {
    Itself(s, e);
  }

  lemma SendLeaves(s: State, now: int, msg: Message, delay: int, e: Entry)
    requires Inv(s) && e in s.entries
    ensures Untouched(Send(s, now, msg, delay).0, e)
  {
    Itself(s, e);
    assert e.key < s.nextKey by { var i :| 0 <= i < |s.entries| && s.entries[i] == e; }
  }

  lemma DeleteLeaves(s: State, h: Handle, e: Entry)
    requires Inv(s) && e in s.entries
    ensures Untouched(Delete(s, h).0, e)
  {
    Itself(s, e);
    var i := FindHandle(s.entries, h);
    if i < |s.entries| { RemovedMembers(s, i); }
  }

  /** No later step brings a message back. */
  lemma StepKeysOnlyLeave(w: World, a: Action, key: nat)
    requires Inv(w.store) && key < w.store.nextKey && !(exists e :: e in w.store.entries && e.key == key)
    ensures !(exists e :: e in Step(w, a).store.entries && e.key == key)
  {
    StepEvolves(w, a);
    forall e' | e' in Step(w, a).store.entries ensures e'.key != key {
      if CameFrom(w.store, w.now, e') {
        var e :| e in w.store.entries && Evolves(w.now, e, e');
      }
    }
  }

  ghost predicate LeavesAlone(acts: seq<Action>, h: Handle) {
    forall i :: 0 <= i < |acts| && acts[i].DoChangeVisibility? ==> acts[i].handle != h
  }

  /** Entry e is still stored as it was, or gone for good. */
  ghost predicate HeldOrGone(w: World, e: Entry) {
    && Inv(w.store) && e.key < w.store.nextKey
    && (e in w.store.entries || !exists e' :: e' in w.store.entries && e'.key == e.key)
  }

  lemma {:induction false} HeldThroughout(w: World, acts: seq<Action>, e: Entry)
    requires HeldOrGone(w, e) && e.handle != NO_HANDLE && LeavesAlone(acts, e.handle)
    requires Run(w, acts).now < e.visibleAt
    ensures HeldOrGone(Run(w, acts), e)
  {
    if acts != [] {
      var before, a := acts[..|acts| - 1], acts[|acts| - 1];
      var w1 := Run(w, before);
      StepConfig(w1, a);
      HeldThroughout(w, before, e);
      StepInv(w1, a);
      if e in w1.store.entries {
        StepLeavesHeld(w1, a, e);
      } else {
        StepKeysOnlyLeave(w1, a, e.key);
      }
    }
  }

  /** The visibility timeout: once a message has been handed out, and as long as nobody changes the visibility under its
      handle, no receive hands it out again before its deadline, whatever else happens. */
  lemma HiddenUntilDeadline(w: World, acts: seq<Action>, e: Entry, max: int, i: nat)
    requires Inv(w.store) && e in w.store.entries && e.handle != NO_HANDLE && LeavesAlone(acts, e.handle)
    requires Run(w, acts).now < e.visibleAt
    requires var w' := Run(w, acts); i in Picked(Expire(w'.store, w'.now), w'.now, max)
    ensures var w' := Run(w, acts);
            i < |Expire(w'.store, w'.now).entries| && Expire(w'.store, w'.now).entries[i].key != e.key
  {
    assert HeldOrGone(w, e) by { var k :| 0 <= k < |w.store.entries| && w.store.entries[k] == e; }
    HeldThroughout(w, acts, e);
    var w' := Run(w, acts);
    PickedIsNot(w', e, max, i);
  }

  lemma PickedIsNot(w: World, e: Entry, max: int, i: nat)
    requires HeldOrGone(w, e) && w.now < e.visibleAt && i in Picked(Expire(w.store, w.now), w.now, max)
    ensures i < |Expire(w.store, w.now).entries| && Expire(w.store, w.now).entries[i].key != e.key
  {
    var kept := Expire(w.store, w.now);
    PickedAreVisible(kept, w.now, max);
    KeptMembers(w.store.entries, w.store.cfg.Cutoff(w.now));
    assert kept.entries[i] in w.store.entries;
    if kept.entries[i].key == e.key && e in w.store.entries {
      SameKeySameEntry(w.store, kept.entries[i], e);
    }
  }

  /** After the deadline the timer gives the message back: it is visible, without a handle, and its group is free. */
  lemma TimeoutReleases(s: State, now: int, t: nat)
    requires Inv(s) && t in s.armed && s.armed[t].deadline <= now && !s.closed
    requires !s.cfg.RedriveDue(s.entries[FindKey(s.entries, s.armed[t].key)].receiveCount)
    ensures var i := FindKey(s.entries, s.armed[t].key);
            var s' := Fire(s, now, t).0;
            && s'.entries[i].key == s.entries[i].key && s'.entries[i].handle == NO_HANDLE
            && s'.entries[i].visibleAt <= now && s'.entries[i].msg.isVisible
            && Deliverable(s', i, now) && s'.notify
  {
    TimerFindsItsMessage(s, t);
  }

  // ---------------------------------------------------------------- counts

  lemma {:induction false} CountSplit(es: seq<Entry>, p: Entry -> bool, q: Entry -> bool, r: Entry -> bool)
    requires forall e: Entry ::
               (if p(e) then 1 else 0) + (if q(e) then 1 else 0) + (if r(e) then 1 else 0) == 1
    ensures CountIf(es, p) + CountIf(es, q) + CountIf(es, r) == |es|
  {
    if es != [] { CountSplit(es[..|es| - 1], p, q, r); }
  }

  /** The three reported counts split the stored messages. */
  lemma CountsAddUp(s: State, now: int)
    ensures VisibleCount(s, now) + InFlightCount(s, now) + DelayedCount(s, now) == |s.entries|
  {
    CountSplit(s.entries, (e: Entry) => e.visibleAt <= now,
               (e: Entry) => e.visibleAt > now && e.handle != NO_HANDLE,
               (e: Entry) => e.visibleAt > now && e.handle == NO_HANDLE);
  }

  // ---------------------------------------------------------------- what messages say about themselves

  /** The stamps of a stored message: never received, or received as often as it says, first and last at the times it
      says; while it is in flight it carries the current handle and says that it is not visible. */
  ghost predicate StampsOk(now: int, e: Entry) {
    && (e.receiveCount == 0 <==> e.firstReceived.None?)
    && (e.receiveCount > 0 ==>
         && e.msg.receiveCount == e.receiveCount && Some(e.msg.firstReceived) == e.firstReceived
         && e.msg.sentTimestamp <= e.msg.firstReceived <= e.msg.receivedTimestamp <= now)
    && (e.handle != NO_HANDLE ==> e.receiveCount > 0 && e.msg.receiptHandle == e.handle && !e.msg.isVisible)
  }

  ghost predicate AllStamped(now: int, s: State) {
    forall e :: e in s.entries ==> StampsOk(now, e) && e.msg.sentTimestamp <= now
  }

  lemma ReceivedStamps(now: int, e: Entry, visibility: int, h: Handle, t: nat)
    requires StampsOk(now, e) && e.msg.sentTimestamp <= now
    ensures StampsOk(now, Received(e, now, visibility, h, t))
  {
  }

  /** Entry j after a pass: as it was, or received. */
  lemma HandedOutOrSame(s: State, now: int, visibility: int, p: seq<nat>, s': State, out: seq<Message>, j: nat)
    requires HandsOut(s, s, now, visibility, p, [], s', out) && j < |s.entries|
    ensures s'.entries[j] == s.entries[j] || exists h, t :: s'.entries[j] == Received(s.entries[j], now, visibility, h, t)
  {
    if j in p { var k :| 0 <= k < |p| && p[k] == j; }
  }

  lemma ReceiveStamps(s: State, now: int, max: int, requested: int)
    requires AllStamped(now, s)
    ensures AllStamped(now, Receive(s, now, max, requested).0)
  {
    if !s.closed {
      var kept := Expire(s, now);
      var (s', out) := Receive(s, now, max, requested);
      var visibility := s.cfg.EffectiveVisibility(requested);
      FirstEligible(s, now, max, requested);
      KeptMembers(s.entries, s.cfg.Cutoff(now));
      forall e' | e' in s'.entries ensures StampsOk(now, e') && e'.msg.sentTimestamp <= now {
        var j :| 0 <= j < |s'.entries| && s'.entries[j] == e';
        EntryStamped(kept, now, visibility, Picked(kept, now, max), s', out.value, j);
      }
    }
  }

  lemma EntryStamped(s: State, now: int, visibility: int, p: seq<nat>, s': State, out: seq<Message>, j: nat)
    requires HandsOut(s, s, now, visibility, p, [], s', out) && j < |s.entries| && AllStamped(now, s)
    ensures StampsOk(now, s'.entries[j]) && s'.entries[j].msg.sentTimestamp <= now
  {
    HandedOutOrSame(s, now, visibility, p, s', out, j);
    hide HandsOut, StampsOk;
    assert StampsOk(now, s.entries[j]);
    if s'.entries[j] != s.entries[j] {
      var h, t :| s'.entries[j] == Received(s.entries[j], now, visibility, h, t);
      ReceivedStamps(now, s.entries[j], visibility, h, t);
    }
  }

  lemma ChangeStamps(s: State, now: int, h: Handle, timeout: int)
    requires Inv(s) && AllStamped(now, s)
    ensures AllStamped(now, ChangeVisibility(s, now, h, timeout).0)
  {
    var i := FindHandle(s.entries, h);
    if i < |s.entries| {
      var s' := ChangeVisibility(s, now, h, timeout).0;
      assert s.entries[i] in s.entries;
      ChangedStamps(s, now, i, timeout);
      hide StampsOk;
      assert s'.entries == s.entries[i := s'.entries[i]];
      UpdatedMembers(s, i, s'.entries[i]);
    }
  }

  lemma ChangedStamps(s: State, now: int, i: nat, timeout: int)
    requires i < |s.entries| && StampsOk(now, s.entries[i])
    ensures StampsOk(now, ResetVisibility(s, i, now).entries[i]) && StampsOk(now, Extend(s, i, now, timeout).entries[i])
  {
  }

  lemma FireStamps(s: State, now: int, t: nat)
    requires Inv(s) && AllStamped(now, s)
    ensures AllStamped(now, Fire(s, now, t).0)
  {
    if t in s.armed && s.armed[t].deadline <= now {
      TimerFindsItsMessage(s, t);
      var i := FindKey(s.entries, s.armed[t].key);
      assert s.entries[i] in s.entries;
      RemovedMembers(s, i);
      UpdatedMembers(s, i, Release(s, i).entries[i]);
    }
  }

  lemma DeleteStamps(s: State, now: int, h: Handle)
    requires Inv(s) && AllStamped(now, s)
    ensures AllStamped(now, Delete(s, h).0)
  {
    var i := FindHandle(s.entries, h);
    if i < |s.entries| { RemovedMembers(s, i); }
  }

  lemma SendStamps(s: State, now: int, msg: Message, delay: int)
    requires AllStamped(now, s)
    ensures AllStamped(now, Send(s, now, msg, delay).0)
  {
  }

  lemma StepStamps(w: World, a: Action)
    requires Inv(w.store) && AllStamped(w.now, w.store)
    ensures AllStamped(Step(w, a).now, Step(w, a).store)
  {
    hide Inv, Send, Receive, ChangeVisibility, Fire, Delete;
    match a
    case DoSend(msg, delay) => SendStamps(w.store, w.now, msg, delay);
    case DoReceive(max, requested) => ReceiveStamps(w.store, w.now, max, requested);
    case DoDelete(h) => DeleteStamps(w.store, w.now, h);
    case DoChangeVisibility(h, timeout) => ChangeStamps(w.store, w.now, h, timeout);
    case DoFire(t) => FireStamps(w.store, w.now, t);
    case _ =>
  }

  /** In every reachable state every message's own account of its receives is true. */
  lemma {:induction false} StampsAreTrue(cfg: Config, start: int, acts: seq<Action>)
    ensures AllStamped(Run(Start(cfg, start), acts).now, Run(Start(cfg, start), acts).store)
  {
    if acts != [] {
      var before := acts[..|acts| - 1];
      StampsAreTrue(cfg, start, before);
      RunInv(cfg, start, before);
      StepStamps(Run(Start(cfg, start), before), acts[|acts| - 1]);
    }
  }
}
