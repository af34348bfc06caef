/** What a message says about its receives against the receives that the run really made. */
module Receipts {
  import opened StoreTypes
  import opened MemorySpec
  import opened MemoryInvariants
  import opened MemoryRuns
  import opened ReceivePass
  import opened Fates

  /** This step is a receive that hands out message k. */
  ghost predicate HandsOutKey(w: World, a: Action, k: nat) {
    && a.DoReceive? && !w.store.closed
    && var kept := Expire(w.store, w.now);
       exists i :: i in Picked(kept, w.now, a.max) && i < |kept.entries| && kept.entries[i].key == k
  }

  /** The times at which the run handed out message k. */
  ghost function ReceiptTimes(w: World, acts: seq<Action>, k: nat): seq<int> {
    if acts == [] then []
    else
      var before, a := acts[..|acts| - 1], acts[|acts| - 1];
      ReceiptTimes(w, before, k) + (if HandsOutKey(Run(w, before), a, k) then [Run(w, before).now] else [])
  }

  /** The entry was received at exactly these times, and it and its message say so: how often, first when, last when. */
  ghost predicate Truthful(e: Entry, times: seq<int>) {
    && e.receiveCount == |times|
    && e.firstReceived == (if times == [] then None else Some(times[0]))
    && (times != [] ==>
         && e.msg.receiveCount == |times| && e.msg.firstReceived == times[0]
         && e.msg.receivedTimestamp == times[|times| - 1])
  }

  // ---------------------------------------------------------------- what a step does to one message's account

  ghost predicate SameAccount(e: Entry, e': Entry) {
    && e'.key == e.key && e'.receiveCount == e.receiveCount && e'.firstReceived == e.firstReceived
    && e'.msg.receiveCount == e.msg.receiveCount && e'.msg.firstReceived == e.msg.firstReceived
    && e'.msg.receivedTimestamp == e.msg.receivedTimestamp
  }

  /** Entry e' was stored before with the same account. */
  ghost predicate Accounted(s: State, e': Entry) {
    exists e :: e in s.entries && SameAccount(e, e')
  }

  lemma StillThere(s: State, e': Entry)
    requires e' in s.entries
    ensures Accounted(s, e')
  {
    assert SameAccount(e', e');
  }

  lemma ChangeAccount(s: State, now: int, h: Handle, timeout: int, e': Entry)
    requires Inv(s) && e' in ChangeVisibility(s, now, h, timeout).0.entries
    ensures Accounted(s, e')
  {
    var i := FindHandle(s.entries, h);
    if i < |s.entries| {
      var s' := ChangeVisibility(s, now, h, timeout).0;
      assert s'.entries == s.entries[i := s'.entries[i]];
      assert SameAccount(s.entries[i], s'.entries[i]) && s.entries[i] in s.entries;
      UpdatedMembers(s, i, s'.entries[i]);
    }
    if e' in s.entries { StillThere(s, e'); }
  }

  lemma DeleteAccount(s: State, h: Handle, e': Entry)
    requires Inv(s) && e' in Delete(s, h).0.entries
    ensures Accounted(s, e')
  {
    var i := FindHandle(s.entries, h);
    if i < |s.entries| { RemovedMembers(s, i); }
    StillThere(s, e');
  }

  lemma FireAccount(s: State, now: int, t: nat, e': Entry)
    requires Inv(s) && e' in Fire(s, now, t).0.entries
    ensures Accounted(s, e')
  {
    if t in s.armed && s.armed[t].deadline <= now {
      TimerFindsItsMessage(s, t);
      var i := FindKey(s.entries, s.armed[t].key);
      assert s.entries[i] in s.entries && SameAccount(s.entries[i], Release(s, i).entries[i]);
      RemovedMembers(s, i);
      UpdatedMembers(s, i, Release(s, i).entries[i]);
    }
    if e' in s.entries { StillThere(s, e'); }
  }

  lemma SendAccount(w: World, msg: Message, delay: int, e': Entry)
    requires e' in Send(w.store, w.now, msg, delay).0.entries
    ensures Accounted(w.store, e') || NewlySent(w, DoSend(msg, delay), e')
  {
    if e' in w.store.entries { StillThere(w.store, e'); }
  }

  lemma OtherStepAccount(w: World, a: Action, e': Entry)
    requires Inv(w.store) && !a.DoReceive? && e' in Step(w, a).store.entries
    ensures Accounted(w.store, e') || NewlySent(w, a, e')
  {
    hide Inv, Send, Delete, ChangeVisibility, Fire, Accounted, NewlySent;
    match a
    case DoSend(msg, delay) => SendAccount(w, msg, delay, e');
    case DoDelete(h) => DeleteAccount(w.store, h, e');
    case DoChangeVisibility(h, timeout) => ChangeAccount(w.store, w.now, h, timeout, e');
    case DoFire(t) => FireAccount(w.store, w.now, t, e');
    case DoTick(_) => StillThere(w.store, e');
    case DoClose => StillThere(w.store, e');
    case _ =>
  }

  /** Entry e' is entry e after a receive: received now if the receive hands it out, and as it was otherwise. */
  ghost predicate ReceivedIfHandedOut(w: World, a: Action, e: Entry, e': Entry) {
    && e'.key == e.key
    && if HandsOutKey(w, a, e.key) then exists v, h, t :: e' == Received(e, w.now, v, h, t) else e' == e
  }

  lemma ReceiveAccount(w: World, a: Action, e': Entry)
    requires Inv(w.store) && a.DoReceive? && e' in Step(w, a).store.entries
    ensures exists e :: e in w.store.entries && ReceivedIfHandedOut(w, a, e, e')
  {
    if w.store.closed {
      assert ReceivedIfHandedOut(w, a, e', e');
    } else {
      var kept := Expire(w.store, w.now);
      var (s', out) := Receive(w.store, w.now, a.max, a.requested);
      var p := Picked(kept, w.now, a.max);
      FirstEligible(w.store, w.now, a.max, a.requested);
      KeptMembers(w.store.entries, w.store.cfg.Cutoff(w.now));
      ExpireInv(w.store, w.now);
      InvKeys(kept);
      hide Inv, Receive, Picked, Expire, HandsOutKey, ReceivedIfHandedOut, KeysOk;
      var j: nat :| j < |s'.entries| && s'.entries[j] == e';
      assert kept.entries[j] in kept.entries;
      PickedByKey(w, a, j);
      PassAccount(kept, w.now, w.store.cfg.EffectiveVisibility(a.requested), p, s', out.value, j);
      AtPosition(w, a, kept.entries[j], e', j in p);
    }
  }

  lemma AtPosition(w: World, a: Action, e: Entry, e': Entry, picked: bool)
    requires HandsOutKey(w, a, e.key) <==> picked
    requires if picked then e'.key == e.key && exists v, h, t :: e' == Received(e, w.now, v, h, t) else e' == e
    ensures ReceivedIfHandedOut(w, a, e, e')
  {
  }

  lemma PassAccount(s: State, now: int, visibility: int, p: seq<nat>, s': State, out: seq<Message>, j: nat)
    requires HandsOut(s, s, now, visibility, p, [], s', out) && j < |s.entries|
    ensures if j in p
            then s'.entries[j].key == s.entries[j].key
                 && exists v, h, t :: s'.entries[j] == Received(s.entries[j], now, v, h, t)
            else s'.entries[j] == s.entries[j]
  {
    if j in p { var k :| 0 <= k < |p| && p[k] == j; }
  }

  /** A receive hands out the message at a position exactly when it picks the position. */
  lemma PickedByKey(w: World, a: Action, j: nat)
    requires Inv(w.store) && a.DoReceive? && !w.store.closed && j < |Expire(w.store, w.now).entries|
    ensures var kept := Expire(w.store, w.now);
            HandsOutKey(w, a, kept.entries[j].key) <==> j in Picked(kept, w.now, a.max)
  {
    var kept := Expire(w.store, w.now);
    ExpireInv(w.store, w.now);
    InvKeys(kept);
    hide Inv, Picked, Expire;
    forall i: nat | i < |kept.entries| && kept.entries[i].key == kept.entries[j].key ensures i == j {
      assert i < j || i == j || j < i;
    }
  }

  // ---------------------------------------------------------------- over whole runs

  /** Every stored message's account is the run's, and nothing was received before it was accepted. */
  ghost predicate AccountsOk(s: State, times: nat -> seq<int>) {
    && (forall e :: e in s.entries ==> Truthful(e, times(e.key)))
    && (forall k: nat :: k >= s.nextKey ==> times(k) == [])
  }

  ghost function TimesOf(w: World, acts: seq<Action>): nat -> seq<int> {
    (k: nat) => ReceiptTimes(w, acts, k)
  }

  ghost function TimesNext(w: World, a: Action, times: nat -> seq<int>): nat -> seq<int> {
    (k: nat) => times(k) + (if HandsOutKey(w, a, k) then [w.now] else [])
  }

  lemma OneMoreReceipt(e: Entry, now: int, v: int, h: Handle, t: nat, times: seq<int>)
    requires Truthful(e, times)
    ensures Truthful(Received(e, now, v, h, t), times + [now])
  {
  }

  lemma OnlyStoredAreHandedOut(w: World, a: Action, k: nat)
    ensures HandsOutKey(w, a, k) ==> k in Keys(w.store.entries)
  {
    var kept := Expire(w.store, w.now);
    KeptMembers(w.store.entries, w.store.cfg.Cutoff(w.now));
    assert forall i :: 0 <= i < |kept.entries| ==> kept.entries[i] in kept.entries;
  }

  lemma AfterReceive(w: World, a: Action, times: nat -> seq<int>, e': Entry)
    requires Inv(w.store) && AccountsOk(w.store, times) && a.DoReceive? && e' in Step(w, a).store.entries
    ensures Truthful(e', TimesNext(w, a, times)(e'.key))
  {
    ReceiveAccount(w, a, e');
    hide Inv, Step, HandsOutKey, Truthful, Received;
    var e :| e in w.store.entries && ReceivedIfHandedOut(w, a, e, e');
    if HandsOutKey(w, a, e.key) {
      var v, h, t :| e' == Received(e, w.now, v, h, t);
      OneMoreReceipt(e, w.now, v, h, t, times(e.key));
    }
  }

  lemma AfterOther(w: World, a: Action, times: nat -> seq<int>, e': Entry)
    requires Inv(w.store) && AccountsOk(w.store, times) && !a.DoReceive? && e' in Step(w, a).store.entries
    ensures Truthful(e', TimesNext(w, a, times)(e'.key))
  {
    OtherStepAccount(w, a, e');
    hide Inv, Step, Send;
    assert !HandsOutKey(w, a, e'.key);
    if Accounted(w.store, e') { var e :| e in w.store.entries && SameAccount(e, e'); }
  }

  lemma StepAccounts(w: World, a: Action, times: nat -> seq<int>)
    requires Inv(w.store) && AccountsOk(w.store, times)
    ensures AccountsOk(Step(w, a).store, TimesNext(w, a, times))
  {
    StepConfig(w, a);
    KeysAreOld(w.store);
    hide Inv, Step, HandsOutKey, Truthful;
    forall e' | e' in Step(w, a).store.entries ensures Truthful(e', TimesNext(w, a, times)(e'.key)) {
      if a.DoReceive? { AfterReceive(w, a, times, e'); } else { AfterOther(w, a, times, e'); }
    }
    forall k: nat | k >= Step(w, a).store.nextKey ensures TimesNext(w, a, times)(k) == [] {
      OnlyStoredAreHandedOut(w, a, k);
    }
  }

  lemma KeysAreOld(s: State)
    requires Inv(s)
    ensures forall k :: k in Keys(s.entries) ==> k < s.nextKey
  {
    forall e | e in s.entries ensures e.key < s.nextKey { var i :| 0 <= i < |s.entries| && s.entries[i] == e; }
  }

  lemma SameTimes(s: State, f: nat -> seq<int>, g: nat -> seq<int>)
    requires AccountsOk(s, f) && forall k: nat :: f(k) == g(k)
    ensures AccountsOk(s, g)
  {
  }

  lemma {:induction false} RunAccounts(cfg: Config, start: int, acts: seq<Action>)
    ensures AccountsOk(Run(Start(cfg, start), acts).store, TimesOf(Start(cfg, start), acts))
  {
    if acts != [] {
      var before, a := acts[..|acts| - 1], acts[|acts| - 1];
      var w := Run(Start(cfg, start), before);
      RunAccounts(cfg, start, before);
      RunInv(cfg, start, before);
      StepAccounts(w, a, TimesOf(Start(cfg, start), before));
      hide AccountsOk, Inv, HandsOutKey;
      SameTimes(Run(Start(cfg, start), acts).store, TimesNext(w, a, TimesOf(Start(cfg, start), before)),
                TimesOf(Start(cfg, start), acts));
    }
  }

  /** In every reachable state each stored message says exactly how often, first when and last when the run handed it
      out. */
  lemma ReceiptsAreTrue(cfg: Config, start: int, acts: seq<Action>, e: Entry)
    requires e in Run(Start(cfg, start), acts).store.entries
    ensures var times := ReceiptTimes(Start(cfg, start), acts, e.key);
            && e.receiveCount == |times|
            && e.firstReceived == (if times == [] then None else Some(times[0]))
            && (times != [] ==>
                 && e.msg.receiveCount == |times| && e.msg.firstReceived == times[0]
                 && e.msg.receivedTimestamp == times[|times| - 1])
  {
    RunAccounts(cfg, start, acts);
    assert Truthful(e, TimesOf(Start(cfg, start), acts)(e.key));
  }

  /** A redriven message was handed out exactly as often as its fate says, so at least the positive limit's number of
      times. */
  lemma {:induction false} RedrivenAfterReceipts(cfg: Config, start: int, acts: seq<Action>, k: nat)
    requires k in Met(Start(cfg, start), acts) && Met(Start(cfg, start), acts)[k].Redriven?
    ensures Met(Start(cfg, start), acts)[k].receiveCount == |ReceiptTimes(Start(cfg, start), acts, k)|
    ensures |ReceiptTimes(Start(cfg, start), acts, k)| >= cfg.maxReceiveCount > 0
  {
    RedriveOnlyAtLimit(cfg, start, acts, k);
    var before, a := acts[..|acts| - 1], acts[|acts| - 1];
    var w := Run(Start(cfg, start), before);
    RunInv(cfg, start, before);
    if k in Exits(w, a) {
      RedrivenCount(w, a, k);
      var e :| e in w.store.entries && e.key == k && Exits(w, a)[k] == Redriven(e.receiveCount);
      ReceiptsAreTrue(cfg, start, before, e);
      assert !HandsOutKey(w, a, k);
    } else {
      RedrivenAfterReceipts(cfg, start, before, k);
      StoredOrDeparted(cfg, start, before);
      OnlyStoredAreHandedOut(w, a, k);
    }
  }

  lemma RedrivenCount(w: World, a: Action, k: nat)
    requires Inv(w.store) && k in Exits(w, a) && Exits(w, a)[k].Redriven?
    ensures a.DoFire? && exists e :: e in w.store.entries && e.key == k && Exits(w, a)[k] == Redriven(e.receiveCount)
  {
    TimerFindsItsMessage(w.store, a.timer);
    var i := FindKey(w.store.entries, w.store.armed[a.timer].key);
    assert w.store.entries[i] in w.store.entries;
  }
}
