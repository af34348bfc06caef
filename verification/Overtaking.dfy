/** Exactly when a message of a FIFO group can be overtaken by a later one. */
module Overtaking {
  import opened StoreTypes
  import opened MemorySpec
  import opened MemoryInvariants
  import opened MemoryRuns
  import opened ReceivePass
  import opened FifoOrder

  /** A receive now hands out message i of group g although the earlier message a of g is stored and has not expired. */
  ghost predicate OvertakenBy(w: World, g: string, max: int, i: nat, a: Entry) {
    var kept := Expire(w.store, w.now);
    && !w.store.closed
    && i in Picked(kept, w.now, max) && i < |kept.entries| && kept.entries[i].msg.groupId == g
    && a in kept.entries && a.msg.groupId == g && a.key < kept.entries[i].key
  }

  predicate NoSends(acts: seq<Action>) {
    forall i :: 0 <= i < |acts| ==> !acts[i].DoSend?
  }

  /** Some continuation without further sends leads to a receive that overtakes. */
  ghost predicate CanOvertake(w: World, g: string) {
    exists acts, max, i, a :: NoSends(acts) && OvertakenBy(Run(w, acts), g, max, i, a)
  }

  /** When b is visible. */
  function Appears(w: World, b: Entry): int {
    if b.visibleAt > w.now then b.visibleAt else w.now
  }

  /** The earlier message a of g, never received, is still delayed when the later message b is visible, and by then
      retention has dropped neither. */
  ghost predicate Disordered(w: World, g: string, a: Entry, b: Entry) {
    && a in w.store.entries && b in w.store.entries && a.key < b.key
    && a.msg.groupId == g && b.msg.groupId == g
    && a.receiveCount == 0 && a.visibleAt > Appears(w, b)
    && a.msg.sentTimestamp >= w.store.cfg.Cutoff(Appears(w, b)) && b.msg.sentTimestamp >= w.store.cfg.Cutoff(Appears(w, b))
  }

  // ---------------------------------------------------------------- disorder leads to overtaking

  lemma {:induction false} RunAppend(w: World, p: seq<Action>, q: seq<Action>)
    ensures Run(w, p + q) == Run(Run(w, p), q)
  {
    if q == [] {
      assert p + q == p;
    } else {
      RunAppend(w, p, q[..|q| - 1]);
      assert (p + q)[..|p + q| - 1] == p + q[..|q| - 1];
    }
  }

  /** The first visible message of a group. */
  ghost predicate Head(s: State, now: int, g: string, i: nat) {
    && i < |s.entries| && s.entries[i].visibleAt <= now && s.entries[i].msg.groupId == g
    && !VisibleBefore(s, now, i, g)
  }

  lemma {:induction false} HeadExists(s: State, now: int, g: string, j: nat) returns (i: nat)
    requires j < |s.entries| && s.entries[j].visibleAt <= now && s.entries[j].msg.groupId == g
    ensures i <= j && Head(s, now, g, i)
  {
    if VisibleBefore(s, now, j, g) {
      var k :| 0 <= k < j && s.entries[k].visibleAt <= now && s.entries[k].msg.groupId == g;
      i := HeadExists(s, now, g, k);
    } else {
      i := j;
    }
  }

  /** A limit under which every eligible message is handed out. */
  ghost function NoLimit(s: State, now: int): int {
    |EligibleFrom(s, now, 0)| + 1
  }

  /** A receive hands out the head of a free group and none of its other messages. */
  lemma HeadIsHandedOut(s: State, now: int, g: string, i: nat)
    requires s.cfg.isFifo && g != "" && g !in s.inFlight && Head(s, now, g, i)
    ensures i in Picked(s, now, NoLimit(s, now))
    ensures forall j :: j in Picked(s, now, NoLimit(s, now)) && j < |s.entries| && s.entries[j].msg.groupId == g ==> j == i
  {
    EligibleFromExact(s, now, 0);
    assert Picked(s, now, NoLimit(s, now)) == EligibleFrom(s, now, 0);
    assert Eligible(s, now, i);
    forall j | j in EligibleFrom(s, now, 0) && s.entries[j].msg.groupId == g ensures j == i {
      OneHead(s, now, g, i, j);
    }
  }

  lemma OneHead(s: State, now: int, g: string, i: nat, j: nat)
    requires Head(s, now, g, i) && Head(s, now, g, j)
    ensures i == j
  {
  }

  lemma HandleAt(s: State, i: nat)
    requires Inv(s) && i < |s.entries| && s.entries[i].handle != NO_HANDLE
    ensures FindHandle(s.entries, s.entries[i].handle) == i
  {
    var j := FindHandle(s.entries, s.entries[i].handle);
    assert j < i ==> PairOk(s, s.entries[j], s.entries[i]);
  }

  /** The state after the head of a group has been received and deleted. */
  ghost predicate HeadRemoved(w: World, g: string, i: nat, w': World) {
    var kept := Expire(w.store, w.now).entries;
    && Inv(w'.store) && !w'.store.closed && w'.store.cfg == w.store.cfg && w'.now == w.now && g !in w'.store.inFlight
    && |w'.store.entries| < |w.store.entries| && i < |kept|
    && forall e :: e in kept && e.msg.groupId == g && e.key != kept[i].key ==> e in w'.store.entries
  }

  /** Receiving the head of a free group and deleting it leaves the group free and its other messages as they were. */
  lemma RemoveHead(w: World, g: string, i: nat) returns (acts: seq<Action>)
    requires Inv(w.store) && !w.store.closed && w.store.cfg.isFifo && g != "" && g !in w.store.inFlight
    requires Head(Expire(w.store, w.now), w.now, g, i)
    ensures NoSends(acts) && HeadRemoved(w, g, i, Run(w, acts))
  {
    hide Inv, Head, Receive, Delete;
    var kept := Expire(w.store, w.now);
    var max := NoLimit(kept, w.now);
    var r := DoReceive(max, 1);
    var w1 := Step(w, r);
    HeadReceived(w, g, i);
    var d := DoDelete(w1.store.entries[i].handle);
    DeleteInv(w1.store, d.handle);
    HeadDeleted(w1.store, i);
    KeptMembers(w.store.entries, w.store.cfg.Cutoff(w.now));
    acts := [r, d];
    assert acts[..1] == [r] && [r][..0] == [];
    assert Run(w, [r]) == w1;
    assert Run(w, acts) == Step(w1, d);
  }

  lemma HeadDeleted(s: State, i: nat)
    requires Inv(s) && s.cfg.isFifo && i < |s.entries| && s.entries[i].handle != NO_HANDLE && s.entries[i].msg.groupId != ""
    ensures var s' := Delete(s, s.entries[i].handle).0;
            && s'.closed == s.closed && s'.cfg == s.cfg && s.entries[i].msg.groupId !in s'.inFlight
            && |s'.entries| == |s.entries| - 1
            && forall e :: e in s.entries && e.key != s.entries[i].key ==> e in s'.entries
  {
    HandleAt(s, i);
    RemovedMembers(s, i);
  }

  /** The receive that hands out the head leaves the other messages of the group alone. */
  lemma HeadReceived(w: World, g: string, i: nat)
    requires Inv(w.store) && !w.store.closed && w.store.cfg.isFifo && g != "" && g !in w.store.inFlight
    requires Head(Expire(w.store, w.now), w.now, g, i)
    ensures var kept := Expire(w.store, w.now);
            var s1 := Receive(w.store, w.now, NoLimit(kept, w.now), 1).0;
            && Inv(s1) && !s1.closed && s1.cfg == w.store.cfg && i < |s1.entries| == |kept.entries|
            && s1.entries[i].handle != NO_HANDLE && s1.entries[i].key == kept.entries[i].key
            && s1.entries[i].msg.groupId == g
            && forall e :: e in kept.entries && e.msg.groupId == g && e.key != kept.entries[i].key ==> e in s1.entries
  {
    var kept := Expire(w.store, w.now);
    var max := NoLimit(kept, w.now);
    var s1 := Receive(w.store, w.now, max, 1).0;
    var p := Picked(kept, w.now, max);
    ReceiveInv(w.store, w.now, max, 1);
    StepConfig(w, DoReceive(max, 1));
    ScanConfig(kept, 0, w.now, max, w.store.cfg.EffectiveVisibility(1), []);
    FirstEligible(w.store, w.now, max, 1);
    hide Inv;
    HeadIsHandedOut(kept, w.now, g, i);
    var k :| 0 <= k < |p| && p[k] == i;
    forall e | e in kept.entries && e.msg.groupId == g && e.key != kept.entries[i].key ensures e in s1.entries {
      var j :| 0 <= j < |kept.entries| && kept.entries[j] == e;
      assert j !in p;
      assert s1.entries[j] == e;
    }
  }

  /** A delayed message is overtaken, now that a later one is visible: the messages before it are received and deleted
      one by one until the head of the group lies behind it. */
  lemma {:induction false} DisorderOvertakes(w: World, g: string, a: Entry, b: Entry)
    requires Inv(w.store) && !w.store.closed && w.store.cfg.isFifo && g != "" && g !in w.store.inFlight
    requires Disordered(w, g, a, b) && b.visibleAt <= w.now
    ensures CanOvertake(w, g)
    decreases |w.store.entries|
  {
    var kept := Expire(w.store, w.now);
    KeptMembers(w.store.entries, w.store.cfg.Cutoff(w.now));
    var j :| 0 <= j < |kept.entries| && kept.entries[j] == b;
    var i := HeadExists(kept, w.now, g, j);
    if kept.entries[i].key > a.key {
      HeadIsHandedOut(kept, w.now, g, i);
      assert OvertakenBy(Run(w, []), g, NoLimit(kept, w.now), i, a);
    } else {
      assert kept.entries[i] in kept.entries;
      SameIfSameKey(w.store, kept.entries[i], a);
      var first := RemoveHead(w, g, i);
      var w' := Run(w, first);
      DisorderOvertakes(w', g, a, b);
      Continue(w, first, g);
    }
  }

  lemma Continue(w: World, first: seq<Action>, g: string)
    requires NoSends(first) && CanOvertake(Run(w, first), g)
    ensures CanOvertake(w, g)
  {
    var acts, max, i, a :| NoSends(acts) && OvertakenBy(Run(Run(w, first), acts), g, max, i, a);
    RunAppend(w, first, acts);
    assert NoSends(first + acts) && OvertakenBy(Run(w, first + acts), g, max, i, a);
  }

  // ---------------------------------------------------------------- only disorder leads to overtaking

  /** After a run without sends: e' is the message e, unchanged, or received in the meantime when it was visible. */
  ghost predicate Descends(w: World, now: int, e: Entry, e': Entry) {
    && e in w.store.entries && e'.key == e.key && e'.msg.groupId == e.msg.groupId
    && e'.msg.sentTimestamp == e.msg.sentTimestamp
    && (e' == e || (e'.receiveCount > 0 && (e.receiveCount > 0 || e.visibleAt <= now)))
  }

  ghost predicate AllDescend(w: World, w': World) {
    && Inv(w'.store) && ClockInv(w'.now, w'.store) && w'.store.cfg == w.store.cfg && w.now <= w'.now
    && forall e' :: e' in w'.store.entries ==> exists e :: Descends(w, w'.now, e, e')
  }

  lemma {:induction false} RunDescends(w: World, acts: seq<Action>)
    requires Inv(w.store) && ClockInv(w.now, w.store) && NoSends(acts)
    ensures AllDescend(w, Run(w, acts))
  {
    if acts == [] {
      forall e | e in w.store.entries ensures Descends(w, w.now, e, e) {
      }
    } else {
      var before, a := acts[..|acts| - 1], acts[|acts| - 1];
      RunDescends(w, before);
      StepDescends(w, Run(w, before), a);
    }
  }

  lemma StepDescends(w: World, w1: World, a: Action)
    requires AllDescend(w, w1) && !a.DoSend?
    ensures AllDescend(w, Step(w1, a))
  {
    StepInv(w1, a);
    StepClock(w1, a);
    StepConfig(w1, a);
    StepEvolves(w1, a);
    forall e' | e' in Step(w1, a).store.entries ensures exists e :: Descends(w, Step(w1, a).now, e, e') {
      assert !NewlySent(w1, a, e');
      var x :| x in w1.store.entries && Evolves(w1.now, x, e');
      var e :| Descends(w, w1.now, e, x);
      assert ClockOk(w1.now, x);
      assert Descends(w, Step(w1, a).now, e, e');
    }
  }

  lemma OnlyDisorderOvertakes(w: World, g: string, acts: seq<Action>, max: int, i: nat, a': Entry) returns (a: Entry, b: Entry)
    requires Inv(w.store) && ClockInv(w.now, w.store) && w.store.cfg.isFifo && g != "" && g !in w.store.inFlight
    requires NoSends(acts) && OvertakenBy(Run(w, acts), g, max, i, a')
    ensures Disordered(w, g, a, b)
  {
    RunDescends(w, acts);
    var w' := Run(w, acts);
    hide Inv;
    var b' := OvertakerIsVisible(w', g, max, i, a');
    a :| Descends(w, w'.now, a, a');
    b :| Descends(w, w'.now, b, b');
    FreeIsVisible(w, g, b);
    DisorderedBefore(w, w', g, a, b, a', b');
  }

  lemma OvertakerIsVisible(w: World, g: string, max: int, i: nat, a: Entry) returns (b: Entry)
    requires Inv(w.store) && ClockInv(w.now, w.store) && w.store.cfg.isFifo && g != "" && OvertakenBy(w, g, max, i, a)
    ensures a in w.store.entries && b in w.store.entries && a.key < b.key
    ensures a.msg.groupId == g && b.msg.groupId == g && a.receiveCount == 0 && a.visibleAt > w.now >= b.visibleAt
    ensures a.msg.sentTimestamp >= w.store.cfg.Cutoff(w.now) && b.msg.sentTimestamp >= w.store.cfg.Cutoff(w.now)
  {
    var kept := Expire(w.store, w.now);
    b := kept.entries[i];
    EarlierIsDelayed(w, max, i, a);
    hide Inv;
    PickedAreVisible(kept, w.now, max);
    KeptMembers(w.store.entries, w.store.cfg.Cutoff(w.now));
    assert b in kept.entries;
  }

  /** A message of a free group that has been received is visible. */
  lemma FreeIsVisible(w: World, g: string, b: Entry)
    requires Inv(w.store) && ClockInv(w.now, w.store) && w.store.cfg.isFifo && g != "" && g !in w.store.inFlight
    requires b in w.store.entries && b.msg.groupId == g
    ensures b.receiveCount > 0 ==> b.visibleAt <= w.now
  {
    assert FifoOk(w.store, b) && ClockOk(w.now, b);
  }

  lemma DisorderedBefore(w: World, w': World, g: string, a: Entry, b: Entry, a': Entry, b': Entry)
    requires Descends(w, w'.now, a, a') && Descends(w, w'.now, b, b') && w.now <= w'.now
    requires a'.key < b'.key && a'.msg.groupId == b'.msg.groupId == g
    requires a'.receiveCount == 0 && a'.visibleAt > w'.now >= b'.visibleAt
    requires a'.msg.sentTimestamp >= w.store.cfg.Cutoff(w'.now) && b'.msg.sentTimestamp >= w.store.cfg.Cutoff(w'.now)
    requires b.receiveCount > 0 ==> b.visibleAt <= w.now
    ensures Disordered(w, g, a, b)
  {
  }

  /** Overtaking is possible in a free group of an open store exactly when two of its messages are disordered: the
      earlier one, never received, is still delayed when the later one is visible, and retention has dropped neither. */
  lemma OvertakingIffDisordered(w: World, g: string)
    requires Inv(w.store) && ClockInv(w.now, w.store) && !w.store.closed && w.store.cfg.isFifo
    requires g != "" && g !in w.store.inFlight
    ensures CanOvertake(w, g) <==> exists a, b :: Disordered(w, g, a, b)
  {
    if CanOvertake(w, g) {
      var acts, max, i, a' :| NoSends(acts) && OvertakenBy(Run(w, acts), g, max, i, a');
      var a, b := OnlyDisorderOvertakes(w, g, acts, max, i, a');
    }
    if a, b :| Disordered(w, g, a, b) {
      var tick := [DoTick(Appears(w, b) - w.now)];
      assert tick[..0] == [];
      assert Run(w, tick) == Step(w, tick[0]);
      DisorderOvertakes(Run(w, tick), g, a, b);
      Continue(w, tick, g);
    }
  }
}
