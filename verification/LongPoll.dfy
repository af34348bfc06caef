/** Long polling with a single poller: a blocked poller never misses a wake-up. */
module LongPoll {
  import opened StoreTypes
  import opened MemorySpec
  import opened MemoryInvariants
  import opened MemoryRuns
  import opened ReceivePass

  /** Where the poller is: outside, about to take the lock for a pass, or blocked on the wake-up slot
      since the pass it made at time `since`. */
  datatype Poller = Away | Scanning(max: int, requested: int) | Blocked(since: int, max: int, requested: int)

  datatype System = System(w: World, poller: Poller)

  datatype PollAction =
    | PollStart(max: int, requested: int)
    | PollScan
    | PollWake
    | PollGiveUp
    | Other(a: Action)

  function PollStep(y: System, p: PollAction): System {
    match p
    case PollStart(max, requested) => if y.poller.Away? then y.(poller := Scanning(max, requested)) else y
    case PollScan =>
      if !y.poller.Scanning? then y
      else
        var (s', out) := Receive(y.w.store, y.w.now, y.poller.max, y.poller.requested);
        System(y.w.(store := s'),
               if out.None? || out.value != [] then Away
               else Blocked(y.w.now, y.poller.max, y.poller.requested))
    case PollWake =>
      if y.poller.Blocked? && y.w.store.notify
      then System(y.w.(store := y.w.store.(notify := false)), Scanning(y.poller.max, y.poller.requested))
      else y
    case PollGiveUp => if y.poller.Blocked? then y.(poller := Away) else y
    case Other(a) => y.(w := Step(y.w, a))
  }

  function PollRun(y: System, ps: seq<PollAction>): System {
    if ps == [] then y else PollStep(PollRun(y, ps[..|ps| - 1]), ps[|ps| - 1])
  }

  ghost predicate DeliverableEntry(s: State, now: int, e: Entry) {
    e.visibleAt <= now && !(Grouped(s.cfg, e.msg) && e.msg.groupId in s.inFlight)
  }

  /** Why a message may be deliverable although nobody woke the poller: it is in flight and its timer has yet to run,
      or its send delay ran out after the poller's last pass. */
  ghost predicate Excused(since: int, e: Entry) {
    e.handle != NO_HANDLE || (e.receiveCount == 0 && e.msg.sentTimestamp < e.visibleAt && since < e.visibleAt)
  }

  ghost predicate NothingMissed(s: State, now: int, since: int) {
    forall e :: e in s.entries && DeliverableEntry(s, now, e) ==> Excused(since, e)
  }

  ghost predicate PollInv(y: System) {
    && Inv(y.w.store) && ClockInv(y.w.now, y.w.store)
    && (y.poller.Blocked? ==> y.poller.since <= y.w.now)
    && (y.poller.Blocked? && !y.w.store.notify && !y.w.store.closed ==>
        NothingMissed(y.w.store, y.w.now, y.poller.since))
  }

  // ---------------------------------------------------------------- one step

  /** A step that leaves the slot empty frees no group; only sends, receives, extensions and time matter. */
  lemma QuietGroups(w: World, a: Action)
    requires Inv(w.store) && !Step(w, a).store.notify && !w.store.closed
    ensures w.store.inFlight <= Step(w, a).store.inFlight
  {
    if a.DoReceive? {
      ScanInFlight(Expire(w.store, w.now), 0, w.now, a.max, w.store.cfg.EffectiveVisibility(a.requested), []);
    }
  }

  lemma {:induction false} ScanInFlight(s: State, i: nat, now: int, max: int, visibility: int, acc: seq<Message>)
    requires i <= |s.entries|
    ensures s.inFlight <= Scan(s, i, now, max, visibility, acc).0.inFlight
    decreases |s.entries| - i
  {
    if i < |s.entries| {
      if Deliverable(s, i, now) {
        var s1 := Take(s, i, now, visibility);
        if |acc| + 1 < max { ScanInFlight(s1, i + 1, now, max, visibility, acc + [s1.entries[i].msg]); }
      } else {
        ScanInFlight(s, i + 1, now, max, visibility, acc);
      }
    }
  }

  /** A step that leaves the slot empty releases no message. */
  lemma QuietEntries(w: World, a: Action, e': Entry)
    requires Inv(w.store) && !Step(w, a).store.notify && e' in Step(w, a).store.entries
    ensures e' in w.store.entries || e'.handle != NO_HANDLE || NewlySent(w, a, e')
  {
    var s := w.store;
    match a
    case DoReceive(max, requested) => ReceiveEntries(s, w.now, max, requested, e');
    case DoChangeVisibility(h, timeout) =>
      var i := FindHandle(s.entries, h);
      if i < |s.entries| { UpdatedMembers(s, i, Extend(s, i, w.now, timeout).entries[i]); }
    case DoFire(t) => if t in s.armed { TimerFindsItsMessage(s, t); }
    case _ =>
  }

  lemma ReceiveEntries(s: State, now: int, max: int, requested: int, e': Entry)
    requires Inv(s) && e' in Receive(s, now, max, requested).0.entries
    ensures e' in s.entries || e'.handle != NO_HANDLE
  {
    if !s.closed {
      var kept := Expire(s, now);
      var s' := Receive(s, now, max, requested).0;
      var p := Picked(kept, now, max);
      FirstEligible(s, now, max, requested);
      KeptMembers(s.entries, s.cfg.Cutoff(now));
      var j :| 0 <= j < |s'.entries| && s'.entries[j] == e';
      if j in p { var k :| 0 <= k < |p| && p[k] == j; } else { assert kept.entries[j] in s.entries; }
    }
  }

  lemma OtherKeepsPollInv(y: System, a: Action)
    requires PollInv(y)
    requires a.DoSend? ==> a.delay >= 0
    ensures PollInv(y.(w := Step(y.w, a)))
  {
    var w' := Step(y.w, a);
    StepInv(y.w, a);
    StepClock(y.w, a);
    StepConfig(y.w, a);
    if y.poller.Blocked? && !w'.store.notify && !w'.store.closed {
      assert !y.w.store.notify && !y.w.store.closed by { QuietSlot(y.w, a); }
      QuietGroups(y.w, a);
      forall e' | e' in w'.store.entries && DeliverableEntry(w'.store, w'.now, e')
        ensures Excused(y.poller.since, e')
      {
        QuietEntries(y.w, a, e');
        if e' in y.w.store.entries { assert ClockOk(y.w.now, e'); }
      }
    }
  }

  /** No step but a wake-up empties the slot, and nothing reopens a store. */
  lemma QuietSlot(w: World, a: Action)
    ensures w.store.notify ==> Step(w, a).store.notify
    ensures w.store.closed ==> Step(w, a).store.closed
  {
    if a.DoReceive? && !w.store.closed {
      ScanConfig(Expire(w.store, w.now), 0, w.now, a.max, w.store.cfg.EffectiveVisibility(a.requested), []);
    }
  }

  lemma ScanKeepsPollInv(y: System)
    requires PollInv(y) && y.poller.Scanning?
    ensures PollInv(PollStep(y, PollScan))
  {
    var a := DoReceive(y.poller.max, y.poller.requested);
    var y' := PollStep(y, PollScan);
    assert y'.w == Step(y.w, a);
    StepInv(y.w, a);
    StepClock(y.w, a);
    if y'.poller.Blocked? {
      var kept := Expire(y.w.store, y.w.now);
      FirstEligible(y.w.store, y.w.now, y.poller.max, y.poller.requested);
      EmptyPassDeliversNothing(kept, y.w.now, y.poller.max, y.w.store.cfg.EffectiveVisibility(y.poller.requested));
    }
  }

  /** A pass that returns nothing changed nothing and had nothing to deliver. */
  lemma EmptyPassDeliversNothing(s: State, now: int, max: int, visibility: int)
    requires Scan(s, 0, now, max, visibility, []).1 == []
    ensures Scan(s, 0, now, max, visibility, []).0 == s
    ensures forall e :: e in s.entries ==> !DeliverableEntry(s, now, e)
  {
    EmptyFrom(s, 0, now, max, visibility);
    forall e | e in s.entries ensures !DeliverableEntry(s, now, e) {
      var j :| 0 <= j < |s.entries| && s.entries[j] == e;
      assert !Deliverable(s, j, now);
    }
  }

  lemma {:induction false} EmptyFrom(s: State, i: nat, now: int, max: int, visibility: int)
    requires i <= |s.entries| && Scan(s, i, now, max, visibility, []).1 == []
    ensures Scan(s, i, now, max, visibility, []).0 == s
    ensures forall j :: i <= j < |s.entries| ==> !Deliverable(s, j, now)
    decreases |s.entries| - i
  {
    if i < |s.entries| {
      if Deliverable(s, i, now) {
        var s1 := Take(s, i, now, visibility);
        ScanExtends(s1, i + 1, now, max, visibility, [] + [s1.entries[i].msg]);
      } else {
        EmptyFrom(s, i + 1, now, max, visibility);
      }
    }
  }

  lemma {:induction false} ScanExtends(s: State, i: nat, now: int, max: int, visibility: int, acc: seq<Message>)
    requires i <= |s.entries|
    ensures |Scan(s, i, now, max, visibility, acc).1| >= |acc|
    decreases |s.entries| - i
  {
    if i < |s.entries| {
      if Deliverable(s, i, now) {
        var s1 := Take(s, i, now, visibility);
        if |acc| + 1 < max { ScanExtends(s1, i + 1, now, max, visibility, acc + [s1.entries[i].msg]); }
      } else {
        ScanExtends(s, i + 1, now, max, visibility, acc);
      }
    }
  }

  // ---------------------------------------------------------------- whole runs

  predicate DelaysNonNegative(ps: seq<PollAction>) {
    forall i :: 0 <= i < |ps| && ps[i].Other? && ps[i].a.DoSend? ==> ps[i].a.delay >= 0
  }

  lemma {:induction false} PollRunInv(cfg: Config, start: int, ps: seq<PollAction>)
    requires DelaysNonNegative(ps)
    ensures PollInv(PollRun(System(Start(cfg, start), Away), ps))
  {
    var y0 := System(Start(cfg, start), Away);
    if ps == [] {
      InitInv(cfg);
    } else {
      var before, p := ps[..|ps| - 1], ps[|ps| - 1];
      PollRunInv(cfg, start, before);
      var y := PollRun(y0, before);
      if p.Other? { OtherKeepsPollInv(y, p.a); }
      else if p.PollScan? && y.poller.Scanning? { ScanKeepsPollInv(y); }
      else if p.PollWake? { SameShape(y.w.store, y.w.store.(notify := false)); }
    }
  }

  /** No lost wake-up: whenever the poller is blocked on an empty slot, each message it could be given is either in
      flight with a due timer still to run, or became visible by an elapsed send delay after its last pass. */
  lemma NoLostWakeUp(cfg: Config, start: int, ps: seq<PollAction>, e: Entry)
    requires DelaysNonNegative(ps)
    ensures var y := PollRun(System(Start(cfg, start), Away), ps);
            var s := y.w.store;
            y.poller.Blocked? && !s.notify && !s.closed && e in s.entries && DeliverableEntry(s, y.w.now, e) ==>
              || (e.handle != NO_HANDLE && exists t :: TimerOf(s, t, e) && s.armed[t].deadline <= y.w.now)
              || (e.receiveCount == 0 && e.msg.sentTimestamp < e.visibleAt && y.poller.since < e.visibleAt)
  {
    PollRunInv(cfg, start, ps);
    var y := PollRun(System(Start(cfg, start), Away), ps);
    var s := y.w.store;
    if !s.closed && e in s.entries && e.handle != NO_HANDLE && DeliverableEntry(s, y.w.now, e) {
      assert TimerOk(s, e);
      assert TimerOf(s, e.timer.value, e);
    }
  }

  /** A negative delay breaks this: while the poller is blocked on an empty slot with nothing missed, a send keeps it
      so if and only if its delay is not negative, or it stores nothing, or its group is in flight. */
  lemma SendMissesIffNegativeDelay(w: World, since: int, msg: Message, delay: int)
    requires Inv(w.store) && ClockInv(w.now, w.store) && since <= w.now
    requires !w.store.notify && NothingMissed(w.store, w.now, since)
    ensures var s' := Send(w.store, w.now, msg, delay).0;
            s'.notify || NothingMissed(s', w.now, since) <==>
            delay >= 0 || !Accepts(w, DoSend(msg, delay))
            || (Grouped(w.store.cfg, msg) && msg.groupId in w.store.inFlight)
  {
    var s' := Send(w.store, w.now, msg, delay).0;
    if Accepts(w, DoSend(msg, delay)) {
      var n := s'.entries[|w.store.entries|];
      assert s'.entries == w.store.entries + [n] && n in s'.entries;
      forall e | e in w.store.entries ensures DeliverableEntry(s', w.now, e) <==> DeliverableEntry(w.store, w.now, e) {
      }
    }
  }
}
