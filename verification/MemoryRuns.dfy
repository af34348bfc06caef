/** Whole runs of one in-memory store: client calls, timer callbacks and clock ticks in any order. */
module MemoryRuns {
  import opened StoreTypes
  import opened MemorySpec
  import opened MemoryInvariants
  import opened ReceivePass

  datatype Action =
    | DoSend(msg: Message, delay: int)
    | DoReceive(max: int, requested: int)
    | DoDelete(handle: Handle)
    | DoChangeVisibility(handle: Handle, timeout: int)
    | DoPurge
    | DoClose
    | DoFire(timer: nat)
    | DoTick(elapsed: nat)

  datatype World = World(now: int, store: State)

  function Step(w: World, a: Action): World {
    match a
    case DoSend(msg, delay) => w.(store := Send(w.store, w.now, msg, delay).0)
    case DoReceive(max, requested) => w.(store := Receive(w.store, w.now, max, requested).0)
    case DoDelete(h) => w.(store := Delete(w.store, h).0)
    case DoChangeVisibility(h, timeout) => w.(store := ChangeVisibility(w.store, w.now, h, timeout).0)
    case DoPurge => w.(store := Purge(w.store))
    case DoClose => w.(store := Close(w.store))
    case DoFire(t) => w.(store := Fire(w.store, w.now, t).0)
    case DoTick(d) => w.(now := w.now + d)
  }

  function Start(cfg: Config, now: int): World {
    World(now, Init(cfg))
  }

  function Run(w: World, acts: seq<Action>): World {
    if acts == [] then w else Step(Run(w, acts[..|acts| - 1]), acts[|acts| - 1])
  }

  // ---------------------------------------------------------------- what one step does to one message

  /** The two are the same message, up to the fields a receive stamps on it. */
  predicate SameMessage(m: Message, m': Message) {
    && m.id == m'.id && m.body == m'.body && m.groupId == m'.groupId && m.dedupId == m'.dedupId
    && m.sequenceNumber == m'.sequenceNumber && m.sentTimestamp == m'.sentTimestamp
  }

  /** How a stored message may look after a step at time `now`: as before; received once more, if visible; or, if it
      was in flight, with another deadline, or released with a visibility that has come. */
  ghost predicate Evolves(now: int, e: Entry, e': Entry) {
    && e'.key == e.key && SameMessage(e'.msg, e.msg)
    && (|| e' == e
        || (e'.receiveCount == e.receiveCount + 1 && e'.handle != NO_HANDLE && e.visibleAt <= now)
        || (e'.receiveCount == e.receiveCount && e.handle != NO_HANDLE &&
            (e'.handle == e.handle || (e'.handle == NO_HANDLE && e'.visibleAt <= now))))
  }

  ghost predicate CameFrom(s: State, now: int, e': Entry) {
    exists e :: e in s.entries && Evolves(now, e, e')
  }

  /** The entry an accepted send appends. */
  ghost predicate NewlySent(w: World, a: Action, e': Entry) {
    && a.DoSend? && Send(w.store, w.now, a.msg, a.delay).1 == SendAccepted(e'.msg)
    && e' == Entry(w.store.nextKey, e'.msg, w.now + Max0(a.delay) * SECOND, NO_HANDLE, 0, None, None)
    && e'.msg.sentTimestamp == w.now
  }

  lemma ReceiveEvolves(s: State, now: int, max: int, requested: int)
    requires Inv(s)
    ensures forall e' :: e' in Receive(s, now, max, requested).0.entries ==> CameFrom(s, now, e')
  {
    if !s.closed {
      var kept := Expire(s, now);
      var s' := Receive(s, now, max, requested).0;
      var p := Picked(kept, now, max);
      FirstEligible(s, now, max, requested);
      PickedAreVisible(kept, now, max);
      KeptMembers(s.entries, s.cfg.Cutoff(now));
      forall e' | e' in s'.entries ensures CameFrom(s, now, e') {
        var j :| 0 <= j < |s'.entries| && s'.entries[j] == e';
        assert kept.entries[j] in s.entries;
        if j in p { var k :| 0 <= k < |p| && p[k] == j; }
        assert Evolves(now, kept.entries[j], e');
      }
    } else {
      Unmoved(s, now, s);
    }
  }

  lemma Unmoved(s: State, now: int, s': State)
    requires forall e' :: e' in s'.entries ==> e' in s.entries
    ensures forall e' :: e' in s'.entries ==> CameFrom(s, now, e')
  {
    forall e' | e' in s'.entries ensures CameFrom(s, now, e') { assert Evolves(now, e', e'); }
  }

  lemma UpdateEvolves(s: State, now: int, i: nat, s': State)
    requires KeysOk(s) && i < |s.entries| == |s'.entries| && s'.entries == s.entries[i := s'.entries[i]]
    requires Evolves(now, s.entries[i], s'.entries[i])
    ensures forall e' :: e' in s'.entries ==> CameFrom(s, now, e')
  {
    forall e' | e' in s'.entries ensures CameFrom(s, now, e') {
      assert s.entries[i] in s.entries;
      if e' in s.entries { assert Evolves(now, e', e'); }
    }
  }

  lemma ChangeVisibilityEvolves(s: State, now: int, h: Handle, timeout: int)
    requires Inv(s)
    ensures forall e' :: e' in ChangeVisibility(s, now, h, timeout).0.entries ==> CameFrom(s, now, e')
  {
    var i := FindHandle(s.entries, h);
    if i == |s.entries| {
      Unmoved(s, now, s);
    } else if timeout == 0 {
      assert ResetVisibility(s, i, now).entries == s.entries[i := ResetVisibility(s, i, now).entries[i]];
      UpdateEvolves(s, now, i, ResetVisibility(s, i, now));
    } else {
      UpdateEvolves(s, now, i, Extend(s, i, now, timeout));
    }
  }

  lemma FireEvolves(s: State, now: int, t: nat)
    requires Inv(s)
    ensures forall e' :: e' in Fire(s, now, t).0.entries ==> CameFrom(s, now, e')
  {
    var s' := Fire(s, now, t).0;
    if t in s.armed && s.armed[t].deadline <= now {
      TimerFindsItsMessage(s, t);
      var i := FindKey(s.entries, s.armed[t].key);
      if s.armed[t].checksClosed && s.closed {
        Unmoved(s, now, s');
      } else if s.cfg.RedriveDue(s.entries[i].receiveCount) {
        RemovedMembers(s, i);
        Unmoved(s, now, s');
      } else {
        UpdateEvolves(s, now, i, s');
      }
    } else {
      Unmoved(s, now, s');
    }
  }

  lemma DeleteEvolves(s: State, now: int, h: Handle)
    requires Inv(s)
    ensures forall e' :: e' in Delete(s, h).0.entries ==> CameFrom(s, now, e')
  {
    var i := FindHandle(s.entries, h);
    if i < |s.entries| { RemovedMembers(s, i); }
    Unmoved(s, now, Delete(s, h).0);
  }

  lemma SendEvolves(w: World, msg: Message, delay: int)
    ensures forall e' :: e' in Send(w.store, w.now, msg, delay).0.entries ==>
              CameFrom(w.store, w.now, e') || NewlySent(w, DoSend(msg, delay), e')
  {
    Unmoved(w.store, w.now, w.store);
  }

  /** After any step each stored message is the one just accepted or one that was there, evolved. */
  lemma StepEvolves(w: World, a: Action)
    requires Inv(w.store)
    ensures forall e' :: e' in Step(w, a).store.entries ==> CameFrom(w.store, w.now, e') || NewlySent(w, a, e')
  {
    var s, now := w.store, w.now;
    Unmoved(s, now, s);
    match a
    case DoReceive(max, requested) => ReceiveEvolves(s, now, max, requested);
    case DoSend(msg, delay) => SendEvolves(w, msg, delay);
    case DoDelete(h) => DeleteEvolves(s, now, h);
    case DoChangeVisibility(h, timeout) => ChangeVisibilityEvolves(s, now, h, timeout);
    case DoFire(t) => FireEvolves(s, now, t);
    case _ =>
  }

  // ---------------------------------------------------------------- the clock

  /** How an entry stands to the clock: a blank handle with a future visibility means never received. */
  ghost predicate ClockOk(now: int, e: Entry) {
    && e.msg.sentTimestamp <= now
    && (e.receiveCount == 0 ==> e.handle == NO_HANDLE && e.msg.sentTimestamp <= e.visibleAt)
    && (e.handle == NO_HANDLE && e.receiveCount > 0 ==> e.visibleAt <= now)
  }

  ghost predicate ClockInv(now: int, s: State) {
    forall e :: e in s.entries ==> ClockOk(now, e)
  }

  lemma StepClock(w: World, a: Action)
    requires Inv(w.store) && ClockInv(w.now, w.store)
    ensures ClockInv(Step(w, a).now, Step(w, a).store)
  {
    StepEvolves(w, a);
    forall e' | e' in Step(w, a).store.entries ensures ClockOk(Step(w, a).now, e') {
      if CameFrom(w.store, w.now, e') {
        var e :| e in w.store.entries && Evolves(w.now, e, e');
        assert ClockOk(w.now, e);
      }
    }
  }

  lemma StepInv(w: World, a: Action)
    requires Inv(w.store)
    ensures Inv(Step(w, a).store)
  {
    var s, now := w.store, w.now;
    match a
    case DoSend(msg, delay) => SendInv(s, now, msg, delay);
    case DoReceive(max, requested) => ReceiveInv(s, now, max, requested);
    case DoDelete(h) => DeleteInv(s, h);
    case DoChangeVisibility(h, timeout) => ChangeVisibilityInv(s, now, h, timeout);
    case DoPurge => PurgeInv(s);
    case DoClose => CloseInv(s);
    case DoFire(t) => FireInv(s, now, t);
    case DoTick(d) =>
  }

  /** Every reachable state meets the invariants. */
  lemma {:induction false} RunInv(cfg: Config, start: int, acts: seq<Action>)
    ensures var w := Run(Start(cfg, start), acts); Inv(w.store) && ClockInv(w.now, w.store)
  {
    if acts == [] {
      InitInv(cfg);
    } else {
      var before := acts[..|acts| - 1];
      RunInv(cfg, start, before);
      StepInv(Run(Start(cfg, start), before), acts[|acts| - 1]);
      StepClock(Run(Start(cfg, start), before), acts[|acts| - 1]);
    }
  }

  lemma {:induction false} RunConfig(w: World, acts: seq<Action>)
    ensures Run(w, acts).store.cfg == w.store.cfg && Run(w, acts).now >= w.now
  {
    if acts != [] {
      RunConfig(w, acts[..|acts| - 1]);
      StepConfig(Run(w, acts[..|acts| - 1]), acts[|acts| - 1]);
    }
  }

  predicate Accepts(w: World, a: Action) {
    a.DoSend? && Send(w.store, w.now, a.msg, a.delay).1.SendAccepted?
  }

  lemma StepConfig(w: World, a: Action)
    ensures Step(w, a).store.cfg == w.store.cfg && Step(w, a).now >= w.now
    ensures Step(w, a).store.nextKey == w.store.nextKey + if Accepts(w, a) then 1 else 0
  {
    if a.DoReceive? && !w.store.closed {
      ScanConfig(Expire(w.store, w.now), 0, w.now, a.max, w.store.cfg.EffectiveVisibility(a.requested), []);
    }
  }

  lemma {:induction false} ScanConfig(s: State, i: nat, now: int, max: int, visibility: int, acc: seq<Message>)
    requires i <= |s.entries|
    ensures var s' := Scan(s, i, now, max, visibility, acc).0;
            s' == s.(entries := s'.entries, inFlight := s'.inFlight, armed := s'.armed,
                     nextHandle := s'.nextHandle, nextTimer := s'.nextTimer)
    decreases |s.entries| - i
  {
    if i < |s.entries| {
      if Deliverable(s, i, now) {
        var s1 := Take(s, i, now, visibility);
        if |acc| + 1 < max { ScanConfig(s1, i + 1, now, max, visibility, acc + [s1.entries[i].msg]); }
      } else {
        ScanConfig(s, i + 1, now, max, visibility, acc);
      }
    }
  }

  // ---------------------------------------------------------------- what the invariants say to a reader

  ghost predicate InFlight(e: Entry) {
    e.handle != NO_HANDLE
  }

  /** Timer t is the timer of entry e: it carries the entry's current handle and its visibility deadline. */
  ghost predicate TimerOf(s: State, t: nat, e: Entry) {
    t in s.armed && s.armed[t].key == e.key && s.armed[t].handle == e.handle && s.armed[t].deadline == e.visibleAt
  }

  /** While the store is open, an in-flight message has exactly one armed timer, carrying its handle and
      deadline, and a message with a blank handle has none; every armed timer belongs to a stored message. */
  lemma ExactlyOneTimer(cfg: Config, start: int, acts: seq<Action>)
    ensures var s := Run(Start(cfg, start), acts).store;
            !s.closed ==>
              && (forall e :: e in s.entries && InFlight(e) ==>
                  exists t :: TimerOf(s, t, e) && forall u :: u in s.armed && s.armed[u].key == e.key ==> u == t)
              && (forall e, u :: e in s.entries && !InFlight(e) && u in s.armed ==> s.armed[u].key != e.key)
              && (forall u :: u in s.armed ==> exists e :: e in s.entries && TimerOf(s, u, e))
  {
    RunInv(cfg, start, acts);
    var s := Run(Start(cfg, start), acts).store;
    if !s.closed {
      forall u | u in s.armed
        ensures exists e :: e in s.entries && e.timer == Some(u) && TimerOf(s, u, e)
      {
        assert Owned(s, u);
        var e :| e in s.entries && e.timer == Some(u);
        assert TimerOk(s, e);
      }
      forall e | e in s.entries && InFlight(e)
        ensures exists t :: TimerOf(s, t, e) && forall u :: u in s.armed && s.armed[u].key == e.key ==> u == t
      {
        assert TimerOk(s, e);
        var t := e.timer.value;
        forall u | u in s.armed && s.armed[u].key == e.key ensures u == t {
          var e' :| e' in s.entries && e'.timer == Some(u) && TimerOf(s, u, e');
          SameKeySameEntry(s, e, e');
        }
        assert TimerOf(s, t, e);
      }
      forall e, u | e in s.entries && !InFlight(e) && u in s.armed ensures s.armed[u].key != e.key {
        var e' :| e' in s.entries && e'.timer == Some(u) && TimerOf(s, u, e');
        assert TimerOk(s, e') && TimerOk(s, e);
        if e'.key == e.key { SameKeySameEntry(s, e, e'); }
      }
    }
  }

  /** Handles in use are pairwise distinct, and a message without a handle that is still invisible
      is a delayed message nobody has received. */
  lemma HandlesAreDistinct(cfg: Config, start: int, acts: seq<Action>)
    ensures var w := Run(Start(cfg, start), acts);
            var es := w.store.entries;
            && (forall i, j :: 0 <= i < j < |es| && InFlight(es[i]) ==> es[i].handle != es[j].handle)
            && (forall e :: e in es && !InFlight(e) && e.visibleAt > w.now ==> e.receiveCount == 0)
  {
    RunInv(cfg, start, acts);
    var w := Run(Start(cfg, start), acts);
    var es := w.store.entries;
    forall i, j | 0 <= i < j < |es| && InFlight(es[i]) ensures es[i].handle != es[j].handle {
      assert PairOk(w.store, es[i], es[j]);
    }
    forall e | e in es && !InFlight(e) && e.visibleAt > w.now ensures e.receiveCount == 0 {
      assert ClockOk(w.now, e);
    }
  }

  /** A FIFO store never has two messages of one group in flight, and the group of an in-flight
      message is marked. */
  lemma OneInFlightPerGroup(cfg: Config, start: int, acts: seq<Action>)
    requires cfg.isFifo
    ensures var s := Run(Start(cfg, start), acts).store;
            && (forall e :: e in s.entries && InFlight(e) && e.msg.groupId != "" ==> e.msg.groupId in s.inFlight)
            && (forall i, j :: 0 <= i < j < |s.entries| && s.entries[i].msg.groupId == s.entries[j].msg.groupId != "" ==>
                !(InFlight(s.entries[i]) && InFlight(s.entries[j])))
  {
    RunInv(cfg, start, acts);
    RunConfig(Start(cfg, start), acts);
    var s := Run(Start(cfg, start), acts).store;
    forall e | e in s.entries && InFlight(e) && e.msg.groupId != "" ensures e.msg.groupId in s.inFlight {
      assert FifoOk(s, e);
    }
    forall i, j | 0 <= i < j < |s.entries| && s.entries[i].msg.groupId == s.entries[j].msg.groupId != ""
      ensures !(InFlight(s.entries[i]) && InFlight(s.entries[j]))
    {
      assert PairOk(s, s.entries[i], s.entries[j]);
    }
  }
}
