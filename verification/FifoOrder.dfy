/** History of a store: which messages were accepted, where each one went, and in which order FIFO delivers. */
module FifoOrder {
  import opened StoreTypes
  import opened MemorySpec
  import opened MemoryInvariants
  import opened MemoryRuns
  import opened ReceivePass

  /** Messages the store accepted during the run, in order; a message's position is its key. */
  function Accepted(w: World, acts: seq<Action>): seq<Message> {
    if acts == [] then []
    else
      var before := acts[..|acts| - 1];
      Accepted(w, before) + AcceptedNow(Run(w, before), acts[|acts| - 1])
  }

  function AcceptedNow(w: World, a: Action): seq<Message> {
    if !a.DoSend? then []
    else match Send(w.store, w.now, a.msg, a.delay).1
      case SendAccepted(m) => [m]
      case _ => []
  }

  ghost predicate Logged(s: State, log: seq<Message>) {
    && |log| == s.nextKey
    && forall e :: e in s.entries ==> e.key < |log| && SameMessage(e.msg, log[e.key])
  }

  lemma StepLogged(w: World, a: Action, log: seq<Message>)
    requires Inv(w.store) && Logged(w.store, log)
    ensures Logged(Step(w, a).store, log + AcceptedNow(w, a))
  {
    StepEvolves(w, a);
    StepConfig(w, a);
    var log' := log + AcceptedNow(w, a);
    forall e' | e' in Step(w, a).store.entries ensures e'.key < |log'| && SameMessage(e'.msg, log'[e'.key]) {
      if CameFrom(w.store, w.now, e') {
        var e :| e in w.store.entries && Evolves(w.now, e, e');
      }
    }
  }

  lemma {:induction false} RunLogged(cfg: Config, start: int, acts: seq<Action>)
    ensures Logged(Run(Start(cfg, start), acts).store, Accepted(Start(cfg, start), acts))
  {
    if acts != [] {
      var before := acts[..|acts| - 1];
      RunLogged(cfg, start, before);
      RunInv(cfg, start, before);
      StepLogged(Run(Start(cfg, start), before), acts[|acts| - 1], Accepted(Start(cfg, start), before));
    }
  }

  // ---------------------------------------------------------------- order of delivery

  /** Along the list of a FIFO store, sequence numbers strictly increase. */
  lemma SequenceNumbersIncrease(cfg: Config, start: int, acts: seq<Action>)
    requires cfg.isFifo
    ensures var es := Run(Start(cfg, start), acts).store.entries;
            && (forall i :: 0 <= i < |es| ==> 0 < es[i].msg.sequenceNumber)
            && (forall i, j :: 0 <= i < j < |es| ==> es[i].msg.sequenceNumber < es[j].msg.sequenceNumber)
  {
    RunInv(cfg, start, acts);
    RunConfig(Start(cfg, start), acts);
    SequencesIn(Run(Start(cfg, start), acts).store);
  }

  lemma SequencesIn(s: State)
    requires Inv(s) && s.cfg.isFifo
    ensures forall i :: 0 <= i < |s.entries| ==> 0 < s.entries[i].msg.sequenceNumber
    ensures forall i, j :: 0 <= i < j < |s.entries| ==> s.entries[i].msg.sequenceNumber < s.entries[j].msg.sequenceNumber
  {
    forall i | 0 <= i < |s.entries| ensures 0 < s.entries[i].msg.sequenceNumber {
      assert FifoOk(s, s.entries[i]);
    }
    forall i, j | 0 <= i < j < |s.entries| ensures s.entries[i].msg.sequenceNumber < s.entries[j].msg.sequenceNumber {
      assert PairOk(s, s.entries[i], s.entries[j]);
    }
  }

  ghost predicate Stores(s: State, key: nat) {
    exists e :: e in s.entries && e.key == key
  }

  /** Message `key` is stored but its send delay has not run out, so nobody ever received it. */
  ghost predicate StillDelayed(w: World, key: nat) {
    exists e :: e in w.store.entries && e.key == key && e.receiveCount == 0 && e.visibleAt > w.now
  }

  /** When a receive hands out a message of a group, every message of that group accepted earlier has left the store
      or still waits for its send delay. */
  lemma DeliveredInOrder(cfg: Config, start: int, acts: seq<Action>, max: int, i: nat, k: nat)
    requires cfg.isFifo
    requires var w := Run(Start(cfg, start), acts);
             var kept := Expire(w.store, w.now);
             i in Picked(kept, w.now, max) && i < |kept.entries| && k < kept.entries[i].key
             && k < |Accepted(Start(cfg, start), acts)|
             && Accepted(Start(cfg, start), acts)[k].groupId == kept.entries[i].msg.groupId != ""
    ensures var w := Run(Start(cfg, start), acts);
            Stores(Expire(w.store, w.now), k) ==> StillDelayed(w, k)
  {
    RunInv(cfg, start, acts);
    RunConfig(Start(cfg, start), acts);
    RunLogged(cfg, start, acts);
    var w := Run(Start(cfg, start), acts);
    var kept := Expire(w.store, w.now);
    KeptMembers(w.store.entries, w.store.cfg.Cutoff(w.now));
    if Stores(kept, k) {
      var e :| e in kept.entries && e.key == k;
      EarlierIsDelayed(w, max, i, e);
    }
  }

  lemma EarlierPosition(s: State, j: nat, i: nat)
    requires KeysOk(s) && j < |s.entries| && i < |s.entries| && s.entries[j].key < s.entries[i].key
    ensures j < i
  {
  }

  lemma EarlierIsDelayed(w: World, max: int, i: nat, e: Entry)
    requires Inv(w.store) && ClockInv(w.now, w.store) && w.store.cfg.isFifo
    requires var kept := Expire(w.store, w.now);
             i in Picked(kept, w.now, max) && i < |kept.entries|
             && e in kept.entries && e.key < kept.entries[i].key && e.msg.groupId == kept.entries[i].msg.groupId != ""
    ensures e.receiveCount == 0 && e.visibleAt > w.now
  {
    var kept := Expire(w.store, w.now);
    ExpireInv(w.store, w.now);
    KeptMembers(w.store.entries, w.store.cfg.Cutoff(w.now));
    EligibleFromExact(kept, w.now, 0);
    assert i in EligibleFrom(kept, w.now, 0);
    var j :| 0 <= j < |kept.entries| && kept.entries[j] == e;
    EarlierPosition(kept, j, i);
    assert FifoOk(kept, e) && ClockOk(w.now, e);
  }

  // ---------------------------------------------------------------- strict order

  /** An accepted send becomes visible no earlier than every stored, never-received message of its group. */
  ghost predicate InOrder(w: World, a: Action) {
    Accepts(w, a) ==>
      forall e :: e in w.store.entries && e.msg.groupId == a.msg.groupId && e.receiveCount == 0 ==>
        e.visibleAt <= w.now + Max0(a.delay) * SECOND
  }

  ghost predicate SentInOrder(w: World, acts: seq<Action>) {
    acts == [] || (SentInOrder(w, acts[..|acts| - 1]) && InOrder(Run(w, acts[..|acts| - 1]), acts[|acts| - 1]))
  }

  /** The earlier message a, never received, becomes visible after the later message b. */
  ghost predicate Late(now: int, a: Entry, b: Entry) {
    a.receiveCount == 0 && a.visibleAt > if b.receiveCount == 0 then b.visibleAt else now
  }

  ghost predicate GroupsInOrder(now: int, s: State) {
    forall a, b :: a in s.entries && b in s.entries && a.key < b.key && a.msg.groupId == b.msg.groupId != "" ==>
      !Late(now, a, b)
  }

  /** A message that nobody has received yet is as it was sent. */
  lemma UnreceivedIsUnchanged(w: World, e: Entry, e': Entry)
    requires ClockInv(w.now, w.store) && e in w.store.entries && Evolves(w.now, e, e') && e'.receiveCount == 0
    ensures e' == e
  {
    assert ClockOk(w.now, e);
  }

  lemma StepInOrder(w: World, a: Action)
    requires Inv(w.store) && ClockInv(w.now, w.store) && GroupsInOrder(w.now, w.store) && InOrder(w, a)
    ensures GroupsInOrder(Step(w, a).now, Step(w, a).store)
  {
    StepEvolves(w, a);
    StepConfig(w, a);
    var s, w' := w.store, Step(w, a);
    forall x', y' | x' in w'.store.entries && y' in w'.store.entries && x'.key < y'.key
                    && x'.msg.groupId == y'.msg.groupId != ""
      ensures !Late(w'.now, x', y')
    {
      if x'.receiveCount == 0 {
        EarlierIsOld(w, a, x', y');
        var x :| x in s.entries && Evolves(w.now, x, x');
        UnreceivedIsUnchanged(w, x, x');
        LaterIsNotEarly(w, a, x, y');
      }
    }
  }

  /** Against a stored, unreceived message x a later message of its group stays in order. */
  lemma LaterIsNotEarly(w: World, a: Action, x: Entry, y': Entry)
    requires Inv(w.store) && ClockInv(w.now, w.store) && GroupsInOrder(w.now, w.store) && InOrder(w, a)
    requires x in w.store.entries && x.receiveCount == 0 && y' in Step(w, a).store.entries
    requires x.key < y'.key && x.msg.groupId == y'.msg.groupId != ""
    ensures !Late(Step(w, a).now, x, y')
  {
    StepConfig(w, a);
    StepEvolves(w, a);
    hide Inv, Send, Step;
    if CameFrom(w.store, w.now, y') {
      var y :| y in w.store.entries && Evolves(w.now, y, y');
      assert !Late(w.now, x, y);
      assert ClockOk(w.now, y);
    }
  }

  /** Of two stored messages the earlier one is not the message just accepted. */
  lemma EarlierIsOld(w: World, a: Action, x': Entry, y': Entry)
    requires Inv(w.store) && x' in Step(w, a).store.entries && y' in Step(w, a).store.entries && x'.key < y'.key
    ensures CameFrom(w.store, w.now, x')
  {
    StepEvolves(w, a);
    if CameFrom(w.store, w.now, y') {
      var y :| y in w.store.entries && Evolves(w.now, y, y');
      assert y.key < w.store.nextKey by { var i :| 0 <= i < |w.store.entries| && w.store.entries[i] == y; }
    }
  }

  lemma {:induction false} RunInOrder(cfg: Config, start: int, acts: seq<Action>)
    requires SentInOrder(Start(cfg, start), acts)
    ensures GroupsInOrder(Run(Start(cfg, start), acts).now, Run(Start(cfg, start), acts).store)
  {
    if acts != [] {
      var before := acts[..|acts| - 1];
      RunInOrder(cfg, start, before);
      RunInv(cfg, start, before);
      StepInOrder(Run(Start(cfg, start), before), acts[|acts| - 1]);
    }
  }

  /** In an ordered state a message is handed out only after every earlier message of its group has left the store. */
  lemma OrderedIsStrict(w: World, max: int, i: nat, e: Entry)
    requires Inv(w.store) && ClockInv(w.now, w.store) && w.store.cfg.isFifo && GroupsInOrder(w.now, w.store)
    requires var kept := Expire(w.store, w.now);
             i in Picked(kept, w.now, max) && i < |kept.entries|
             && e in kept.entries && e.msg.groupId == kept.entries[i].msg.groupId != ""
    ensures e.key >= Expire(w.store, w.now).entries[i].key
  {
    var kept := Expire(w.store, w.now);
    KeptMembers(w.store.entries, w.store.cfg.Cutoff(w.now));
    PickedAreVisible(kept, w.now, max);
    var b := kept.entries[i];
    assert b in kept.entries;
    assert e.key < b.key ==> !Late(w.now, e, b);
    if e.key < b.key {
      EarlierIsDelayed(w, max, i, e);
    }
  }

  /** FIFO order is strict as long as each send becomes visible no earlier than the waiting messages of its group: a
      message is handed out only after every earlier message of its group has left the store. */
  lemma StrictFifoOrder(cfg: Config, start: int, acts: seq<Action>, max: int, i: nat, k: nat)
    requires cfg.isFifo && SentInOrder(Start(cfg, start), acts)
    requires var w := Run(Start(cfg, start), acts);
             var kept := Expire(w.store, w.now);
             i in Picked(kept, w.now, max) && i < |kept.entries| && k < kept.entries[i].key
             && k < |Accepted(Start(cfg, start), acts)|
             && Accepted(Start(cfg, start), acts)[k].groupId == kept.entries[i].msg.groupId != ""
    ensures var w := Run(Start(cfg, start), acts); !Stores(Expire(w.store, w.now), k)
  {
    RunInOrder(cfg, start, acts);
    RunInv(cfg, start, acts);
    RunConfig(Start(cfg, start), acts);
    RunLogged(cfg, start, acts);
    var w := Run(Start(cfg, start), acts);
    KeptMembers(w.store.entries, w.store.cfg.Cutoff(w.now));
    if Stores(Expire(w.store, w.now), k) {
      var e :| e in Expire(w.store, w.now).entries && e.key == k;
      OrderedIsStrict(w, max, i, e);
    }
  }

  // ---------------------------------------------------------------- ordinary queues send in order

  predicate SameDelay(acts: seq<Action>, delay: int) {
    forall i :: 0 <= i < |acts| && acts[i].DoSend? ==> Max0(acts[i].delay) == Max0(delay)
  }

  ghost predicate Prompt(s: State, delay: int) {
    forall e :: e in s.entries && e.receiveCount == 0 ==> e.visibleAt == e.msg.sentTimestamp + Max0(delay) * SECOND
  }

  lemma StepPrompt(w: World, a: Action, delay: int)
    requires Inv(w.store) && ClockInv(w.now, w.store) && Prompt(w.store, delay)
    requires a.DoSend? ==> Max0(a.delay) == Max0(delay)
    ensures Prompt(Step(w, a).store, delay)
  {
    StepEvolves(w, a);
    forall e' | e' in Step(w, a).store.entries && e'.receiveCount == 0
      ensures e'.visibleAt == e'.msg.sentTimestamp + Max0(delay) * SECOND
    {
      if CameFrom(w.store, w.now, e') {
        var e :| e in w.store.entries && Evolves(w.now, e, e');
        UnreceivedIsUnchanged(w, e, e');
      }
    }
  }

  lemma {:induction false} RunPrompt(cfg: Config, start: int, acts: seq<Action>, delay: int)
    requires SameDelay(acts, delay)
    ensures Prompt(Run(Start(cfg, start), acts).store, delay)
  {
    if acts != [] {
      var before := acts[..|acts| - 1];
      RunPrompt(cfg, start, before, delay);
      RunInv(cfg, start, before);
      StepPrompt(Run(Start(cfg, start), before), acts[|acts| - 1], delay);
    }
  }

  /** If all sends have the same delay, none in particular, they are in order. */
  lemma {:induction false} SameDelayIsInOrder(cfg: Config, start: int, acts: seq<Action>, delay: int)
    requires SameDelay(acts, delay)
    ensures SentInOrder(Start(cfg, start), acts)
  {
    if acts != [] {
      var before := acts[..|acts| - 1];
      SameDelayIsInOrder(cfg, start, before, delay);
      RunPrompt(cfg, start, before, delay);
      RunInv(cfg, start, before);
      var w := Run(Start(cfg, start), before);
      forall e | e in w.store.entries && e.receiveCount == 0 ensures e.visibleAt <= w.now + Max0(delay) * SECOND {
        assert ClockOk(w.now, e);
      }
    }
  }

  // ---------------------------------------------------------------- a smallest case of disorder

  /** The delayed first message of a group is overtaken by the second. */
  lemma DelayedMessageIsOvertaken()
    ensures var cfg := Config(true, false, 30, 0, false, 0);
            var m := Message("a", "", "g", "a", 0, 0, false, NO_HANDLE, 0, 0, 0);
            var acts := [DoSend(m, 10), DoSend(m.(id := "b", dedupId := "b"), 0)];
            var s := Run(Start(cfg, 0), acts).store;
            && |s.entries| == 2 && Receive(s, 0, 1, 0).1.Some?
            && |Receive(s, 0, 1, 0).1.value| == 1 && Receive(s, 0, 1, 0).1.value[0].id == "b"
  {
    var cfg := Config(true, false, 30, 0, false, 0);
    var m := Message("a", "", "g", "a", 0, 0, false, NO_HANDLE, 0, 0, 0);
    var a, b := DoSend(m, 10), DoSend(m.(id := "b", dedupId := "b"), 0);
    var acts := [a, b];
    assert acts[..1] == [a] && [a][..0] == [];
    var w0 := Start(cfg, 0);
    assert Run(w0, [a]) == Step(w0, a);
    var w1 := Step(w0, a);
    assert Run(w0, acts) == Step(w1, b);
    var s := Step(w1, b).store;
    assert |s.entries| == 2;
    OnlySecondIsVisible(s, 0);
  }

  /** Of two kept messages only the second is visible: one receive returns that one. */
  lemma OnlySecondIsVisible(s: State, now: int)
    requires !s.closed && s.inFlight == {} && |s.entries| == 2
    requires forall i :: 0 <= i < 2 ==> s.entries[i].msg.sentTimestamp >= s.cfg.Cutoff(now)
    requires s.entries[0].visibleAt > now >= s.entries[1].visibleAt
    ensures var out := Receive(s, now, 1, 0).1; out.Some? && |out.value| == 1 && out.value[0].id == s.entries[1].msg.id
  {
    FirstEligible(s, now, 1, 0);
    var x, y := s.entries[0], s.entries[1];
    assert s.entries == [x, y];
    assert [x, y][..1] == [x] && [x][..0] == [];
    assert Kept([x], s.cfg.Cutoff(now)) == [x];
    assert Kept(s.entries, s.cfg.Cutoff(now)) == [x, y];
    var kept := Expire(s, now);
    assert EligibleFrom(kept, now, 2) == [];
    assert Eligible(kept, now, 1) && EligibleFrom(kept, now, 1) == [1];
    assert !Eligible(kept, now, 0) && EligibleFrom(kept, now, 0) == [1];
    assert Picked(kept, now, 1) == [1];
  }
}
