/** The in-memory store as objects that are updated in place. Each public method is one critical section with one
    clock reading, and is proved to compute the corresponding function of MemorySpec on the store's abstract value. */
module MemoryStores {
  import opened StoreTypes
  import opened MemorySpec
  import opened MemoryInvariants

  class MemoryMessage {
    ghost const key: nat
    var msg: Message
    var visibleAt: int
    var receiptHandle: Handle
    var receiveCount: nat
    var firstReceived: Option<int>
    var visibilityTimer: Option<nat>

    constructor (ghost key: nat, msg: Message, visibleAt: int)
      ensures Value() == Entry(key, msg, visibleAt, NO_HANDLE, 0, None, None)
    {
      this.key := key;
      this.msg := msg;
      this.visibleAt := visibleAt;
      receiptHandle, receiveCount, firstReceived, visibilityTimer := NO_HANDLE, 0, None, None;
    }

    /** What a receive stamps on a message. */
    method MarkReceived(handle: Handle, visibility: int, now: int, timer: nat)
      modifies this
      ensures Value() == Received(old(Value()), now, visibility, handle, timer)
    {
      receiveCount := receiveCount + 1;
      if firstReceived.None? {
        firstReceived := Some(now);
      }
      visibleAt := now + visibility * SECOND;
      receiptHandle := handle;
      visibilityTimer := Some(timer);
      msg := msg.(isVisible := false, receiptHandle := handle, receiveCount := receiveCount,
                  receivedTimestamp := now, firstReceived := firstReceived.value);
    }

    /** The message is visible again and nobody holds it. */
    method MarkReleased()
      modifies this
      ensures Value() == old(Value()).(handle := NO_HANDLE, timer := None, msg := old(msg).(isVisible := true))
    {
      msg := msg.(isVisible := true);
      receiptHandle := NO_HANDLE;
      visibilityTimer := None;
    }

    ghost function Value(): Entry
      reads this
    {
      Entry(key, msg, visibleAt, receiptHandle, receiveCount, firstReceived, visibilityTimer)
    }
  }

  /** A timer armed in the runtime and what its callback captured. */
  datatype ArmedTimer = ArmedTimer(mm: MemoryMessage, handle: Handle, deadline: int, checksClosed: bool)

  // ---------------------------------------------------------------- objects against values

  /** The messages carry the values es. */
  ghost predicate Shows(ms: seq<MemoryMessage>, es: seq<Entry>)
    reads ms
  {
    |ms| == |es| && forall i :: 0 <= i < |ms| ==> ms[i].Value() == es[i]
  }

  ghost function KeysOf(ms: seq<MemoryMessage>): (ks: seq<nat>)
    ensures |ks| == |ms| && forall i :: 0 <= i < |ms| ==> ks[i] == ms[i].key
  {
    seq(|ms|, i requires 0 <= i < |ms| => ms[i].key)
  }

  ghost function GroupKeys(groups: map<string, seq<MemoryMessage>>): map<string, seq<nat>> {
    map g | g in groups :: KeysOf(groups[g])
  }

  ghost function TimerValue(t: ArmedTimer): Timer {
    Timer(t.mm.key, t.handle, t.deadline, t.checksClosed)
  }

  ghost function TimerValues(timers: map<nat, ArmedTimer>): map<nat, Timer> {
    map t | t in timers :: TimerValue(timers[t])
  }

  function StopTimer(timers: map<nat, ArmedTimer>, timer: Option<nat>): map<nat, ArmedTimer> {
    if timer.Some? then timers - {timer.value} else timers
  }

  /** The register of all messages a store has created names a by its key. */
  ghost predicate Registered(register: map<nat, MemoryMessage>, a: MemoryMessage) {
    a.key in register && register[a.key] == a
  }

  ghost predicate AllRegistered(register: map<nat, MemoryMessage>, ms: seq<MemoryMessage>,
                                groups: map<string, seq<MemoryMessage>>, timers: map<nat, ArmedTimer>, nextKey: nat) {
    && (forall k :: k in register ==> k < nextKey)
    && (forall i :: 0 <= i < |ms| ==> Registered(register, ms[i]))
    && (forall g, i :: g in groups && 0 <= i < |groups[g]| ==> Registered(register, groups[g][i]))
    && (forall t :: t in timers ==> Registered(register, timers[t].mm))
  }

  /** Messages are in arrival order. */
  ghost predicate Ordered(ms: seq<MemoryMessage>) {
    forall i, j :: 0 <= i < j < |ms| ==> ms[i].key < ms[j].key
  }

  // ---------------------------------------------------------------- lemmas on the links

  lemma Distinct(ms: seq<MemoryMessage>, i: nat)
    requires Ordered(ms) && i < |ms|
    ensures forall j :: 0 <= j < |ms| && j != i ==> ms[j] != ms[i] && ms[j].key != ms[i].key
  {
    forall j | 0 <= j < |ms| && j != i ensures ms[j].key != ms[i].key {
      assert j < i ==> ms[j].key < ms[i].key;
      assert i < j ==> ms[i].key < ms[j].key;
    }
  }

  /** A new message in the list and in the register. */
  lemma Register(register: map<nat, MemoryMessage>, ms: seq<MemoryMessage>, groups: map<string, seq<MemoryMessage>>,
                 timers: map<nat, ArmedTimer>, nextKey: nat, mm: MemoryMessage)
    requires AllRegistered(register, ms, groups, timers, nextKey) && Ordered(ms) && mm.key == nextKey
    ensures AllRegistered(register[nextKey := mm], ms + [mm], groups, timers, nextKey + 1) && Ordered(ms + [mm])
  {
    forall a | Registered(register, a) ensures Registered(register[nextKey := mm], a) && a.key < nextKey {
    }
  }

  /** Appending a stored message to its group's list, on objects and on keys. */
  lemma GroupAppend(register: map<nat, MemoryMessage>, groups: map<string, seq<MemoryMessage>>, ms: seq<MemoryMessage>,
                    timers: map<nat, ArmedTimer>, nextKey: nat, g: string, i: nat)
    requires AllRegistered(register, ms, groups, timers, nextKey) && i < |ms|
    ensures var groups' := groups[g := (if g in groups then groups[g] else []) + [ms[i]]];
            var ks := GroupKeys(groups);
            && AllRegistered(register, ms, groups', timers, nextKey)
            && GroupKeys(groups') == ks[g := (if g in ks then ks[g] else []) + [ms[i].key]]
  {
    var was := if g in groups then groups[g] else [];
    assert KeysOf(was + [ms[i]]) == KeysOf(was) + [ms[i].key];
  }

  /** Stopping one timer and arming another, on objects and on values. */
  lemma TimerSwap(timers: map<nat, ArmedTimer>, timer: Option<nat>, t: nat, armed: ArmedTimer)
    ensures TimerValues(StopTimer(timers, timer)) == Stopped(TimerValues(timers), timer)
    ensures TimerValues(StopTimer(timers, timer)[t := armed]) == Stopped(TimerValues(timers), timer)[t := TimerValue(armed)]
  {
  }

  lemma ScanUnfolds(s: State, i: nat, now: int, max: int, visibility: int, acc: seq<Message>)
    requires i <= |s.entries|
    ensures i == |s.entries| ==> Scan(s, i, now, max, visibility, acc) == (s, acc)
    ensures i < |s.entries| && !Deliverable(s, i, now) ==>
              Scan(s, i, now, max, visibility, acc) == Scan(s, i + 1, now, max, visibility, acc)
    ensures i < |s.entries| && Deliverable(s, i, now) ==>
              var s1 := Take(s, i, now, visibility);
              && |s1.entries| == |s.entries|
              && Scan(s, i, now, max, visibility, acc)
                 == var acc1 := acc + [s1.entries[i].msg];
                    if |acc1| >= max then (s1, acc1) else Scan(s1, i + 1, now, max, visibility, acc1)
  {
  }

  // ---------------------------------------------------------------- the expiry loop

  /** After the first i messages: `kept` of them stay and `live` timers are still armed. */
  ghost predicate KeptSoFar(ms: seq<MemoryMessage>, timers: map<nat, ArmedTimer>, es: seq<Entry>, cutoff: int, i: nat,
                            kept: seq<MemoryMessage>, live: map<nat, ArmedTimer>)
    reads ms, kept
  {
    && i <= |ms| == |es|
    && (forall j :: 0 <= j < |kept| ==> kept[j] in ms[..i])
    && Ordered(kept)
    && (forall t :: t in live ==> t in timers && timers[t] == live[t])
    && Shows(kept, Kept(es[..i], cutoff))
    && TimerValues(live) == TimerValues(timers) - DroppedTimers(es[..i], cutoff)
  }

  lemma DropOneMore(ms: seq<MemoryMessage>, timers: map<nat, ArmedTimer>, es: seq<Entry>, cutoff: int, i: nat,
                    kept: seq<MemoryMessage>, live: map<nat, ArmedTimer>)
    requires Shows(ms, es) && i < |ms| && KeptSoFar(ms, timers, es, cutoff, i, kept, live)
    requires ms[i].msg.sentTimestamp < cutoff
    ensures KeptSoFar(ms, timers, es, cutoff, i + 1, kept, StopTimer(live, ms[i].visibilityTimer))
  {
    assert es[..i + 1][..i] == es[..i];
    assert ms[..i + 1] == ms[..i] + [ms[i]];
    TimerSwap(live, ms[i].visibilityTimer, 0, ArmedTimer(ms[i], 0, 0, false));
    StopOneMore(TimerValues(timers), DroppedTimers(es[..i], cutoff), ms[i].visibilityTimer);
  }

  lemma KeepOneMore(ms: seq<MemoryMessage>, timers: map<nat, ArmedTimer>, es: seq<Entry>, cutoff: int, i: nat,
                    kept: seq<MemoryMessage>, live: map<nat, ArmedTimer>)
    requires Shows(ms, es) && Ordered(ms) && i < |ms| && KeptSoFar(ms, timers, es, cutoff, i, kept, live)
    requires ms[i].msg.sentTimestamp >= cutoff
    ensures KeptSoFar(ms, timers, es, cutoff, i + 1, kept + [ms[i]], live)
  {
    assert es[..i + 1][..i] == es[..i];
    assert ms[..i + 1] == ms[..i] + [ms[i]];
    assert DroppedTimers(es[..i + 1], cutoff) == DroppedTimers(es[..i], cutoff);
    forall j | 0 <= j < |kept| ensures kept[j].key < ms[i].key {
      var k :| 0 <= k < i && ms[..i][k] == kept[j];
      assert ms[k].key < ms[i].key;
    }
  }

  lemma StopOneMore(armed: map<nat, Timer>, dropped: set<nat>, timer: Option<nat>)
    ensures Stopped(armed - dropped, timer) == armed - (dropped + if timer.Some? then {timer.value} else {})
  {
  }

  /** After the whole list everything that remains is registered as before. */
  lemma KeptAll(register: map<nat, MemoryMessage>, ms: seq<MemoryMessage>, groups: map<string, seq<MemoryMessage>>,
                timers: map<nat, ArmedTimer>, nextKey: nat, es: seq<Entry>, cutoff: int,
                kept: seq<MemoryMessage>, live: map<nat, ArmedTimer>)
    requires KeptSoFar(ms, timers, es, cutoff, |ms|, kept, live) && AllRegistered(register, ms, groups, timers, nextKey)
    ensures AllRegistered(register, kept, groups, live, nextKey)
    ensures Shows(kept, Kept(es, cutoff)) && TimerValues(live) == TimerValues(timers) - DroppedTimers(es, cutoff)
    ensures forall m :: m in kept ==> m in ms
  {
    assert ms[..|ms|] == ms && es[..|ms|] == es;
    forall j | 0 <= j < |kept| ensures Registered(register, kept[j]) {
      var k :| 0 <= k < |ms| && ms[k] == kept[j];
    }
  }

  // ---------------------------------------------------------------- removal

  lemma {:induction false} RemoveFirstAt(s: seq<nat>, x: nat, i: nat)
    requires i <= |s| && forall j :: 0 <= j < i ==> s[j] != x
    requires i < |s| ==> s[i] == x
    ensures RemoveFirst(s, x) == if i < |s| then s[..i] + s[i + 1..] else s
  {
    if s != [] && i > 0 {
      var tail := s[1..];
      RemoveFirstAt(tail, x, i - 1);
      assert s == [s[0]] + tail;
      if i < |s| {
        assert tail[..i - 1] == s[1..i] && tail[i..] == s[i + 1..];
        assert s[..i] == [s[0]] + s[1..i];
      }
    }
  }

  /** The group index without one key; a group left empty is dropped. */
  ghost function WithoutKey(groups: map<string, seq<nat>>, g: string, key: nat): map<string, seq<nat>> {
    var rest := RemoveFirst(if g in groups then groups[g] else [], key);
    if rest == [] then groups - {g} else groups[g := rest]
  }

  lemma KeysOfCut(ms: seq<MemoryMessage>, i: nat)
    requires i < |ms|
    ensures KeysOf(ms[..i] + ms[i + 1..]) == KeysOf(ms)[..i] + KeysOf(ms)[i + 1..]
  {
  }

  /** The index without the object at position i of group g, where i is where the search for it ended. */
  ghost function WithoutAt(groups: map<string, seq<MemoryMessage>>, g: string, i: nat): map<string, seq<MemoryMessage>> {
    var group := if g in groups then groups[g] else [];
    var rest := if i < |group| then group[..i] + group[i + 1..] else group;
    if rest == [] then groups - {g} else groups[g := rest]
  }

  lemma RemovalKeepsRegister(register: map<nat, MemoryMessage>, groups: map<string, seq<MemoryMessage>>,
                             ms: seq<MemoryMessage>, timers: map<nat, ArmedTimer>, nextKey: nat, g: string, i: nat)
    requires AllRegistered(register, ms, groups, timers, nextKey)
    ensures AllRegistered(register, ms, WithoutAt(groups, g, i), timers, nextKey)
  {
    hide Registered;
  }

  /** Removing a stored message from its group, on objects and on keys. */
  lemma GroupRemove(register: map<nat, MemoryMessage>, groups: map<string, seq<MemoryMessage>>, ms: seq<MemoryMessage>,
                    timers: map<nat, ArmedTimer>, nextKey: nat, g: string, mm: MemoryMessage, i: nat)
    requires AllRegistered(register, ms, groups, timers, nextKey) && Registered(register, mm)
    requires var group := if g in groups then groups[g] else [];
             i <= |group| && (forall j :: 0 <= j < i ==> group[j] != mm) && (i < |group| ==> group[i] == mm)
    ensures GroupKeys(WithoutAt(groups, g, i)) == WithoutKey(GroupKeys(groups), g, mm.key)
  {
    var group := if g in groups then groups[g] else [];
    forall j | 0 <= j < i ensures group[j].key != mm.key {
      assert Registered(register, groups[g][j]);
    }
    KeysWithout(group, mm, i);
    assert KeysOf(group) == if g in groups then GroupKeys(groups)[g] else [];
  }

  lemma KeysWithout(group: seq<MemoryMessage>, mm: MemoryMessage, i: nat)
    requires i <= |group| && (forall j :: 0 <= j < i ==> group[j].key != mm.key) && (i < |group| ==> group[i] == mm)
    ensures KeysOf(if i < |group| then group[..i] + group[i + 1..] else group) == RemoveFirst(KeysOf(group), mm.key)
  {
    RemoveFirstAt(KeysOf(group), mm.key, i);
    if i < |group| { KeysOfCut(group, i); }
  }

  /** One of the first i entries holds timer t. */
  ghost predicate HeldBefore(es: seq<Entry>, i: nat, t: nat)
    requires i <= |es|
  {
    exists j :: 0 <= j < i && es[j].timer == Some(t)
  }

  lemma HeldIsAllTimers(es: seq<Entry>)
    ensures forall t :: t in AllTimers(es) <==> HeldBefore(es, |es|, t)
  {
    forall t | HeldBefore(es, |es|, t) ensures t in AllTimers(es) {
      var j :| 0 <= j < |es| && es[j].timer == Some(t);
      assert es[j] in es;
    }
  }

  class MemoryStore {
    const cfg: Config
    var messages: seq<MemoryMessage>
    var messageGroups: map<string, seq<MemoryMessage>>
    var inFlightGroups: set<string>
    var dedupCache: map<string, int>
    var sequenceCounter: nat
    var notify: bool
    var closed: bool
    // the runtime's armed timers, and the sources of fresh timers and handles
    var timers: map<nat, ArmedTimer>
    var nextTimer: nat
    var nextHandle: nat
    /** The abstract value of the store. */
    ghost var model: State
    /** Every message the store ever created, by key. */
    ghost var register: map<nat, MemoryMessage>

    ghost predicate Valid()
      reads this, messages
    {
      && model.cfg == cfg && model.inFlight == inFlightGroups && model.dedup == dedupCache
      && model.sequence == sequenceCounter && model.notify == notify && model.closed == closed
      && model.nextHandle == nextHandle && model.nextTimer == nextTimer
      && model.groups == GroupKeys(messageGroups) && model.armed == TimerValues(timers)
      && Shows(messages, model.entries)
      && AllRegistered(register, messages, messageGroups, timers, model.nextKey)
      && Ordered(messages)
    }

    ghost function Created(): set<MemoryMessage>
      reads this
    {
      set k | k in register :: register[k]
    }

    /** The store has created the messages that are new in its register since the old state. */
    twostate predicate NewMessagesAreFresh()
      reads this
    {
      forall k :: k in register ==> (k in old(register) && register[k] == old(register)[k]) || fresh(register[k])
    }

    constructor (cfg: Config)
      ensures Valid() && model == Init(cfg)
    {
      this.cfg := cfg;
      messages, messageGroups, inFlightGroups, dedupCache := [], map[], {}, map[];
      sequenceCounter, notify, closed := 0, false, false;
      timers, nextTimer, nextHandle := map[], 0, 1;
      model, register := Init(cfg), map[];
    }

    method NotifyWaiters()
      requires Valid()
      modifies this`notify, this`model
      ensures Valid() && model == old(model).(notify := true)
    {
      notify := true;
      model := model.(notify := true);
    }

    // ---------------------------------------------------------------- send

    method CleanExpiredDedupEntries(now: int)
      modifies this`dedupCache
      ensures dedupCache == CleanDedup(old(dedupCache), now)
    {
      var todo := dedupCache.Keys;
      while todo != {}
        invariant todo <= dedupCache.Keys <= old(dedupCache).Keys
        invariant forall id :: id in dedupCache ==> dedupCache[id] == old(dedupCache)[id]
        invariant forall id :: id in old(dedupCache) && id !in todo ==> (id in dedupCache <==> now <= old(dedupCache)[id])
        decreases |todo|
      {
        var id :| id in todo;
        if now > dedupCache[id] {
          dedupCache := dedupCache - {id};
        }
        todo := todo - {id};
      }
    }

    /** The dedup check of SendMessage: tells a duplicate from a new id, which it records. */
    method Deduplicate(msg: Message, now: int) returns (duplicate: bool)
      requires Valid()
      modifies this`dedupCache, this`model
      ensures Valid()
      ensures var cleaned := CleanDedup(old(model.dedup), now);
              var id := EffectiveDedupId(cfg, msg);
              && duplicate == (id != "" && id in cleaned)
              && model == old(model).(dedup := if id != "" && !duplicate then cleaned[id := now + DEDUP_WINDOW] else cleaned)
    {
      CleanExpiredDedupEntries(now);
      var id := EffectiveDedupId(cfg, msg);
      duplicate := id != "" && id in dedupCache;
      if id != "" && !duplicate {
        dedupCache := dedupCache[id := now + DEDUP_WINDOW];
      }
      model := model.(dedup := dedupCache);
    }

    method SendMessage(msg: Message, delay: int, now: int) returns (result: SendResult)
      requires Valid()
      modifies this
      ensures Valid() && (model, result) == Send(old(model), now, msg, delay)
      ensures NewMessagesAreFresh()
    {
      if closed {
        return SendClosed;
      }
      var numbered := msg;
      if cfg.isFifo {
        var duplicate := Deduplicate(msg, now);
        if duplicate {
          return SendDuplicate;
        }
        sequenceCounter := sequenceCounter + 1;
        model := model.(sequence := sequenceCounter);
        numbered := msg.(sequenceNumber := sequenceCounter);
      }
      var stored := Append(numbered, delay, now);
      result := SendAccepted(stored);
    }

    /** The part of SendMessage after deduplication: stamps the message, stores it, wakes a waiter. */
    method Append(msg: Message, delay: int, now: int) returns (stored: Message)
      requires Valid()
      modifies this
      ensures Valid() && (model, stored) == Enqueue(old(model), now, msg, delay)
      ensures NewMessagesAreFresh()
    {
      stored := msg.(sentTimestamp := now, isVisible := delay == 0);
      AppendMessage(stored, if delay > 0 then now + delay * SECOND else now);
      if cfg.isFifo && stored.groupId != "" {
        AppendToGroup(stored.groupId, |messages| - 1);
      }
      if delay == 0 {
        NotifyWaiters();
      }
    }

    method AppendMessage(stored: Message, visibleAt: int)
      requires Valid()
      modifies this`messages, this`model, this`register
      ensures Valid() && NewMessagesAreFresh()
      ensures model == old(model).(
                entries := old(model).entries + [Entry(old(model).nextKey, stored, visibleAt, NO_HANDLE, 0, None, None)],
                nextKey := old(model).nextKey + 1)
    {
      var mm := new MemoryMessage(model.nextKey, stored, visibleAt);
      Register(register, messages, messageGroups, timers, model.nextKey, mm);
      register := register[model.nextKey := mm];
      messages := messages + [mm];
      model := model.(entries := model.entries + [Entry(model.nextKey, stored, visibleAt, NO_HANDLE, 0, None, None)],
                      nextKey := model.nextKey + 1);
    }

    method AppendToGroup(g: string, i: nat)
      requires Valid() && i < |messages|
      modifies this`messageGroups, this`model
      ensures Valid()
      ensures model == old(model).(groups :=
                var was := old(model).groups; was[g := (if g in was then was[g] else []) + [old(model).entries[i].key]])
    {
      GroupAppend(register, messageGroups, messages, timers, model.nextKey, g, i);
      messageGroups := messageGroups[g := (if g in messageGroups then messageGroups[g] else []) + [messages[i]]];
      model := model.(groups := GroupKeys(messageGroups));
    }

    // ---------------------------------------------------------------- receive

    /** The messages that are not too old, and the timers that are not stopped with the others. */
    method SplitExpired(now: int) returns (kept: seq<MemoryMessage>, live: map<nat, ArmedTimer>)
      requires Valid()
      ensures AllRegistered(register, kept, messageGroups, live, model.nextKey) && Ordered(kept)
      ensures TimerValues(live) == Expire(model, now).armed
      ensures Shows(kept, Expire(model, now).entries)
      ensures forall m :: m in kept ==> m in messages
    {
      ghost var es := model.entries;
      var cutoff := cfg.Cutoff(now);
      kept := [];
      live := timers;
      for i := 0 to |messages|
        invariant KeptSoFar(messages, timers, es, cutoff, i, kept, live)
      {
        var mm := messages[i];
        if mm.msg.sentTimestamp < cutoff {
          DropOneMore(messages, timers, es, cutoff, i, kept, live);
          live := StopTimer(live, mm.visibilityTimer);
        } else {
          KeepOneMore(messages, timers, es, cutoff, i, kept, live);
          kept := kept + [mm];
        }
      }
      KeptAll(register, messages, messageGroups, timers, model.nextKey, es, cutoff, kept, live);
    }

    method DeleteExpiredMessages(now: int)
      requires Valid()
      modifies this`messages, this`timers, this`model
      ensures Valid() && model == Expire(old(model), now)
    {
      var kept, live := SplitExpired(now);
      messages, timers := kept, live;
      model := Expire(model, now);
    }

    method StopTimerOf(mm: MemoryMessage)
      requires Valid()
      modifies this`timers, this`model
      ensures Valid() && model == old(model).(armed := Stopped(old(model).armed, mm.visibilityTimer))
    {
      TimerSwap(timers, mm.visibilityTimer, 0, ArmedTimer(mm, 0, 0, false));
      timers := StopTimer(timers, mm.visibilityTimer);
      model := model.(armed := TimerValues(timers));
    }

    method Stamp(mm: MemoryMessage, ghost i: nat, visibility: int, now: int)
      requires Valid() && i < |messages| && messages[i] == mm
      modifies mm, this`model
      ensures Valid()
      ensures var s := old(model);
              model == s.(entries := s.entries[i := Received(s.entries[i], now, visibility, s.nextHandle, s.nextTimer)])
    {
      Distinct(messages, i);
      mm.MarkReceived(nextHandle, visibility, now, nextTimer);
      model := model.(entries := model.entries[i := mm.Value()]);
    }

    /** Everything a receive changes except the runtime's timers. */
    method HandOut(mm: MemoryMessage, ghost i: nat, visibility: int, now: int)
      requires Valid() && i < |messages| && messages[i] == mm
      modifies mm, this`inFlightGroups, this`nextHandle, this`model
      ensures Valid()
      ensures model == Take(old(model), i, now, visibility).(armed := old(model).armed, nextTimer := old(model).nextTimer)
    {
      Stamp(mm, i, visibility, now);
      nextHandle := nextHandle + 1;
      if cfg.isFifo && mm.msg.groupId != "" {
        inFlightGroups := inFlightGroups + {mm.msg.groupId};
      }
      model := model.(nextHandle := nextHandle, inFlight := inFlightGroups);
    }

    method ReceiveMessage(mm: MemoryMessage, ghost i: nat, visibility: int, now: int) returns (copy: Message)
      requires Valid() && i < |messages| && messages[i] == mm
      modifies mm, this`inFlightGroups, this`timers, this`nextTimer, this`nextHandle, this`model
      ensures Valid()
      ensures model == Take(old(model), i, now, visibility) && copy == model.entries[i].msg
    {
      var held := mm.visibilityTimer;
      HandOut(mm, i, visibility, now);
      RestartTimer(held, mm, now + visibility * SECOND, true);
      copy := mm.msg;
    }

    /** Stops the timer that was held, if any, and arms the next one for a registered message. */
    method RestartTimer(held: Option<nat>, mm: MemoryMessage, deadline: int, checksClosed: bool)
      requires Valid() && Registered(register, mm)
      modifies this`timers, this`nextTimer, this`model
      ensures Valid()
      ensures var s := old(model);
              var timer := Timer(mm.key, mm.receiptHandle, deadline, checksClosed);
              model == s.(armed := Stopped(s.armed, held)[s.nextTimer := timer], nextTimer := s.nextTimer + 1)
    {
      var armed := ArmedTimer(mm, mm.receiptHandle, deadline, checksClosed);
      TimerSwap(timers, held, nextTimer, armed);
      timers := StopTimer(timers, held);
      timers := timers[nextTimer := armed];
      nextTimer := nextTimer + 1;
      model := model.(armed := TimerValues(timers), nextTimer := nextTimer);
    }

    method ReceiveMessages(max: int, requested: int, now: int) returns (result: Option<seq<Message>>)
      requires Valid()
      modifies this`messages, this`timers, this`inFlightGroups, this`nextTimer, this`nextHandle, this`model, Created()
      ensures Valid() && (model, result) == Receive(old(model), now, max, requested)
    {
      if closed {
        return None;
      }
      var visibility := cfg.EffectiveVisibility(requested);
      DeleteExpiredMessages(now);
      var batch := ReceiveVisible(max, visibility, now);
      result := Some(batch);
    }

    /** The loop over the messages, which stops when the batch is full. */
    method ReceiveVisible(max: int, visibility: int, now: int) returns (batch: seq<Message>)
      requires Valid()
      modifies this`timers, this`inFlightGroups, this`nextTimer, this`nextHandle, this`model, Created()
      ensures Valid() && (model, batch) == Scan(old(model), 0, now, max, visibility, [])
    {
      SameLength();
      hide *;
      batch := [];
      var i := 0;
      while i < |messages|
        invariant Valid() && i <= |messages| == |model.entries|
        invariant Scan(model, i, now, max, visibility, batch) == Scan(old(model), 0, now, max, visibility, [])
      {
        ghost var before := model;
        ScanUnfolds(before, i, now, max, visibility, batch);
        var copy := TryReceive(i, visibility, now);
        if copy.Some? {
          batch := batch + [copy.value];
          if |batch| >= max {
            return;
          }
        }
        i := i + 1;
      }
      ScanUnfolds(model, i, now, max, visibility, batch);
    }

    lemma SameLength()
      requires Valid()
      ensures |messages| == |model.entries|
    {
    }

    /** One turn of the loop: receives message i if it may be handed out now. */
    method TryReceive(i: nat, visibility: int, now: int) returns (copy: Option<Message>)
      requires Valid() && i < |messages| == |model.entries|
      modifies this`timers, this`inFlightGroups, this`nextTimer, this`nextHandle, this`model, Created()
      ensures Valid() && |messages| == |model.entries|
      ensures if Deliverable(old(model), i, now)
              then model == Take(old(model), i, now, visibility) && copy == Some(model.entries[i].msg)
              else model == old(model) && copy == None
    {
      var mm := messages[i];
      assert Registered(register, mm);
      copy := None;
      if mm.visibleAt <= now && !(cfg.isFifo && mm.msg.groupId != "" && mm.msg.groupId in inFlightGroups) {
        var received := ReceiveMessage(mm, i, visibility, now);
        copy := Some(received);
      }
    }

    // ---------------------------------------------------------------- removal

    method RemoveFromMessageGroup(mm: MemoryMessage)
      requires Valid() && mm in messages
      modifies this`messageGroups, this`model
      ensures Valid() && model == old(model).(groups := WithoutKey(old(model).groups, mm.msg.groupId, mm.key))
    {
      var g := mm.msg.groupId;
      var group := if g in messageGroups then messageGroups[g] else [];
      var i := 0;
      while i < |group| && group[i] != mm
        invariant i <= |group| && forall j :: 0 <= j < i ==> group[j] != mm
      {
        i := i + 1;
      }
      GroupRemove(register, messageGroups, messages, timers, model.nextKey, g, mm, i);
      RemovalKeepsRegister(register, messageGroups, messages, timers, model.nextKey, g, i);
      var index := messageGroups;
      if i < |group| {
        group := group[..i] + group[i + 1..];
        index := index[g := group];
      }
      if |group| == 0 {
        index := index - {g};
      }
      assert index == WithoutAt(messageGroups, g, i);
      messageGroups := index;
      model := model.(groups := GroupKeys(messageGroups));
    }

    method RemoveFromList(mm: MemoryMessage, ghost at: nat)
      requires Valid() && at < |messages| && messages[at] == mm
      modifies this`messages, this`model
      ensures Valid()
      ensures model == old(model).(entries := old(model).entries[..at] + old(model).entries[at + 1..])
    {
      var i := 0;
      while messages[i] != mm
        invariant i <= at
        decreases at - i
      {
        i := i + 1;
      }
      Distinct(messages, at);
      messages := messages[..i] + messages[i + 1..];
      model := model.(entries := model.entries[..at] + model.entries[at + 1..]);
    }

    method RemoveMessage(mm: MemoryMessage, ghost at: nat)
      requires Valid() && at < |messages| && messages[at] == mm
      modifies this`messages, this`timers, this`inFlightGroups, this`messageGroups, this`model
      ensures Valid() && model == Remove(old(model), at)
    {
      StopTimerOf(mm);
      if cfg.isFifo && mm.msg.groupId != "" {
        LeaveFlight(mm.msg.groupId);
        RemoveFromMessageGroup(mm);
      }
      RemoveFromList(mm, at);
    }

    method LeaveFlight(g: string)
      requires Valid()
      modifies this`inFlightGroups, this`model
      ensures Valid() && model == old(model).(inFlight := old(model).inFlight - {g})
    {
      inFlightGroups := inFlightGroups - {g};
      model := model.(inFlight := inFlightGroups);
    }

    /** The position of the message a handle names, if any. */
    method Find(handle: Handle) returns (i: nat)
      requires Valid()
      ensures i == FindHandle(model.entries, handle) <= |messages|
      ensures i < |messages| ==> messages[i].receiptHandle == handle != NO_HANDLE
    {
      i := 0;
      while i < |messages| && !(messages[i].receiptHandle == handle && messages[i].receiptHandle != NO_HANDLE)
        invariant i <= |messages|
        invariant forall j :: 0 <= j < i ==> !(messages[j].receiptHandle == handle && messages[j].receiptHandle != NO_HANDLE)
      {
        i := i + 1;
      }
    }

    method DeleteMessage(handle: Handle) returns (ok: bool)
      requires Valid()
      modifies this`messages, this`timers, this`inFlightGroups, this`messageGroups, this`notify, this`model
      ensures Valid() && (model, ok) == Delete(old(model), handle)
      ensures !ok ==> messages == old(messages)
    {
      var i := Find(handle);
      ok := i < |messages|;
      if ok {
        RemoveMessage(messages[i], i);
        NotifyWaiters();
      }
    }

    // ---------------------------------------------------------------- visibility

    /** Blanks the handle of a message and frees its group. */
    method ReleaseMessage(mm: MemoryMessage, ghost i: nat)
      requires Valid() && i < |messages| && messages[i] == mm
      modifies mm, this`inFlightGroups, this`notify, this`model
      ensures Valid() && model == Release(old(model), i)
    {
      Distinct(messages, i);
      mm.MarkReleased();
      if cfg.isFifo && mm.msg.groupId != "" {
        inFlightGroups := inFlightGroups - {mm.msg.groupId};
      }
      notify := true;
      model := Release(model, i);
    }

    method SetVisibleAt(mm: MemoryMessage, ghost i: nat, at: int, timer: Option<nat>)
      requires Valid() && i < |messages| && messages[i] == mm
      modifies mm, this`model
      ensures Valid()
      ensures model == old(model).(entries := old(model).entries[i := old(model).entries[i].(visibleAt := at, timer := timer)])
      ensures mm.receiptHandle == old(mm.receiptHandle)
    {
      Distinct(messages, i);
      mm.visibleAt := at;
      mm.visibilityTimer := timer;
      model := model.(entries := model.entries[i := mm.Value()]);
    }

    method ChangeMessageVisibility(handle: Handle, timeout: int, now: int) returns (ok: bool)
      requires Valid()
      modifies this, messages
      ensures Valid() && (model, ok) == ChangeVisibility(old(model), now, handle, timeout)
    {
      var i := Find(handle);
      ok := i < |messages|;
      if ok {
        var mm := messages[i];
        if timeout == 0 {
          StopTimerOf(mm);
          SetVisibleAt(mm, i, now, mm.visibilityTimer);
          ReleaseMessage(mm, i);
        } else {
          ExtendVisibility(mm, i, now, timeout);
        }
      }
    }

    method ExtendVisibility(mm: MemoryMessage, ghost i: nat, now: int, timeout: int)
      requires Valid() && i < |messages| && messages[i] == mm
      modifies mm, this`timers, this`nextTimer, this`model
      ensures Valid() && model == Extend(old(model), i, now, timeout)
    {
      var held := mm.visibilityTimer;
      SetVisibleAt(mm, i, now + timeout * SECOND, Some(nextTimer));
      RestartTimer(held, mm, now + timeout * SECOND, false);
    }

    // ---------------------------------------------------------------- timers

    /** The runtime fires timer t: the callback armed by a receive, or the one armed by a visibility change. */
    method FireTimer(t: nat, now: int) returns (redriven: Option<Message>)
      requires Valid() && Inv(model) && t in timers && timers[t].deadline <= now
      modifies this, messages
      ensures Valid() && (model, redriven) == Fire(old(model), now, t)
    {
      ghost var i := HolderOf(t);
      var armed := timers[t];
      DisarmTimer(t);
      redriven := RunCallback(armed, i);
    }

    /** Where the message of an armed timer is stored. */
    lemma HolderOf(t: nat) returns (i: nat)
      requires Valid() && Inv(model) && t in timers
      ensures i == FindKey(model.entries, timers[t].mm.key) < |messages| && messages[i] == timers[t].mm
    {
      TimerFindsItsMessage(model, t);
      i := FindKey(model.entries, timers[t].mm.key);
      assert Registered(register, messages[i]) && Registered(register, timers[t].mm);
    }

    /** Both callbacks: nothing if the message has changed hands, redrive at the limit, otherwise visible again. */
    method RunCallback(armed: ArmedTimer, ghost i: nat) returns (redriven: Option<Message>)
      requires Valid() && i < |messages| && messages[i] == armed.mm
      modifies this, armed.mm
      ensures Valid() && (model, redriven) == Callback(old(model), i, TimerValue(armed))
    {
      var mm := armed.mm;
      redriven := None;
      if armed.checksClosed && closed {
        return;
      }
      if mm.receiptHandle != armed.handle {
        return;
      }
      if cfg.maxReceiveCount > 0 && mm.receiveCount >= cfg.maxReceiveCount && cfg.hasRedrive {
        RemoveMessage(mm, i);
        redriven := Some(PrepareForRedrive(mm.msg));
        NotifyWaiters();
      } else {
        ReleaseMessage(mm, i);
      }
    }

    method DisarmTimer(t: nat)
      requires Valid()
      modifies this`timers, this`model
      ensures Valid() && model == old(model).(armed := old(model).armed - {t})
    {
      timers := timers - {t};
      model := model.(armed := TimerValues(timers));
      assert TimerValues(timers) == old(model).armed - {t};
    }

    // ---------------------------------------------------------------- purge and close

    /** The timers that no stored message holds. */
    method UnheldTimers() returns (live: map<nat, ArmedTimer>)
      requires Valid()
      ensures TimerValues(live) == model.armed - AllTimers(model.entries)
      ensures forall t :: t in live ==> t in timers && live[t] == timers[t]
    {
      live := timers;
      for i := 0 to |messages|
        invariant forall t :: t in live <==> t in timers && !HeldBefore(model.entries, i, t)
        invariant forall t :: t in live ==> live[t] == timers[t]
      {
        live := StopTimer(live, messages[i].visibilityTimer);
        assert forall t: nat :: HeldBefore(model.entries, i + 1, t) <==>
                           HeldBefore(model.entries, i, t) || model.entries[i].timer == Some(t);
      }
      HeldIsAllTimers(model.entries);
    }

    method StopAllTimers()
      requires Valid()
      modifies this`timers, this`model
      ensures Valid() && model == old(model).(armed := old(model).armed - AllTimers(old(model).entries))
    {
      timers := UnheldTimers();
      model := model.(armed := TimerValues(timers));
    }

    method PurgeMessages()
      requires Valid()
      modifies this
      ensures Valid() && model == Purge(old(model))
    {
      StopAllTimers();
      messages := [];
      dedupCache, messageGroups, inFlightGroups, sequenceCounter := map[], map[], {}, 0;
      model := model.(entries := [], groups := map[], inFlight := {}, dedup := map[], sequence := 0);
      NotifyWaiters();
    }

    method CloseStore()
      requires Valid()
      modifies this
      ensures Valid() && model == Close(old(model))
    {
      closed := true;
      model := model.(closed := true);
      StopAllTimers();
    }

    // ---------------------------------------------------------------- counts

    method ApproximateNumberOfMessages(now: int) returns (count: nat)
      requires Valid()
      ensures count == VisibleCount(model, now)
    {
      count := 0;
      ghost var p := (e: Entry) => e.visibleAt <= now;
      for i := 0 to |messages|
        invariant count == CountIf(model.entries[..i], p)
      {
        assert model.entries[..i + 1][..i] == model.entries[..i];
        if messages[i].visibleAt <= now {
          count := count + 1;
        }
      }
      assert model.entries[..|messages|] == model.entries;
    }

    method ApproximateNumberOfMessagesNotVisible(now: int) returns (count: nat)
      requires Valid()
      ensures count == InFlightCount(model, now)
    {
      count := 0;
      ghost var p := (e: Entry) => e.visibleAt > now && e.handle != NO_HANDLE;
      for i := 0 to |messages|
        invariant count == CountIf(model.entries[..i], p)
      {
        assert model.entries[..i + 1][..i] == model.entries[..i];
        if messages[i].visibleAt > now && messages[i].receiptHandle != NO_HANDLE {
          count := count + 1;
        }
      }
      assert model.entries[..|messages|] == model.entries;
    }

    method ApproximateNumberOfMessagesDelayed(now: int) returns (count: nat)
      requires Valid()
      ensures count == DelayedCount(model, now)
    {
      count := 0;
      ghost var p := (e: Entry) => e.visibleAt > now && e.handle == NO_HANDLE;
      for i := 0 to |messages|
        invariant count == CountIf(model.entries[..i], p)
      {
        assert model.entries[..i + 1][..i] == model.entries[..i];
        if messages[i].visibleAt > now && messages[i].receiptHandle == NO_HANDLE {
          count := count + 1;
        }
      }
      assert model.entries[..|messages|] == model.entries;
    }
  }
}
