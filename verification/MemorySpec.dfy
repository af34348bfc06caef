/** The in-memory store as a pure state machine: one function per critical section.
    The class in MemoryStore.dfy is proved to compute exactly these functions. */
module MemorySpec {
  import opened StoreTypes

  /** A message as the store keeps it. `key` is its arrival number, the stand-in for object identity;
      `timer` names the runtime timer stored with the message. */
  datatype Entry = Entry(
    key: nat,
    msg: Message,
    visibleAt: int,
    handle: Handle,
    receiveCount: nat,
    firstReceived: Option<int>,
    timer: Option<nat>)

  /** An armed runtime timer and what its callback captured.
      Only the callback armed by a receive checks for a closed store. */
  datatype Timer = Timer(key: nat, handle: Handle, deadline: int, checksClosed: bool)

  datatype State = State(
    cfg: Config,
    entries: seq<Entry>,
    groups: map<string, seq<nat>>,
    inFlight: set<string>,
    dedup: map<string, int>,
    sequence: nat,
    notify: bool,
    closed: bool,
    armed: map<nat, Timer>,
    nextKey: nat,
    nextHandle: nat,
    nextTimer: nat)

  function Init(cfg: Config): State {
    State(cfg, [], map[], {}, map[], 0, false, false, map[], 0, 1, 0)
  }

  predicate Grouped(cfg: Config, msg: Message) {
    cfg.isFifo && msg.groupId != ""
  }

  /** The runtime's timers after Stop on the timer a message holds. */
  function Stopped(armed: map<nat, Timer>, timer: Option<nat>): map<nat, Timer> {
    if timer.Some? then armed - {timer.value} else armed
  }

  // ---------------------------------------------------------------- lookups

  /** Position of the entry that carries handle h; |es| when there is none or h is empty. */
  function FindHandle(es: seq<Entry>, h: Handle): (i: nat)
    ensures i <= |es|
    ensures i < |es| ==> es[i].handle == h && h != NO_HANDLE
    ensures forall j :: 0 <= j < i ==> !(es[j].handle == h && h != NO_HANDLE)
  {
    if es == [] then 0
    else if es[0].handle == h && h != NO_HANDLE then 0
    else 1 + FindHandle(es[1..], h)
  }

  /** Position of the entry with the given key; |es| when there is none. */
  function FindKey(es: seq<Entry>, k: nat): (i: nat)
    ensures i <= |es|
    ensures i < |es| ==> es[i].key == k
    ensures forall j :: 0 <= j < i ==> es[j].key != k
  {
    if es == [] then 0
    else if es[0].key == k then 0
    else 1 + FindKey(es[1..], k)
  }

  function RemoveFirst<T(==)>(s: seq<T>, x: T): seq<T> {
    if s == [] then []
    else if s[0] == x then s[1..]
    else [s[0]] + RemoveFirst(s[1..], x)
  }

  // ---------------------------------------------------------------- retention

  /** Entries sent before the cutoff are dropped. */
  function Kept(es: seq<Entry>, cutoff: int): seq<Entry> {
    if es == [] then []
    else
      var e := es[|es| - 1];
      Kept(es[..|es| - 1], cutoff) + (if e.msg.sentTimestamp < cutoff then [] else [e])
  }

  /** The timers stopped when those entries are dropped. */
  function DroppedTimers(es: seq<Entry>, cutoff: int): set<nat> {
    if es == [] then {}
    else
      var e := es[|es| - 1];
      DroppedTimers(es[..|es| - 1], cutoff)
      + (if e.msg.sentTimestamp < cutoff && e.timer.Some? then {e.timer.value} else {})
  }

  function Expire(s: State, now: int): State {
    var cutoff := s.cfg.Cutoff(now);
    s.(entries := Kept(s.entries, cutoff), armed := s.armed - DroppedTimers(s.entries, cutoff))
  }

  // ---------------------------------------------------------------- send

  datatype SendResult = SendClosed | SendDuplicate | SendAccepted(msg: Message)

  function CleanDedup(dedup: map<string, int>, now: int): map<string, int> {
    map id | id in dedup && now <= dedup[id] :: dedup[id]
  }

  function Enqueue(s: State, now: int, msg: Message, delay: int): (State, Message) {
    var m := msg.(sentTimestamp := now, isVisible := delay == 0);
    var e := Entry(s.nextKey, m, now + Max0(delay) * SECOND, NO_HANDLE, 0, None, None);
    var groups :=
      if Grouped(s.cfg, m)
      then s.groups[m.groupId := (if m.groupId in s.groups then s.groups[m.groupId] else []) + [s.nextKey]]
      else s.groups;
    (s.(entries := s.entries + [e], groups := groups, nextKey := s.nextKey + 1,
        notify := s.notify || delay == 0), m)
  }

  function Send(s: State, now: int, msg: Message, delay: int): (State, SendResult) {
    if s.closed then (s, SendClosed)
    else if !s.cfg.isFifo then
      var (s1, m) := Enqueue(s, now, msg, delay);
      (s1, SendAccepted(m))
    else
      var cleaned := CleanDedup(s.dedup, now);
      var id := EffectiveDedupId(s.cfg, msg);
      if id != "" && id in cleaned then (s.(dedup := cleaned), SendDuplicate)
      else
        var dedup := if id != "" then cleaned[id := now + DEDUP_WINDOW] else cleaned;
        var (s1, m) := Enqueue(s.(dedup := dedup, sequence := s.sequence + 1), now,
                               msg.(sequenceNumber := s.sequence + 1), delay);
        (s1, SendAccepted(m))
  }

  // ---------------------------------------------------------------- receive

  /** May entry i be handed out now? */
  predicate Deliverable(s: State, i: nat, now: int)
    requires i < |s.entries|
  {
    var e := s.entries[i];
    e.visibleAt <= now && !(Grouped(s.cfg, e.msg) && e.msg.groupId in s.inFlight)
  }

  /** The entry after it was handed out under handle h with timer t. */
  function Received(e: Entry, now: int, visibility: int, h: Handle, t: nat): Entry {
    var first := if e.firstReceived.None? then now else e.firstReceived.value;
    e.(receiveCount := e.receiveCount + 1,
       firstReceived := Some(first),
       visibleAt := now + visibility * SECOND,
       handle := h,
       timer := Some(t),
       msg := e.msg.(isVisible := false, receiptHandle := h, receiveCount := e.receiveCount + 1,
                     receivedTimestamp := now, firstReceived := first))
  }

  /** Hands out entry i: new handle, new timer, group marked in flight. */
  function Take(s: State, i: nat, now: int, visibility: int): State
    requires i < |s.entries|
  {
    var e := s.entries[i];
    s.(entries := s.entries[i := Received(e, now, visibility, s.nextHandle, s.nextTimer)],
       inFlight := if Grouped(s.cfg, e.msg) then s.inFlight + {e.msg.groupId} else s.inFlight,
       armed := Stopped(s.armed, e.timer)[s.nextTimer := Timer(e.key, s.nextHandle, now + visibility * SECOND, true)],
       nextHandle := s.nextHandle + 1,
       nextTimer := s.nextTimer + 1)
  }

  /** The receive loop from entry i on, with `acc` already collected. */
  function Scan(s: State, i: nat, now: int, max: int, visibility: int, acc: seq<Message>): (State, seq<Message>)
    requires i <= |s.entries|
    decreases |s.entries| - i
  {
    if i == |s.entries| then (s, acc)
    else if !Deliverable(s, i, now) then Scan(s, i + 1, now, max, visibility, acc)
    else
      var s1 := Take(s, i, now, visibility);
      var acc1 := acc + [s1.entries[i].msg];
      if |acc1| >= max then (s1, acc1) else Scan(s1, i + 1, now, max, visibility, acc1)
  }

  /** One pass of ReceiveMessages under the lock; None when the store is closed. */
  function Receive(s: State, now: int, max: int, requested: int): (State, Option<seq<Message>>) {
    if s.closed then (s, None)
    else
      var (s1, ms) := Scan(Expire(s, now), 0, now, max, s.cfg.EffectiveVisibility(requested), []);
      (s1, Some(ms))
  }

  // ---------------------------------------------------------------- removal and visibility

  /** removeMessage on entry i. */
  function Remove(s: State, i: nat): State
    requires i < |s.entries|
  {
    var e := s.entries[i];
    var g := e.msg.groupId;
    var rest := RemoveFirst(if g in s.groups then s.groups[g] else [], e.key);
    s.(entries := s.entries[..i] + s.entries[i + 1..],
       armed := Stopped(s.armed, e.timer),
       inFlight := if Grouped(s.cfg, e.msg) then s.inFlight - {g} else s.inFlight,
       groups := if !Grouped(s.cfg, e.msg) then s.groups
                 else if rest == [] then s.groups - {g}
                 else s.groups[g := rest])
  }

  /** Blanks the handle of entry i and frees its group. */
  function Release(s: State, i: nat): State
    requires i < |s.entries|
  {
    var e := s.entries[i];
    s.(entries := s.entries[i := e.(handle := NO_HANDLE, timer := None, msg := e.msg.(isVisible := true))],
       inFlight := if Grouped(s.cfg, e.msg) then s.inFlight - {e.msg.groupId} else s.inFlight,
       notify := true)
  }

  /** DeleteMessage; false when the handle is invalid. */
  function Delete(s: State, h: Handle): (State, bool) {
    var i := FindHandle(s.entries, h);
    if i == |s.entries| then (s, false)
    else (Remove(s, i).(notify := true), true)
  }

  /** Moves entry i's visibility to now + timeout under its present handle. */
  function Extend(s: State, i: nat, now: int, timeout: int): State
    requires i < |s.entries|
  {
    var e := s.entries[i];
    var at := now + timeout * SECOND;
    s.(entries := s.entries[i := e.(visibleAt := at, timer := Some(s.nextTimer))],
       armed := Stopped(s.armed, e.timer)[s.nextTimer := Timer(e.key, e.handle, at, false)],
       nextTimer := s.nextTimer + 1)
  }

  /** The visibility reset: visible now, handle blanked, group freed. */
  function ResetVisibility(s: State, i: nat, now: int): State
    requires i < |s.entries|
  {
    var e := s.entries[i];
    Release(s.(armed := Stopped(s.armed, e.timer), entries := s.entries[i := e.(visibleAt := now)]), i)
  }

  /** ChangeMessageVisibility; false when the handle is invalid. */
  function ChangeVisibility(s: State, now: int, h: Handle, timeout: int): (State, bool) {
    var i := FindHandle(s.entries, h);
    if i == |s.entries| then (s, false)
    else if timeout == 0 then (ResetVisibility(s, i, now), true)
    else (Extend(s, i, now, timeout), true)
  }

  function AllTimers(es: seq<Entry>): set<nat> {
    set e | e in es && e.timer.Some? :: e.timer.value
  }

  function Purge(s: State): State {
    s.(entries := [], groups := map[], inFlight := {}, dedup := map[], sequence := 0, notify := true,
       armed := s.armed - AllTimers(s.entries))
  }

  function Close(s: State): State {
    s.(closed := true, armed := s.armed - AllTimers(s.entries))
  }

  // ---------------------------------------------------------------- timers

  /** What the callback that captured `timer` does to entry i. The second result is the message handed to the
      redrive callback. */
  function Callback(s: State, i: nat, timer: Timer): (State, Option<Message>)
    requires i < |s.entries|
  {
    if timer.checksClosed && s.closed then (s, None)
    else if s.entries[i].handle != timer.handle then (s, None)
    else if s.cfg.RedriveDue(s.entries[i].receiveCount) then
      (Remove(s, i).(notify := true), Some(PrepareForRedrive(s.entries[i].msg)))
    else (Release(s, i), None)
  }

  /** Timer t goes off, if it is armed and due. */
  function Fire(s: State, now: int, t: nat): (State, Option<Message>) {
    if !(t in s.armed && s.armed[t].deadline <= now) then (s, None)
    else
      var s1 := s.(armed := s.armed - {t});
      var i := FindKey(s.entries, s.armed[t].key);
      if i == |s.entries| then (s1, None) else Callback(s1, i, s.armed[t])
  }

  // ---------------------------------------------------------------- counts

  function CountIf(es: seq<Entry>, p: Entry -> bool): nat {
    if es == [] then 0
    else CountIf(es[..|es| - 1], p) + (if p(es[|es| - 1]) then 1 else 0)
  }

  function VisibleCount(s: State, now: int): nat {
    CountIf(s.entries, (e: Entry) => e.visibleAt <= now)
  }

  function InFlightCount(s: State, now: int): nat {
    CountIf(s.entries, (e: Entry) => e.visibleAt > now && e.handle != NO_HANDLE)
  }

  function DelayedCount(s: State, now: int): nat {
    CountIf(s.entries, (e: Entry) => e.visibleAt > now && e.handle == NO_HANDLE)
  }
}
