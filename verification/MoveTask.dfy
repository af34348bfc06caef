/** The background task that moves messages from one in-memory queue to another, as a program with a counter whose
    steps interleave with the steps of a cancellation, the clock, and anything that clients and timers do to both
    queues. */
module MoveTask {
  import opened StoreTypes
  import opened MemorySpec
  import opened MemoryInvariants
  import opened MemoryRuns
  import opened ReceivePass
  import Fates

  datatype Status = Running | Completed | Cancelling | Cancelled | Failed
  {
    predicate Terminal() { Completed? || Cancelled? || Failed? }
  }

  datatype Task = Task(status: Status, moved: nat, cancelled: bool, startedAt: int, completedAt: Option<int>)

  const BATCH_SIZE := 10
  const MOVE_VISIBILITY := 30

  function NewTask(now: int): Task {
    Task(Running, 0, false, now, None)
  }

  function SetStatus(t: Task, status: Status, now: int): Task {
    t.(status := status, completedAt := if status.Terminal() then Some(now) else t.completedAt)
  }

  /** CancelTask in one go and the count it returns; it has an effect only on a running task. */
  function Cancel(t: Task): (Task, nat) {
    (if t.status.Running? then t.(status := Cancelling, cancelled := true) else t, t.moved)
  }

  // ---------------------------------------------------------------- the program

  /** Where the move task is: before the first cancellation check, before the receive, before the check of the next
      message, before its send, before its delete, before the count. */
  datatype Pc = AtTop | AtReceive | AtCheck | AtSend | AtDelete | AtCount | AtEnd

  /** Where CancelTask is: not called, after it saw the status RUNNING, after it stored the status CANCELLING, after it
      closed the channel. The manager's lock lets one caller in at a time. */
  datatype Canceller = Idle | Checked | Marked | Signalled

  /** `sent` is the history of the messages that were sent without an error; `atSignal` is the count when the channel
      was closed, `returned` what the last CancelTask returned. */
  datatype System = System(now: int, source: State, dest: State, task: Task, canceller: Canceller, pc: Pc,
                           batch: seq<Message>, index: nat, sent: seq<Message>, atSignal: Option<nat>,
                           returned: Option<nat>)

  /** A client's or timer's action on a queue may be any action of its store. */
  datatype Event =
    | TaskStep
    | CancelRequest
    | CancelStep
    | SourceClient(action: Action)
    | DestClient(action: Action)
    | Elapse(d: nat)

  function Finish(y: System, status: Status): System {
    y.(task := SetStatus(y.task, status, y.now), pc := AtEnd)
  }

  function TaskAdvance(y: System): System {
    match y.pc
    case AtTop =>
      if y.task.cancelled then Finish(y, Cancelled) else y.(pc := AtReceive)
    case AtReceive =>
      var (s, r) := Receive(y.source, y.now, BATCH_SIZE, MOVE_VISIBILITY);
      if r.None? then Finish(y, Failed)
      else if r.value == [] then Finish(y.(source := s), Completed)
      else y.(source := s, batch := r.value, index := 0, pc := AtCheck)
    case AtCheck =>
      if y.index >= |y.batch| then y.(pc := AtTop)
      else if y.task.cancelled then Finish(y, Cancelled)
      else y.(pc := AtSend)
    case AtSend =>
      if y.index >= |y.batch| then y
      else
        var msg := PrepareForRedrive(y.batch[y.index]);
        var y1 := y.(batch := y.batch[y.index := msg]);
        var (d, r) := Send(y.dest, y.now, msg, 0);
        if r.SendClosed? then y1.(index := y.index + 1, pc := AtCheck)
        else y1.(dest := d, sent := y.sent + [msg], pc := AtDelete)
    case AtDelete =>
      if y.index >= |y.batch| then y
      else y.(source := Delete(y.source, y.batch[y.index].receiptHandle).0, pc := AtCount)
    case AtCount => y.(task := y.task.(moved := y.task.moved + 1), index := y.index + 1, pc := AtCheck)
    case AtEnd => y
  }

  /** CancelTask looks at the status, and returns at once if it is not RUNNING. */
  function CancelCheck(y: System): System {
    if !y.canceller.Idle? then y
    else if y.task.status.Running? then y.(canceller := Checked)
    else y.(returned := Some(y.task.moved))
  }

  /** What CancelTask does next. */
  function CancelAdvance(y: System): System {
    match y.canceller
    case Idle => y
    case Checked => y.(task := y.task.(status := Cancelling), canceller := Marked)
    case Marked => y.(task := y.task.(cancelled := true), atSignal := Some(y.task.moved), canceller := Signalled)
    case Signalled => y.(returned := Some(y.task.moved), canceller := Idle)
  }

  function Advance(y: System, e: Event): System {
    match e
    case TaskStep => TaskAdvance(y)
    case CancelRequest => CancelCheck(y)
    case CancelStep => CancelAdvance(y)
    case SourceClient(a) => y.(source := Step(World(y.now, y.source), a).store)
    case DestClient(a) => y.(dest := Step(World(y.now, y.dest), a).store)
    case Elapse(d) => y.(now := y.now + d)
  }

  function Begin(now: int, source: State, dest: State): System {
    System(now, source, dest, NewTask(now), Idle, AtTop, [], 0, [], None, None)
  }

  function Schedule(y: System, events: seq<Event>): System {
    if events == [] then y else Advance(Schedule(y, events[..|events| - 1]), events[|events| - 1])
  }

  // ---------------------------------------------------------------- control

  /** How many sends are not yet counted. */
  function Pending(pc: Pc): nat {
    if pc == AtDelete || pc == AtCount then 1 else 0
  }

  /** Status, counter and cancellation along the program. */
  ghost predicate Control(y: System) {
    && |y.sent| == y.task.moved + Pending(y.pc)
    && (y.task.completedAt.Some? <==> y.pc == AtEnd)
    && (y.task.status.Terminal() ==> y.pc == AtEnd)
    && (y.pc == AtEnd ==> y.task.status.Terminal() || y.task.status.Cancelling?)
    && (y.task.status.Running? ==> !y.task.cancelled && (y.canceller.Idle? || y.canceller.Checked?))
    && (y.canceller.Checked? || y.canceller.Marked? ==> !y.task.cancelled)
    && (y.canceller.Signalled? || (y.canceller.Idle? && y.task.status.Cancelling?) ==> y.task.cancelled)
    && (y.task.cancelled <==> y.atSignal.Some?)
    && (y.pc == AtSend || y.pc == AtDelete || y.pc == AtCount ==> y.index < |y.batch|)
    && (y.pc == AtDelete ==> y.batch[y.index].receiptHandle == NO_HANDLE)
    && (y.task.cancelled ==>
          && y.atSignal.value <= y.task.moved && |y.sent| <= y.atSignal.value + 1
          && (y.pc == AtSend ==> |y.sent| == y.atSignal.value))
    && (y.returned.Some? ==>
          || (y.task.cancelled && y.atSignal.value <= y.returned.value)
          || (y.pc == AtEnd && y.returned.value == |y.sent|))
  }

  lemma TaskControl(y: System)
    requires Control(y)
    ensures Control(TaskAdvance(y))
  {
    hide Receive, Send, Delete;
  }

  lemma CancelControl(y: System)
    requires Control(y)
    ensures Control(CancelCheck(y)) && Control(CancelAdvance(y))
  {
  }

  lemma AdvanceControl(y: System, e: Event)
    requires Control(y)
    ensures Control(Advance(y, e))
  {
    hide TaskAdvance, CancelCheck, CancelAdvance, Step;
    TaskControl(y);
    CancelControl(y);
  }

  lemma {:induction false} ScheduleControl(now: int, source: State, dest: State, events: seq<Event>)
    ensures Control(Schedule(Begin(now, source, dest), events))
  {
    if events != [] {
      ScheduleControl(now, source, dest, events[..|events| - 1]);
      AdvanceControl(Schedule(Begin(now, source, dest), events[..|events| - 1]), events[|events| - 1]);
    }
  }

  /** movedMessages counts exactly the sends that met no error, except for one that is still before its count; a task
      that has ended has counted all of them. */
  lemma MovedCountsSends(now: int, source: State, dest: State, events: seq<Event>)
    ensures var y := Schedule(Begin(now, source, dest), events);
            && y.task.moved <= |y.sent| <= y.task.moved + 1
            && (y.task.status.Terminal() ==> |y.sent| == y.task.moved)
  {
    ScheduleControl(now, source, dest, events);
  }

  /** Once the channel is closed at most one more message is sent, whatever the interleaving. */
  lemma AtMostOneAfterCancel(now: int, source: State, dest: State, before: seq<Event>, after: seq<Event>)
    requires Schedule(Begin(now, source, dest), before).canceller.Marked?
    ensures var y := Schedule(Begin(now, source, dest), before);
            var z := Schedule(Begin(now, source, dest), before + [CancelStep] + after);
            |z.sent| <= |y.sent| + 1 && z.task.moved <= y.task.moved + 1
  {
    ScheduleControl(now, source, dest, before + [CancelStep] + after);
    ScheduleControl(now, source, dest, before);
    SignalIsRemembered(now, source, dest, before, after);
  }

  /** What any CancelTask returns, whether it had an effect or not, is at most one below the count at any later time. */
  lemma ReturnedCountIsClose(now: int, source: State, dest: State, events: seq<Event>)
    ensures var y := Schedule(Begin(now, source, dest), events);
            y.returned.Some? ==> |y.sent| <= y.returned.value + 1 && y.task.moved <= y.returned.value + 1
  {
    ScheduleControl(now, source, dest, events);
  }

  lemma {:induction false} SignalIsRemembered(now: int, source: State, dest: State, before: seq<Event>, after: seq<Event>)
    requires Schedule(Begin(now, source, dest), before).canceller.Marked?
    ensures var y := Begin(now, source, dest);
            var z := Schedule(y, before + [CancelStep] + after);
            z.task.cancelled && z.atSignal == Some(Schedule(y, before).task.moved)
  {
    var y := Begin(now, source, dest);
    var all := before + [CancelStep] + after;
    if after == [] {
      ScheduleOneMore(y, before, CancelStep);
      assert all == before + [CancelStep];
    } else {
      var front, last := after[..|after| - 1], after[|after| - 1];
      SignalIsRemembered(now, source, dest, before, front);
      ScheduleControl(now, source, dest, before + [CancelStep] + front);
      ScheduleOneMore(y, before + [CancelStep] + front, last);
      assert all == before + [CancelStep] + front + [last];
    }
  }

  lemma ScheduleOneMore(y: System, events: seq<Event>, e: Event)
    ensures Schedule(y, events + [e]) == Advance(Schedule(y, events), e)
  {
    assert (events + [e])[..|events|] == events;
  }

  /** Undisturbed, the steps of CancelTask do what Cancel, and the manager object, do in one. */
  lemma CancelAlone(y: System)
    requires y.canceller.Idle?
    ensures var z := CancelAdvance(CancelAdvance(CancelAdvance(CancelCheck(y))));
            z.canceller.Idle? && (z.task, z.returned) == (Cancel(y.task).0, Some(Cancel(y.task).1))
  {
  }

  // ---------------------------------------------------------------- when a terminal status is final

  /** Once the move task has ended its count and its completion time stay, and so does its status unless a CancelTask is
      past its check and has not stored its own yet. */
  lemma {:induction false} EndedStays(now: int, source: State, dest: State, before: seq<Event>, after: seq<Event>)
    requires Schedule(Begin(now, source, dest), before).pc == AtEnd
    ensures var y := Schedule(Begin(now, source, dest), before);
            var z := Schedule(Begin(now, source, dest), before + after);
            && z.pc == AtEnd && z.task.moved == y.task.moved && z.task.completedAt == y.task.completedAt
            && (!y.canceller.Checked? ==> z.task.status == y.task.status && !z.canceller.Checked?)
  {
    var y := Begin(now, source, dest);
    var all := before + after;
    if after == [] {
      assert all == before;
    } else {
      var front, last := after[..|after| - 1], after[|after| - 1];
      assert all == before + front + [last];
      EndedStays(now, source, dest, before, front);
      ScheduleControl(now, source, dest, before);
      ScheduleControl(now, source, dest, before + front);
      ScheduleOneMore(y, before + front, last);
    }
  }

  /** A terminal status is final if and only if no CancelTask has seen the status RUNNING without having stored its own
      yet; the count and the completion time never change. */
  lemma TerminalIsFinal(now: int, source: State, dest: State, before: seq<Event>)
    requires Schedule(Begin(now, source, dest), before).task.status.Terminal()
    ensures var y := Schedule(Begin(now, source, dest), before);
            && (!y.canceller.Checked? <==>
                forall after :: Schedule(Begin(now, source, dest), before + after).task.status == y.task.status)
            && forall after ::
                 var z := Schedule(Begin(now, source, dest), before + after);
                 z.task.moved == y.task.moved && z.task.completedAt == y.task.completedAt
  {
    var y := Schedule(Begin(now, source, dest), before);
    ScheduleControl(now, source, dest, before);
    forall after
      ensures var z := Schedule(Begin(now, source, dest), before + after);
              && z.task.moved == y.task.moved && z.task.completedAt == y.task.completedAt
              && (!y.canceller.Checked? ==> z.task.status == y.task.status)
    {
      EndedStays(now, source, dest, before, after);
    }
    ScheduleOneMore(Begin(now, source, dest), before, CancelStep);
    assert y.canceller.Checked? ==>
        Schedule(Begin(now, source, dest), before + [CancelStep]).task.status != y.task.status;
  }

  /** The race is real: a cancellation that begins before the move task finds its source empty, and stores its status
      after the move task has completed, leaves the ended move task at CANCELLING. */
  lemma CompletionIsOverwritten(now: int, source: State, dest: State)
    requires Receive(source, now, BATCH_SIZE, MOVE_VISIBILITY).1 == Some([])
    ensures var y := Begin(now, source, dest);
            && Schedule(y, [CancelRequest, TaskStep, TaskStep]).task.status.Completed?
            && Schedule(y, [CancelRequest, TaskStep, TaskStep]).canceller.Checked?
            && var z := Schedule(y, [CancelRequest, TaskStep, TaskStep, CancelStep]);
               z.pc == AtEnd && z.task.status.Cancelling?
  {
    var y := Begin(now, source, dest);
    assert Schedule(y, []) == y;
    ScheduleOneMore(y, [], CancelRequest);
    ScheduleOneMore(y, [CancelRequest], TaskStep);
    ScheduleOneMore(y, [CancelRequest, TaskStep], TaskStep);
    ScheduleOneMore(y, [CancelRequest, TaskStep, TaskStep], CancelStep);
    assert [] + [CancelRequest] == [CancelRequest];
    assert [CancelRequest] + [TaskStep] == [CancelRequest, TaskStep];
    assert [CancelRequest, TaskStep] + [TaskStep] == [CancelRequest, TaskStep, TaskStep];
    assert [CancelRequest, TaskStep, TaskStep] + [CancelStep] == [CancelRequest, TaskStep, TaskStep, CancelStep];
  }

  /** It then stays there, and the cleanup never removes it. */
  lemma OverwrittenIsNeverStale(now: int, source: State, dest: State, before: seq<Event>, after: seq<Event>, later: int)
    requires var y := Schedule(Begin(now, source, dest), before); y.pc == AtEnd && y.task.status.Cancelling?
    ensures var z := Schedule(Begin(now, source, dest), before + after);
            z.task.status.Cancelling? && !Stale(z.task, later)
  {
    ScheduleControl(now, source, dest, before);
    NoCheckAtCancelling(now, source, dest, before);
    EndedStays(now, source, dest, before, after);
  }

  lemma {:induction false} NoCheckAtCancelling(now: int, source: State, dest: State, events: seq<Event>)
    ensures var y := Schedule(Begin(now, source, dest), events);
            y.task.status.Cancelling? ==> !y.canceller.Checked?
  {
    if events != [] {
      NoCheckAtCancelling(now, source, dest, events[..|events| - 1]);
    }
  }

  // ---------------------------------------------------------------- nothing is lost

  /** The store holds the message of entry e. */
  ghost predicate Holds(s: State, e: Entry) {
    exists e' :: e' in s.entries && e'.key == e.key && SameMessage(e'.msg, e.msg)
  }

  /** A stored message that does not exit in a step is still held afterwards. */
  lemma ActionKeeps(w: World, a: Action, e: Entry)
    requires Inv(w.store) && Holds(w.store, e) && e.key !in Fates.Exits(w, a)
    ensures Holds(Step(w, a).store, e)
  {
    var s, s' := w.store, Step(w, a).store;
    var x :| x in s.entries && x.key == e.key && SameMessage(x.msg, e.msg);
    Fates.StepKeys(w, a);
    StepEvolves(w, a);
    hide Inv, Step, Fates.Exits;
    assert x.key in Fates.Keys(s.entries);
    assert x.key in Fates.Keys(s'.entries);
    var y :| y in s'.entries && y.key == x.key;
    EvolvedFrom(w, a, x, y);
  }

  lemma EvolvedFrom(w: World, a: Action, x: Entry, y: Entry)
    requires Inv(w.store) && x in w.store.entries && y.key == x.key
    requires CameFrom(w.store, w.now, y) || NewlySent(w, a, y)
    ensures SameMessage(y.msg, x.msg)
  {
    KeyIsOld(w.store, x);
    var p :| p in w.store.entries && Evolves(w.now, p, y);
    SameKeySameEntry(w.store, p, x);
  }

  lemma KeyIsOld(s: State, e: Entry)
    requires Inv(s) && e in s.entries
    ensures e.key < s.nextKey
  {
    var i :| 0 <= i < |s.entries| && s.entries[i] == e;
  }

  /** What an event does to the source, as an action of its store; None when it leaves it alone. */
  function SourceAction(y: System, e: Event): Option<Action> {
    match e
    case TaskStep =>
      if y.pc == AtReceive then Some(DoReceive(BATCH_SIZE, MOVE_VISIBILITY))
      else if y.pc == AtDelete && y.index < |y.batch| then Some(DoDelete(y.batch[y.index].receiptHandle))
      else None
    case SourceClient(a) => Some(a)
    case _ => None
  }

  lemma SourceStep(y: System, e: Event)
    requires Control(y)
    ensures var a := SourceAction(y, e);
            && Advance(y, e).source == (if a.None? then y.source else Step(World(y.now, y.source), a.value).store)
            && (a.Some? ==> Advance(y, e).now == y.now)
            && Advance(y, e).now >= y.now
            && (e.TaskStep? && a.Some? ==> a.value == DoReceive(BATCH_SIZE, MOVE_VISIBILITY) || a.value == DoDelete(NO_HANDLE))
  {
  }

  /** The messages that this event takes from the source on a client's or timer's account: by a delete, a redrive or a
      purge. */
  ghost function TakenNow(y: System, e: Event): set<nat> {
    if e.SourceClient? then
      var exits := Fates.Exits(World(y.now, y.source), e.action);
      set k | k in exits && !exits[k].Expired?
    else {}
  }

  ghost function Taken(y: System, events: seq<Event>): set<nat> {
    if events == [] then {}
    else
      var before := events[..|events| - 1];
      Taken(y, before) + TakenNow(Schedule(y, before), events[|events| - 1])
  }

  /** What leaves the source in any event was taken by a client or a timer, or is too old. */
  lemma ExitsExplained(y: System, e: Event, k: nat)
    requires Control(y) && Inv(y.source)
    requires var a := SourceAction(y, e); a.Some? && k in Fates.Exits(World(y.now, y.source), a.value)
    ensures k in TakenNow(y, e) || k in Fates.TooOld(y.source, y.now)
  {
    SourceStep(y, e);
  }

  /** Message by message: gone if it was taken, else held unless it is too old. */
  ghost predicate SourceKept(start: State, y: System, taken: set<nat>) {
    && Inv(y.source) && y.source.cfg == start.cfg
    && forall e :: e in start.entries ==> Accounted(e, y.source, y.now, taken)
  }

  ghost predicate Accounted(e: Entry, s: State, now: int, taken: set<nat>) {
    && e.key < s.nextKey
    && (e.key in taken ==> e.key !in Fates.Keys(s.entries))
    && (e.key !in taken && e.msg.sentTimestamp >= s.cfg.Cutoff(now) ==> Holds(s, e))
  }

  lemma ActionAccounts(y: System, e: Event, taken: set<nat>, x: Entry)
    requires Control(y) && Inv(y.source) && Accounted(x, y.source, y.now, taken)
    ensures Accounted(x, Advance(y, e).source, Advance(y, e).now, taken + TakenNow(y, e))
  {
    SourceStep(y, e);
    var a := SourceAction(y, e);
    if a.Some? {
      var w := World(y.now, y.source);
      StepConfig(w, a.value);
      Fates.StepKeys(w, a.value);
      TakenExit(y, e);
      hide Inv, Control, Step, Advance, Fates.Exits, Fates.TooOld, TakenNow, Holds;
      if x.key in Fates.Exits(w, a.value) {
        ExitsExplained(y, e, x.key);
        TooOldIs(y.source, y.now, x);
      } else if Holds(y.source, x) {
        ActionKeeps(w, a.value, x);
      }
    }
  }

  lemma TakenExit(y: System, e: Event)
    ensures forall k :: k in TakenNow(y, e) ==> e.SourceClient? && k in Fates.Exits(World(y.now, y.source), e.action)
  {
  }

  lemma TooOldIs(s: State, now: int, x: Entry)
    requires Inv(s)
    ensures Holds(s, x) && x.key in Fates.TooOld(s, now) ==> x.msg.sentTimestamp < s.cfg.Cutoff(now)
  {
    forall d, e | d in s.entries && e in s.entries && d.key == e.key ensures d == e { SameKeySameEntry(s, d, e); }
  }

  lemma {:induction false} ScheduleKeeps(now: int, source: State, dest: State, events: seq<Event>)
    requires Inv(source)
    ensures SourceKept(source, Schedule(Begin(now, source, dest), events), Taken(Begin(now, source, dest), events))
  {
    if events == [] {
      forall e | e in source.entries ensures Accounted(e, source, now, {}) {
        KeyIsOld(source, e);
        assert SameMessage(e.msg, e.msg);
      }
    } else {
      var before, e := events[..|events| - 1], events[|events| - 1];
      var y := Schedule(Begin(now, source, dest), before);
      ScheduleKeeps(now, source, dest, before);
      ScheduleControl(now, source, dest, before);
      SourceInv(y, e);
      hide Inv, Control, Accounted, TakenNow;
      forall x | x in source.entries
        ensures Accounted(x, Advance(y, e).source, Advance(y, e).now,
                          Taken(Begin(now, source, dest), before) + TakenNow(y, e))
      {
        ActionAccounts(y, e, Taken(Begin(now, source, dest), before), x);
      }
    }
  }

  lemma SourceInv(y: System, e: Event)
    requires Control(y) && Inv(y.source)
    ensures Inv(Advance(y, e).source) && Advance(y, e).source.cfg == y.source.cfg
  {
    SourceStep(y, e);
    var a := SourceAction(y, e);
    if a.Some? {
      StepInv(World(y.now, y.source), a.value);
      StepConfig(World(y.now, y.source), a.value);
    }
  }

  /** At-least-once: at every program point, whatever clients and timers do to both queues and whatever sends or deletes
      fail, a message of the source that has not expired is still in the source if and only if no client or timer took
      it. The move task itself never takes one: PrepareForRedrive blanks the handle that its delete uses. */
  lemma NothingIsLost(now: int, source: State, dest: State, events: seq<Event>, e: Entry)
    requires Inv(source) && e in source.entries
    requires e.msg.sentTimestamp >= source.cfg.Cutoff(Schedule(Begin(now, source, dest), events).now)
    ensures var y := Schedule(Begin(now, source, dest), events);
            Holds(y.source, e) <==> e.key !in Taken(Begin(now, source, dest), events)
  {
    ScheduleKeeps(now, source, dest, events);
    assert Accounted(e, Schedule(Begin(now, source, dest), events).source,
                     Schedule(Begin(now, source, dest), events).now, Taken(Begin(now, source, dest), events));
  }

  lemma TaskActionKeeps(y: System, e: Entry)
    requires Control(y) && Inv(y.source) && e in y.source.entries && e.msg.sentTimestamp >= y.source.cfg.Cutoff(y.now)
    ensures Holds(y.source, e)
    ensures var a := SourceAction(y, TaskStep); a.Some? ==> Holds(Step(World(y.now, y.source), a.value).store, e)
  {
    assert Holds(y.source, e) by { assert SameMessage(e.msg, e.msg); }
    var a := SourceAction(y, TaskStep);
    hide Inv, Control, Holds, TaskAdvance, Advance, SourceAction, Step, Fates.Exits, Fates.TooOld;
    TakenExit(y, TaskStep);
    TooOldIs(y.source, y.now, e);
    if a.Some? {
      assert e.key !in Fates.Exits(World(y.now, y.source), a.value) by {
        if e.key in Fates.Exits(World(y.now, y.source), a.value) { ExitsExplained(y, TaskStep, e.key); }
      }
      ActionKeeps(World(y.now, y.source), a.value, e);
    }
  }

  /** No step of the move task removes a message that has not expired. */
  lemma TaskTakesNothing(now: int, source: State, dest: State, events: seq<Event>, e: Entry)
    requires Inv(source)
    requires var y := Schedule(Begin(now, source, dest), events);
             e in y.source.entries && e.msg.sentTimestamp >= y.source.cfg.Cutoff(y.now)
    ensures Holds(TaskAdvance(Schedule(Begin(now, source, dest), events)).source, e)
  {
    var y := Schedule(Begin(now, source, dest), events);
    ScheduleKeeps(now, source, dest, events);
    ScheduleControl(now, source, dest, events);
    SourceStep(y, TaskStep);
    assert TaskAdvance(y) == Advance(y, TaskStep);
    hide Inv, Control, Holds, TaskAdvance, Advance, SourceAction, Step, Accounted, Schedule;
    TaskActionKeeps(y, e);
  }

  /** The delete step of the move task never deletes. */
  lemma DeleteNeverDeletes(now: int, source: State, dest: State, events: seq<Event>)
    ensures var y := Schedule(Begin(now, source, dest), events);
            y.pc == AtDelete ==> TaskAdvance(y).source == y.source
  {
    ScheduleControl(now, source, dest, events);
  }

  // ---------------------------------------------------------------- what arrives

  /** The same message, up to what a store stamps on it. */
  predicate SameContent(m: Message, m': Message) {
    m.id == m'.id && m.body == m'.body && m.groupId == m'.groupId && m.dedupId == m'.dedupId
  }

  /** Sends to the destination that it accepted from others. */
  ghost function OthersSent(y: System, events: seq<Event>): nat {
    if events == [] then 0
    else
      var before, e := events[..|events| - 1], events[|events| - 1];
      var z := Schedule(y, before);
      OthersSent(y, before) + (if e.DestClient? && Accepts(World(z.now, z.dest), e.action) then 1 else 0)
  }

  lemma AdvanceCounts(y: System, e: Event)
    requires Control(y) && !y.dest.cfg.isFifo
    ensures !Advance(y, e).dest.cfg.isFifo
    ensures Advance(y, e).dest.nextKey - |Advance(y, e).sent|
            == y.dest.nextKey - |y.sent| + if e.DestClient? && Accepts(World(y.now, y.dest), e.action) then 1 else 0
  {
    if e.DestClient? { StepConfig(World(y.now, y.dest), e.action); }
  }

  /** Whatever others do to both queues, a standard destination has accepted exactly the move task's successful sends
      and the accepted sends of others. */
  lemma {:induction false} DestinationAccepts(now: int, source: State, dest: State, events: seq<Event>)
    requires !dest.cfg.isFifo
    ensures var y := Schedule(Begin(now, source, dest), events);
            && !y.dest.cfg.isFifo
            && y.dest.nextKey == dest.nextKey + |y.sent| + OthersSent(Begin(now, source, dest), events)
  {
    if events != [] {
      var before := events[..|events| - 1];
      DestinationAccepts(now, source, dest, before);
      ScheduleControl(now, source, dest, before);
      hide Advance;
      AdvanceCounts(Schedule(Begin(now, source, dest), before), events[|events| - 1]);
    }
  }

  /** Nobody else sends to the source, and the destination has no other users, except that it may be closed. */
  predicate Quiet(e: Event) {
    (e.SourceClient? ==> !e.action.DoSend?) && (e.DestClient? ==> e.action.DoClose?)
  }

  /** The destination is what it was plus one fresh message for each send, in order. */
  ghost predicate Delivered(start: State, y: System) {
    && y.dest.cfg == start.cfg && !start.cfg.isFifo
    && |y.dest.entries| == |start.entries| + |y.sent|
    && y.dest.entries[..|start.entries|] == start.entries
    && forall i :: 0 <= i < |y.sent| ==>
         var e := y.dest.entries[|start.entries| + i];
         SameContent(e.msg, y.sent[i]) && e.receiveCount == 0 && e.msg.receiveCount == 0 && e.handle == NO_HANDLE
  }

  lemma AdvanceDelivers(start: State, y: System, e: Event)
    requires Control(y) && Delivered(start, y) && Quiet(e)
    ensures Delivered(start, Advance(y, e))
  {
    var y' := Advance(y, e);
    if e.TaskStep? && y.pc == AtSend && !y.dest.closed {
      var n := y'.dest.entries[|y.dest.entries|];
      assert y'.dest.entries == y.dest.entries + [n];
      forall i | 0 <= i < |y'.sent|
        ensures var e := y'.dest.entries[|start.entries| + i];
                SameContent(e.msg, y'.sent[i]) && e.receiveCount == 0 && e.msg.receiveCount == 0 && e.handle == NO_HANDLE
      {
        if i < |y.sent| { assert y'.dest.entries[|start.entries| + i] == y.dest.entries[|start.entries| + i]; }
      }
    }
  }

  /** The source once held this message. */
  ghost predicate Original(start: State, m: Message) {
    exists e :: e in start.entries && SameContent(m, e.msg)
  }

  ghost predicate AllOriginal(start: State, ms: seq<Message>) {
    forall i :: 0 <= i < |ms| ==> Original(start, ms[i])
  }

  /** Nothing but messages of the source passes through the move task. */
  ghost predicate OnlyOriginals(start: State, y: System) {
    && (forall e :: e in y.source.entries ==> Original(start, e.msg))
    && AllOriginal(start, y.batch) && AllOriginal(start, y.sent)
  }

  lemma SourceEntriesOriginal(start: State, w: World, a: Action)
    requires Inv(w.store) && !a.DoSend? && forall e :: e in w.store.entries ==> Original(start, e.msg)
    ensures forall e' :: e' in Step(w, a).store.entries ==> Original(start, e'.msg)
  {
    StepEvolves(w, a);
    forall e' | e' in Step(w, a).store.entries ensures Original(start, e'.msg) {
      assert !NewlySent(w, a, e');
      var e :| e in w.store.entries && Evolves(w.now, e, e');
      var o :| o in start.entries && SameContent(e.msg, o.msg);
      assert SameContent(e'.msg, o.msg);
    }
  }

  /** A received batch consists of stored messages. */
  lemma BatchIsStored(s: State, now: int, max: int, visibility: int)
    requires !s.closed
    ensures var (s', r) := Receive(s, now, max, visibility);
            forall k :: 0 <= k < |r.value| ==> exists e :: e in s'.entries && e.msg == r.value[k]
  {
    FirstEligible(s, now, max, visibility);
    var (s', r) := Receive(s, now, max, visibility);
    var p := Picked(Expire(s, now), now, max);
    forall k | 0 <= k < |r.value| ensures exists e :: e in s'.entries && e.msg == r.value[k] {
      assert r.value[0 + k] == s'.entries[p[k]].msg;
      assert s'.entries[p[k]] in s'.entries;
    }
  }

  lemma BatchOriginal(start: State, y: System)
    requires Inv(y.source) && OnlyOriginals(start, y) && y.pc == AtReceive
    ensures AllOriginal(start, TaskAdvance(y).batch)
  {
    SourceEntriesOriginal(start, World(y.now, y.source), DoReceive(BATCH_SIZE, MOVE_VISIBILITY));
    if !y.source.closed { BatchIsStored(y.source, y.now, BATCH_SIZE, MOVE_VISIBILITY); }
  }

  lemma SendOriginal(start: State, y: System)
    requires AllOriginal(start, y.batch) && AllOriginal(start, y.sent) && y.pc == AtSend
    ensures AllOriginal(start, TaskAdvance(y).batch) && AllOriginal(start, TaskAdvance(y).sent)
  {
    if y.index < |y.batch| {
      var o :| o in start.entries && SameContent(y.batch[y.index], o.msg);
      assert SameContent(PrepareForRedrive(y.batch[y.index]), o.msg);
    }
  }

  lemma AdvanceOriginal(start: State, y: System, e: Event)
    requires Control(y) && Inv(y.source) && OnlyOriginals(start, y) && Quiet(e)
    ensures OnlyOriginals(start, Advance(y, e))
  {
    SourceStep(y, e);
    if SourceAction(y, e).Some? {
      SourceEntriesOriginal(start, World(y.now, y.source), SourceAction(y, e).value);
    }
    if e.TaskStep? && y.pc == AtReceive { BatchOriginal(start, y); }
    if e.TaskStep? && y.pc == AtSend { SendOriginal(start, y); }
  }

  /** When nobody else sends to the source or uses a standard destination, the destination grows by exactly the
      successful sends, in order, each a fresh copy of a source message: received zero times, without a handle. */
  lemma {:induction false} DestinationGrowsBySends(now: int, source: State, dest: State, events: seq<Event>)
    requires Inv(source) && !dest.cfg.isFifo && forall i :: 0 <= i < |events| ==> Quiet(events[i])
    ensures var y := Schedule(Begin(now, source, dest), events);
            Delivered(dest, y) && OnlyOriginals(source, y)
  {
    if events == [] {
      forall e | e in source.entries ensures Original(source, e.msg) {
        assert SameContent(e.msg, e.msg);
      }
    } else {
      var before := Schedule(Begin(now, source, dest), events[..|events| - 1]);
      DestinationGrowsBySends(now, source, dest, events[..|events| - 1]);
      ScheduleControl(now, source, dest, events[..|events| - 1]);
      ScheduleKeeps(now, source, dest, events[..|events| - 1]);
      AdvanceDelivers(dest, before, events[|events| - 1]);
      AdvanceOriginal(source, before, events[|events| - 1]);
    }
  }

  // ---------------------------------------------------------------- cleanup

  /** How long an ended task is kept: 24 hours. */
  const TASK_TTL := 86_400 * SECOND

  /** The time the cleanup measures from. */
  function Reference(t: Task): int {
    if t.completedAt.Some? then t.completedAt.value else t.startedAt
  }

  predicate Stale(t: Task, now: int) {
    t.status.Terminal() && now - Reference(t) > TASK_TTL
  }
}
