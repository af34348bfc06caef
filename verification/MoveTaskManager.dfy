/** Move tasks as objects: the move task's loop run alone, cancellation, and the cleanup of old tasks. */
module MoveTaskManagers {
  import opened StoreTypes
  import opened MemorySpec
  import opened MemoryStores
  import opened MoveTask
  import opened MoveDrain

  class MovingTask {
    var status: Status
    var movedMessages: nat
    var cancelled: bool
    var completedAt: Option<int>
    const startedAt: int

    function Value(): Task
      reads this
    {
      Task(status, movedMessages, cancelled, startedAt, completedAt)
    }

    constructor (now: int)
      ensures Value() == NewTask(now)
    {
      status, movedMessages, cancelled, completedAt, startedAt := Running, 0, false, None, now;
    }

    method SetTaskStatus(status: Status, now: int)
      modifies this`status, this`completedAt
      ensures Value() == SetStatus(old(Value()), status, now)
    {
      this.status := status;
      if status.Completed? || status.Cancelled? || status.Failed? {
        completedAt := Some(now);
      }
    }

    /** Adds one to the counter. */
    method Count()
      modifies this`movedMessages
      ensures movedMessages == old(movedMessages) + 1
    {
      movedMessages := movedMessages + 1;
    }
  }

  /** The two stores share no message. */
  ghost predicate Separate(a: MemoryStore, b: MemoryStore)
    reads a, b
  {
    a != b && forall j, k :: j in a.register && k in b.register ==> a.register[j] != b.register[k]
  }

  lemma SeparateMessages(a: MemoryStore, b: MemoryStore)
    requires a.Valid() && b.Valid() && Separate(a, b)
    ensures forall i, j :: 0 <= i < |a.messages| && 0 <= j < |b.messages| ==> a.messages[i] != b.messages[j]
  {
    forall i, j | 0 <= i < |a.messages| && 0 <= j < |b.messages| ensures a.messages[i] != b.messages[j] {
      assert Registered(a.register, a.messages[i]) && Registered(b.register, b.messages[j]);
    }
  }

  /** A batch from the source. */
  method NextBatch(source: MemoryStore, dest: MemoryStore, now: int) returns (batch: Option<seq<Message>>)
    requires source.Valid() && dest.Valid() && Separate(source, dest)
    modifies source`messages, source`timers, source`inFlightGroups, source`nextTimer, source`nextHandle, source`model,
             source.Created()
    ensures source.Valid() && dest.Valid() && Separate(source, dest) && dest.model == old(dest.model)
    ensures (source.model, batch) == Receive(old(source.model), now, BATCH_SIZE, MOVE_VISIBILITY)
  {
    SeparateMessages(source, dest);
    batch := source.ReceiveMessages(BATCH_SIZE, MOVE_VISIBILITY, now);
  }

  method SendToDest(source: MemoryStore, dest: MemoryStore, msg: Message, now: int) returns (sent: SendResult)
    requires source.Valid() && dest.Valid() && Separate(source, dest)
    modifies dest
    ensures source.Valid() && dest.Valid() && Separate(source, dest)
    ensures (dest.model, sent) == Send(old(dest.model), now, msg, 0)
  {
    sent := dest.SendMessage(msg, 0, now);
  }

  /** A delete with a blank handle finds nothing. */
  method DeleteBlank(source: MemoryStore, handle: Handle)
    requires source.Valid() && handle == NO_HANDLE
    modifies source`messages, source`timers, source`inFlightGroups, source`messageGroups, source`notify, source`model
    ensures source.Valid() && source.model == old(source.model) && source.messages == old(source.messages)
  {
    var deleted := source.DeleteMessage(handle);
    assert !deleted;
  }

  /** One message: prepared, sent, deleted from the source and counted. The prepared message has a blank handle, so the
      delete finds nothing. */
  method MoveOne(task: MovingTask, source: MemoryStore, dest: MemoryStore, message: Message, now: int)
    requires source.Valid() && dest.Valid() && Separate(source, dest)
    modifies task`movedMessages, dest
    modifies source`messages, source`timers, source`inFlightGroups, source`messageGroups, source`notify, source`model
    ensures source.Valid() && dest.Valid() && Separate(source, dest)
    ensures source.model == old(source.model) && source.messages == old(source.messages)
    ensures var (d, r) := Send(old(dest.model), now, PrepareForRedrive(message), 0);
            && dest.model == d
            && task.movedMessages == old(task.movedMessages) + if r.SendClosed? then 0 else 1
  {
    var msg := PrepareForRedrive(message);
    var sent := SendToDest(source, dest, msg, now);
    if sent.SendClosed? {
      return;
    }
    DeleteBlank(source, msg.receiptHandle);
    task.Count();
  }

  /** The inner loop, run alone: nobody can cancel the move task within a batch. */
  method CopyBatch(task: MovingTask, source: MemoryStore, dest: MemoryStore, batch: seq<Message>, now: int)
    requires source.Valid() && dest.Valid() && Separate(source, dest)
    modifies task`movedMessages, dest
    modifies source`messages, source`timers, source`inFlightGroups, source`messageGroups, source`notify, source`model
    ensures source.Valid() && dest.Valid() && Separate(source, dest)
    ensures source.model == old(source.model) && source.messages == old(source.messages)
    ensures (dest.model, task.movedMessages - old(task.movedMessages)) == CopyAll(old(dest.model), now, batch)
  {
    hide MemoryStore.Valid, Separate, Send;
    for i := 0 to |batch|
      invariant source.Valid() && dest.Valid() && Separate(source, dest)
      invariant source.model == old(source.model) && source.messages == old(source.messages)
      invariant (dest.model, task.movedMessages - old(task.movedMessages)) == CopyAll(old(dest.model), now, batch[..i])
    {
      assert batch[..i + 1][..i] == batch[..i];
      MoveOne(task, source, dest, batch[i], now);
    }
    assert batch[..|batch|] == batch;
  }

  /** The move task's loop, run alone under a frozen clock. It ends because every batch leaves fewer messages to
      deliver. */
  method RunTask(task: MovingTask, source: MemoryStore, dest: MemoryStore, now: int)
    requires source.Valid() && dest.Valid() && Separate(source, dest)
    modifies task, source, source.Created(), dest
    ensures source.Valid() && dest.Valid()
    ensures task.completedAt == Some(now)
    ensures if old(task.cancelled) then
              task.status == Cancelled && task.movedMessages == old(task.movedMessages)
              && source.model == old(source.model) && dest.model == old(dest.model)
            else
              (source.model, dest.model, task.status, task.movedMessages - old(task.movedMessages))
              == Drain(old(source.model), old(dest.model), now)
  {
    hide MemoryStore.Valid, Separate, Drain;
    if task.cancelled {
      task.SetTaskStatus(Cancelled, now);
      return;
    }
    RunLoop(task, source, dest, now, Drain(source.model, dest.model, now));
  }

  /** The loop itself; `end` is where it leads. */
  method RunLoop(task: MovingTask, source: MemoryStore, dest: MemoryStore, now: int, ghost end: (State, State, Status, nat))
    requires source.Valid() && dest.Valid() && Separate(source, dest)
    requires Remaining(source.model, dest.model, now, 0, end)
    modifies task, source, source.Created(), dest
    ensures source.Valid() && dest.Valid() && task.completedAt == Some(now)
    ensures (source.model, dest.model, task.status, task.movedMessages - old(task.movedMessages)) == end
  {
    hide *;
    ghost var start := task.movedMessages;
    var running := true;
    while running
      invariant source.Valid() && dest.Valid() && Separate(source, dest)
      invariant source.Created() == old(source.Created())
      invariant task.movedMessages >= start
      invariant running ==> Remaining(source.model, dest.model, now, task.movedMessages - start, end)
      invariant !running ==> task.completedAt == Some(now)
      invariant !running ==> (source.model, dest.model, task.status, task.movedMessages - start) == end
      decreases running, VisibleCount(source.model, now)
    {
      ghost var s, d, n := source.model, dest.model, task.movedMessages;
      running := MoveBatch(task, source, dest, now);
      TurnStep(s, d, now, n - start, end, source.model, dest.model, running, task.status, task.movedMessages - n);
    }
  }

  /** With n messages counted, what is left of the loop leads to `end`. */
  ghost predicate Remaining(s: State, d: State, now: int, n: nat, end: (State, State, Status, nat)) {
    Later(Drain(s, d, now), n) == end
  }

  /** One turn of the loop, said of its parts. */
  ghost predicate Turned(s: State, d: State, now: int, s': State, d': State, running: bool, status: Status, n: nat) {
    var t := Turn(s, d, now);
    s' == t.0 && d' == t.1 && n == t.3 && running == t.2.None? && (!running ==> Some(status) == t.2)
  }

  lemma TurnStep(s: State, d: State, now: int, n: nat, end: (State, State, Status, nat),
                 s': State, d': State, running: bool, status: Status, m: nat)
    requires Remaining(s, d, now, n, end) && Turned(s, d, now, s', d', running, status, m)
    ensures if running then Remaining(s', d', now, n + m, end) && VisibleCount(s', now) < VisibleCount(s, now)
            else (s', d', status, n + m) == end
  {
    if running { ReceiveShrinks(s, now); }
  }

  /** One turn of the move task's loop; false when the move task has ended. */
  method MoveBatch(task: MovingTask, source: MemoryStore, dest: MemoryStore, now: int) returns (running: bool)
    requires source.Valid() && dest.Valid() && Separate(source, dest)
    modifies task, source, source.Created(), dest
    ensures source.Valid() && dest.Valid() && Separate(source, dest) && source.Created() == old(source.Created())
    ensures task.movedMessages >= old(task.movedMessages) && (!running ==> task.completedAt == Some(now))
    ensures Turned(old(source.model), old(dest.model), now, source.model, dest.model, running, task.status,
                   task.movedMessages - old(task.movedMessages))
  {
    hide MemoryStore.Valid, Separate, Scan;
    var batch := NextBatch(source, dest, now);
    running := batch.Some? && |batch.value| != 0;
    if running {
      CopyBatch(task, source, dest, batch.value, now);
    } else {
      task.SetTaskStatus(if batch.None? then Failed else Completed, now);
    }
  }

  class MoveTaskManager {
    var tasks: map<string, MovingTask>

    constructor ()
      ensures tasks == map[]
    {
      tasks := map[];
    }

    /** CancelTask; None when there is no such task. */
    method CancelTask(handle: string) returns (moved: Option<nat>)
      modifies if handle in tasks then {tasks[handle]} else {}
      ensures if handle in tasks
              then moved.Some? && (tasks[handle].Value(), moved.value) == Cancel(old(tasks[handle].Value()))
              else moved.None?
    {
      if handle !in tasks {
        return None;
      }
      var task := tasks[handle];
      if task.status != Running {
        return Some(task.movedMessages);
      }
      task.status := Cancelling;
      task.cancelled := true;
      moved := Some(task.movedMessages);
    }

    /** Drops exactly the tasks that ended more than the retention time ago. */
    method RemoveStaleTasks(now: int)
      modifies this`tasks
      ensures tasks == map h | h in old(tasks) && !Stale(old(tasks)[h].Value(), now) :: old(tasks)[h]
    {
      var todo := tasks.Keys;
      while todo != {}
        invariant todo <= tasks.Keys <= old(tasks).Keys
        invariant forall h :: h in tasks ==> tasks[h] == old(tasks)[h]
        invariant forall h :: h in old(tasks) && h !in todo ==> (h in tasks <==> !Stale(old(tasks)[h].Value(), now))
        decreases |todo|
      {
        var handle :| handle in todo;
        todo := todo - {handle};
        var task := tasks[handle];
        if task.status.Running? || task.status.Cancelling? {
          continue;
        }
        var reference := if task.completedAt.Some? then task.completedAt.value else task.startedAt;
        if now - reference > TASK_TTL {
          tasks := tasks - {handle};
        }
      }
    }
  }
}
