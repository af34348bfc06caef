# Verified model of the queue server

OpenSQS is a message queue server that speaks the SQS protocol. This project models its core in Dafny and proves what
the code keeps, over whole runs. The files follow the source:

- **The in-memory store.** `MemorySpec` has one function per critical section of `MemoryStore`; `MemoryStore` (the class)
  updates objects in place as the Go code does and is proved to compute exactly those functions. `MemoryInvariants` shows
  what each of them keeps, `ReceivePass` says what one receive hands out without mentioning its loop, and `MemoryRuns`,
  `FifoOrder`, `Overtaking`, `Fates`, `Receipts`, `Visibility`, `Deduplication`, `GroupIndex`, `Stranding` and `LongPoll`
  prove history properties of arbitrary runs of sends, receives, deletes, visibility changes, purges, timer callbacks,
  clock ticks and a close.
- **The SQLite store.** `SqliteSpec` and `SqliteStore` model a standard queue without redrive, each SQL statement as an
  update of a table. `Simulation`, `SimulationReceive` and `SimulationRuns` prove exactly when the timer-driven store and
  the lazy store give the same replies and counts.
- **Redrive and move tasks.** `QueueManager` and `Redrive` hand messages to a dead-letter queue. `MoveTask` is the
  background task as a program counter whose steps interleave with everything else; `MoveDrain` and `MoveTaskManager` run
  it alone, with termination, and `MoveSqlite` gives it a SQLite source.
- **Smaller algorithms.** `SigV4` (canonical query string and path), `QueryProtocol` (batch entries of a form),
  `BatchSend` (a batch against single sends), `CiTargets` (query scope and skip rules). `Text` and `Ordering` hold what
  they share.

How the model reads the code: a critical section is one atomic step with one clock reading, and the clock never goes
back. Times are whole nanoseconds, in the table whole milliseconds. Receipt handles are fresh tokens with 0 for the empty
string, since they contain a random nonce. A runtime timer is a record of what its callback captured and when it is due;
it may go off at any time from then on, `Stop` disarms it, and a callback that has started holds the lock. SHA-256 of a
body is taken as free of collisions. Each stored message has an arrival number, `key`, which stands for the identity of
the Go object. `FireTimer` and its kind ask for the invariant `Inv`, which `MemoryRuns.RunInv` proves of every reachable
state. Strings are valid UTF-8, so that the order of bytes is the order of code points, except in `SigV4`, where a string
is any sequence of bytes and is decoded as Go's range loop does. A `hide` statement in a proof only withholds definitions
from the verifier.

## What the proofs bring to light

These are properties of the code that a reader, or the documentation, may not expect:

- The move task never empties its source when that is an in-memory queue: `PrepareForRedrive` blanks the receipt handle
  that the later `DeleteMessage` is given (pkgs/v1/queue/dlq/move_task.go:357-366). Every moved message stays in the
  source and is counted as moved; `docs/api-reference.md` describes the move task as moving messages.
- If the source is a SQLite queue, the same blank handle makes the first delete remove every row without a handle, so the
  move task loses what it has not received yet (`MoveSqlite.BatchLoses`).
- If retention drops a FIFO message that is in flight, and only then, its group stays marked, and no message of the group
  is delivered again until a purge (`Stranding.RunStrandedIff`, `Stranding.StrandedForever`).
- FIFO order can be broken exactly when an earlier message of a group is still delayed while a later one is visible
  (`Overtaking.OvertakingIffDisordered`); it is strict as long as sends become visible in order, for one delay in
  particular. `docs/api-reference.md:227` promises it without that condition.
- `CancelTask` looks at the status and stores its own in two steps: a completion in between is overwritten, and the move
  task is listed as CANCELLING for ever (`MoveTask.CompletionIsOverwritten`).
- A message is redriven when its receive count reaches `maxReceiveCount`; `docs/queue-library.md:247` says when it exceeds
  it. A reset of the visibility does not look at the limit at all.
- A send with a negative delay is visible at once but wakes nobody. The handlers refuse such delays.
- A closed in-memory store still accepts deletes, visibility changes and purges; the SQLite store refuses them.
- Closing a store stops its timers; `docs/architecture.md:184` says that timers go on after a shutdown.
- In the SQLite store a delete with an empty handle removes all rows that were never received, and a handle that ran out
  stays valid until the message is received again. The in-memory store rejects both.
- The SQLite store never records the first receive: it compares with the zero time what was read as the Unix epoch.
- It keeps whole milliseconds, so a message becomes visible there up to a millisecond earlier, and is kept there up to a
  millisecond longer, than in memory; the conditions in `SimulationReceive.ReceiveSimulates` and
  `SimulationRuns.CountsAgree` are exact.
- Query values and paths that are no UTF-8 have the same canonical form whatever their bytes are: each stray byte counts
  as U+FFFD.
- A receive with a limit of 0 returns one message from memory and none from SQLite.

## Model

| member | source | states |
|---|---|---|
| `MemoryInvariants.SendInv` | pkgs/v1/queue/store/memory/memory.go:86-147 | A send keeps the store invariant: unique increasing keys and FIFO numbers, one timer per in-flight message with its handle and deadline, distinct handles, one in flight per group, an index that misses no stored message |
| `MemoryInvariants.ExpireInv` | pkgs/v1/queue/store/memory/memory.go:65-83 | Dropping old messages keeps the invariant although groups and in-flight marks are not touched |
| `MemoryInvariants.TakeInv` | pkgs/v1/queue/store/memory/memory.go:223-287 | Handing out one deliverable message keeps the invariant |
| `MemoryInvariants.ReceiveInv` | pkgs/v1/queue/store/memory/memory.go:150-221 | A whole receive pass keeps the invariant, closed or open |
| `MemoryInvariants.DeleteInv` | pkgs/v1/queue/store/memory/memory.go:290-303 | A delete keeps the invariant whether or not the handle is valid |
| `MemoryInvariants.RemoveInv` | pkgs/v1/queue/store/memory/memory.go:513-544 | Taking an in-flight message out of the list, its group and the in-flight marks keeps the invariant |
| `MemoryInvariants.ChangeVisibilityInv` | pkgs/v1/queue/store/memory/memory.go:306-362 | Extending or resetting a visibility keeps the invariant |
| `MemoryInvariants.PurgeInv` | pkgs/v1/queue/store/memory/memory.go:410-427 | A purge keeps the invariant and leaves no timer armed without a message |
| `MemoryInvariants.CloseInv` | pkgs/v1/queue/store/memory/memory.go:430-442 | Closing keeps the invariant and leaves no timer armed |
| `MemoryInvariants.FireInv` | pkgs/v1/queue/store/memory/memory.go:241-277 | Either timer callback keeps the invariant, whether it redrives, releases or does nothing |
| `MemoryInvariants.TimerFindsItsMessage` | pkgs/v1/queue/store/memory/memory.go:239-256 | An armed timer always finds its message stored, still under the handle it captured and with its deadline as the visibility time |
| `ReceivePass.FirstEligible` | pkgs/v1/queue/store/memory/memory.go:160-196 | A pass returns exactly the first max (at least one) of the unexpired visible messages that, in FIFO, come first in a group not in flight; each under its own fresh handle and timer, in store order; all other kept messages are unchanged |
| `ReceivePass.EligibleFromExact` | pkgs/v1/queue/store/memory/memory.go:175-191 | The positions FirstEligible speaks of are exactly the eligible ones, each once, in store order |
| `MemoryRuns.RunInv` | pkgs/v1/queue/store/memory/memory.go:86-442 | Every state reachable by sends, receives, deletes, visibility changes, purges, close, timer callbacks and clock ticks meets the invariants |
| `MemoryRuns.StepEvolves` | pkgs/v1/queue/store/memory/memory.go:86-442 | After any step each stored message is the one just accepted or an old one with the same content, unchanged, received once more, moved to another deadline, or released with a visibility that has come |
| `MemoryRuns.ExactlyOneTimer` | pkgs/v1/queue/store/memory/memory.go:223-287 | In every reachable open state an in-flight message has exactly one armed timer, with its current handle and deadline; a blank handle has none; every armed timer belongs to a stored message |
| `MemoryRuns.HandlesAreDistinct` | pkgs/v1/queue/store/memory/memory.go:223-234 | In every reachable state handles in use are pairwise distinct, and a blank handle with a future visibility means the message was never received |
| `MemoryRuns.OneInFlightPerGroup` | pkgs/v1/queue/store/memory/memory.go:180-190 | In every reachable FIFO state at most one message of a group holds a handle, and its group is marked in flight |
| `FifoOrder.SequenceNumbersIncrease` | pkgs/v1/queue/store/memory/memory.go:117-119 | In every reachable FIFO state sequence numbers are positive and strictly increase along the list |
| `FifoOrder.DeliveredInOrder` | pkgs/v1/queue/store/memory/memory.go:168-196 | When a receive picks a message, each message of its group accepted earlier has left the store or still waits, never received, for its send delay |
| `FifoOrder.StrictFifoOrder` | pkgs/v1/queue/store/memory/memory.go:168-196 | As long as each send becomes visible no earlier than every never-received message of its group, whatever the delays, a message is handed out only after every earlier message of its group has left the store |
| `FifoOrder.SameDelayIsInOrder` | pkgs/v1/queue/store/memory/memory.go:121-124 | Runs whose sends all have the same delay, none in particular, meet that condition |
| `Overtaking.OvertakingIffDisordered` | pkgs/v1/queue/store/memory/memory.go:168-196 | In any reachable state: a message of a free group can be overtaken, by some sequence of calls and callbacks without further sends, if and only if an earlier never-received message is still delayed when a later one is visible and retention has dropped neither |
| `FifoOrder.DelayedMessageIsOvertaken` | pkgs/v1/queue/store/memory/memory.go:121-124 | The smallest case of such disorder: the second message of a group is received before the delayed first one |
| `FifoOrder.RunLogged` | pkgs/v1/queue/store/memory/memory.go:126-140 | Every stored message is, up to what receives stamp, the accepted message whose arrival number it carries |
| `Fates.StoredOrDeparted` | pkgs/v1/queue/store/memory/memory.go:86-442 | Conservation: over any run the accepted messages are exactly the stored and the departed ones, and none is both |
| `Fates.FateIsFinal` | pkgs/v1/queue/store/memory/memory.go:529-544 | A departed message keeps its one fate and never comes back, so it is deleted, redriven, expired or purged at most once |
| `Fates.RedriveOnlyAtLimit` | pkgs/v1/queue/store/memory/memory.go:244-266 | A message is redriven only with a callback configured and a receive count at or above a positive limit |
| `Fates.StepKeys` | pkgs/v1/queue/store/memory/memory.go:65-83 | What each step adds to and takes from the stored messages, with the reason |
| `Fates.ExpiredIffOlder` | pkgs/v1/queue/store/memory/memory.go:65-83 | A receive on an open store drops exactly the messages older than the retention period, four days by default |
| `Visibility.HiddenUntilDeadline` | pkgs/v1/queue/store/memory/memory.go:168-178 | Once handed out, and as long as nobody changes the visibility under its handle, a message is not handed out again before its deadline, whatever else happens |
| `Visibility.StepLeavesHeld` | pkgs/v1/queue/store/memory/memory.go:223-287 | Before its deadline every step leaves an in-flight message as it is or removes it, except a visibility change under its handle |
| `Visibility.StampsAreTrue` | pkgs/v1/queue/store/memory/memory.go:279-286 | In every reachable state a message and its entry agree on its receives, the times lie in order between its send time and now, and while in flight it carries the current handle and says that it is hidden |
| `Receipts.ReceiptsAreTrue` | pkgs/v1/queue/store/memory/memory.go:279-286 | In every reachable state each stored message says exactly how often, first when and last when the receives of the run handed it out |
| `Receipts.RedrivenAfterReceipts` | pkgs/v1/queue/store/memory/memory.go:244-266 | A redriven message was handed out exactly as often as it says, which is at least the positive limit |
| `Deduplication.DroppedIffSeenRecently` | pkgs/v1/queue/store/memory/memory.go:95-119 | A send with a deduplication id is dropped if and only if one with the same id was accepted at most five minutes before (since the last purge); a dropped send stores nothing and uses no sequence number, any other takes the next one |
| `Deduplication.AcceptedTwiceFarApart` | pkgs/v1/queue/store/memory/memory.go:95-119 | Two accepted sends with the same effective id, with no purge between, are more than five minutes apart |
| `Deduplication.CleanCache` | pkgs/v1/queue/store/store.go:162-168 | After cleaning, an id is cached if and only if it was accepted inside the window |
| `GroupIndex.ProjectionIsSubsequence` | pkgs/v1/queue/store/memory/memory.go:135-140 | In every reachable FIFO state the messages of a group appear in the group index in the same order, and no group maps to an empty list |
| `GroupIndex.IndexHolds` | pkgs/v1/queue/store/memory/memory.go:513-544 | A message is in the index of its group if and only if it is stored in the group or retention dropped it since the last purge |
| `GroupIndex.IndexIsExact` | pkgs/v1/queue/store/memory/memory.go:513-544 | The index of a group equals its messages in store order if and only if retention has dropped none of them since the last purge |
| `Stranding.StrandedIff` | pkgs/v1/queue/store/memory/memory.go:65-83 | After any step a group is stranded, that is marked in flight with nothing in flight, if and only if it was and the step is no purge, or the step is a receive that drops an in-flight message of it |
| `Stranding.RunStrandedIff` | pkgs/v1/queue/store/memory/memory.go:65-83 | Over whole runs: a group is stranded if and only if since the last purge a receive dropped one of its messages in flight |
| `Stranding.FourStepsStrand` | pkgs/v1/queue/store/memory/memory.go:65-83 | Four steps from the empty queue do it, for any FIFO configuration: send, receive, more than the retention period, receive |
| `Stranding.StrandedForever` | pkgs/v1/queue/store/memory/memory.go:180-186 | No run without a purge ever hands out a message of a stranded group again |
| `LongPoll.NoLostWakeUp` | pkgs/v1/queue/store/memory/memory.go:160-220 | Whenever a single poller is blocked on an empty slot, each message it could be given is in flight with a due timer still to run, or became visible by a send delay that ran out after its last pass |
| `LongPoll.SendMissesIffNegativeDelay` | pkgs/v1/queue/store/memory/memory.go:142-144 | While a poller waits with nothing missed, a send leaves it so if and only if its delay is not negative, or it stores nothing, or its group is in flight |
| `LongPoll.EmptyPassDeliversNothing` | pkgs/v1/queue/store/memory/memory.go:198-207 | A pass that returns nothing had nothing deliverable and changed nothing |
| `MemoryStores.MemoryStore.SendMessage` | pkgs/v1/queue/store/memory/memory.go:86-147 | The object computes the send of the specification: new state and result |
| `MemoryStores.MemoryStore.CleanExpiredDedupEntries` | pkgs/v1/queue/store/store.go:162-168 | Whatever the order of the map, exactly the entries past their expiry are removed |
| `MemoryStores.MemoryStore.DeleteExpiredMessages` | pkgs/v1/queue/store/memory/memory.go:65-83 | Exactly the messages sent before the cutoff are dropped and their timers stopped |
| `MemoryStores.MemoryStore.ReceiveMessages` | pkgs/v1/queue/store/memory/memory.go:150-221 | The loop over the objects computes one receive pass of the specification: new state and messages |
| `MemoryStores.MemoryStore.ReceiveMessage` | pkgs/v1/queue/store/memory/memory.go:223-287 | One message is stamped, its timer restarted, its group marked, and a copy returned |
| `MemoryStores.MemoryStore.DeleteMessage` | pkgs/v1/queue/store/memory/memory.go:290-303 | Deletes the message that carries the handle, or reports the handle invalid |
| `MemoryStores.MemoryStore.ChangeMessageVisibility` | pkgs/v1/queue/store/memory/memory.go:306-362 | Resets or extends the visibility as specified, or reports the handle invalid |
| `MemoryStores.MemoryStore.FireTimer` | pkgs/v1/queue/store/memory/memory.go:239-277 | The callbacks of a receive and of a visibility change: nothing, redrive, or release |
| `MemoryStores.MemoryStore.RunCallback` | pkgs/v1/queue/store/memory/memory.go:330-355 | What a callback does to its message: nothing if the message has changed hands, redrive at the limit, otherwise visible again |
| `MemoryStores.MemoryStore.RemoveMessage` | pkgs/v1/queue/store/memory/memory.go:529-544 | Splices the message out of the list and its group, stops its timer, frees its group |
| `MemoryStores.MemoryStore.RemoveFromMessageGroup` | pkgs/v1/queue/store/memory/memory.go:513-525 | The group list loses the message; a group left empty is dropped |
| `MemoryStores.MemoryStore.PurgeMessages` | pkgs/v1/queue/store/memory/memory.go:410-427 | Clears messages, cache, groups, marks and the counter, stops the timers, wakes a waiter |
| `MemoryStores.MemoryStore.CloseStore` | pkgs/v1/queue/store/memory/memory.go:430-442 | Marks the store closed and stops the timers of all stored messages |
| `MemoryStores.MemoryStore.ApproximateNumberOfMessages` | pkgs/v1/queue/store/memory/memory.go:365-377 | Counts the visible messages |
| `MemoryStores.MemoryStore.ApproximateNumberOfMessagesNotVisible` | pkgs/v1/queue/store/memory/memory.go:380-392 | Counts the invisible messages with a handle |
| `MemoryStores.MemoryStore.ApproximateNumberOfMessagesDelayed` | pkgs/v1/queue/store/memory/memory.go:395-407 | Counts the invisible messages without a handle |
| `SqliteSpec.SelectHandsOut` | pkgs/v1/queue/store/sqlite/sqlite.go:298-443 | A receive hands out the first max rows of the listing (none for a limit of 0, one for a negative limit), each under the next handle, and leaves the other rows alone |
| `SqliteSpec.FirstReceiveIsNeverRecorded` | pkgs/v1/queue/store/sqlite/sqlite.go:414-436 | The first-receive column stays 0 and every returned message carries the epoch, because the epoch is not the zero time |
| `SqliteSpec.ListingUniqueIff` | pkgs/v1/queue/store/sqlite/sqlite.go:298-304 | The database has one way to list the visible rows if and only if no two of them were sent in the same millisecond |
| `SqliteStores.SqliteStore.SendMessage` | pkgs/v1/queue/store/sqlite/sqlite.go:167-228 | Inserts the row, or fails on a stored id or a closed store |
| `SqliteStores.SqliteStore.SelectVisible` | pkgs/v1/queue/store/sqlite/sqlite.go:298-311 | The answer lists exactly the visible rows, each once, by send time, ties in any order |
| `SqliteStores.SqliteStore.ReceiveMessages` | pkgs/v1/queue/store/sqlite/sqlite.go:246-466 | One pass: expire, select, hand out; for the listing that the database chose |
| `SqliteStores.SqliteStore.HandOutAll` | pkgs/v1/queue/store/sqlite/sqlite.go:414-443 | The candidate loop updates row after row and stops when the batch is full |
| `SqliteStores.SqliteStore.DeleteMessage` | pkgs/v1/queue/store/sqlite/sqlite.go:469-495 | Deletes every row under the handle and reports whether there was one |
| `SqliteStores.SqliteStore.ChangeMessageVisibility` | pkgs/v1/queue/store/sqlite/sqlite.go:498-548 | Updates every row under the handle; a timeout of 0 also blanks the handle |
| `SqliteStores.SqliteStore.PurgeMessages` | pkgs/v1/queue/store/sqlite/sqlite.go:599-615 | Empties the table unless the store is closed |
| `Simulation.SendSimulates` | pkgs/v1/queue/store/sqlite/sqlite.go:167-228 | Both stores accept a send, return the same message and stay related if and only if the table does not hold its id; the in-memory store accepts it in any case |
| `Simulation.FireStutters` | pkgs/v1/queue/store/memory/memory.go:239-277 | A timer callback of the in-memory store is a stutter step of the table |
| `Simulation.ExpireSimulates` | pkgs/v1/queue/store/sqlite/sqlite.go:232-242 | Retention drops the same messages from both stores if and only if none was sent before the cutoff but in its millisecond |
| `SimulationReceive.ListingIsStoreOrder` | pkgs/v1/queue/store/sqlite/sqlite.go:298-304 | When the visible rows were sent in different milliseconds the database lists them in store order |
| `Simulation.DeleteAgrees` | pkgs/v1/queue/store/sqlite/sqlite.go:469-495 | Related stores agree on a delete exactly when the handle is not spent, that is, not empty with a never-received row and not run out and already taken back by a timer; they then stay related |
| `Simulation.ChangeVisibilityAgrees` | pkgs/v1/queue/store/sqlite/sqlite.go:498-548 | The same for a change of visibility |
| `Simulation.UnexpiredIsNotSpent` | pkgs/v1/queue/store/sqlite/sqlite.go:469-495 | A non-empty handle whose visibility has not run out, or that the table does not know, is not spent |
| `SimulationReceive.ReceiveSimulates` | pkgs/v1/queue/store/sqlite/sqlite.go:246-466 | Whatever listing the database chooses, two answers to a receive are the same, up to the first-receive time and fractions of a millisecond, if and only if the rows handed out are unexpired and visible in memory to the nanosecond, in the order of arrival, and skip no message due (for a limit of 0: nothing is due); the stores stay related if and only if in addition retention dropped the same messages |
| `SimulationReceive.ChoiceInStoreOrder` | pkgs/v1/queue/store/sqlite/sqlite.go:298-304 | When the listing is in store order that means only: none of the rows handed out is early |
| `SimulationReceive.AlikeIffLimited` | pkgs/v1/queue/store/sqlite/sqlite.go:298-311 | When no time falls into the present millisecond, two answers are the same if and only if the limit is not 0 or nothing is listed |
| `SimulationRuns.CountsAgree` | pkgs/v1/queue/store/sqlite/sqlite.go:551-596 | Related stores report the same count of visible messages if and only if none becomes visible later in this millisecond, and the same in-flight and delayed counts if and only if no in-flight, no delayed message does |
| `SimulationRuns.StepSimulates` | pkgs/v1/queue/store/sqlite/sqlite.go:167-615 | A step of related stores gives the same reply and leaves them related if and only if it is orderly: a fresh id, nothing dropped early and the rows handed out as above, a handle that is not spent, no close |
| `SimulationRuns.StoresSimulate` | pkgs/v1/queue/store/sqlite/sqlite.go:167-615 | From the empty queue, at any start time, with any ticks of the clock and any listings the database may choose, the two stores stay in step if and only if every step of the run is orderly; they then say the same reply by reply |
| `SimulationReceive.LimitZeroDiffers` | pkgs/v1/queue/store/sqlite/sqlite.go:298-311 | With a limit of 0 and a message due the answers have one message and none |
| `SimulationRuns.SubMillisecondDiffers` | pkgs/v1/queue/store/sqlite/sqlite.go:216-223 | The smallest case of a time in the present millisecond: a delayed message is visible earlier in the table |
| `Redrive.ArnFindsItsQueue` | pkgs/v1/queue/manager.go:191-198 | The ARN the manager builds leads back to the queue exactly when the name has no colon |
| `Redrive.RedriveKeepsTotal` | pkgs/v1/queue/manager.go:204-219 | A redrive into another queue keeps the total exactly when that queue exists, is open and does not take the message for a duplicate; the message arrives last, visible, with receive count 0 and no handle; all other queues are unchanged |
| `Redrive.PairIsTwoRuns` | pkgs/v1/queue/manager.go:77-85 | A queue and its dead-letter queue each go through an ordinary run of their own; to the latter a redrive is a send |
| `Redrive.RedrivesLand` | pkgs/v1/queue/manager.go:204-219 | Over whole runs an open standard dead-letter queue has accepted exactly its own senders' messages plus one for each message the source redrove |
| `QueueManagers.StoreConfig` | pkgs/v1/queue/manager.go:65-86 | A redrive is due exactly when there is a policy with a positive limit that the receive count has reached |
| `QueueManagers.QueueManager.CreateQueue` | pkgs/v1/queue/manager.go:46-98 | Creates an empty queue with the wired configuration, or returns the existing one if the attributes match, or refuses |
| `QueueManagers.QueueManager.LookupQueueByArn` | pkgs/v1/queue/manager.go:191-198 | Finds the queue named after the last colon |
| `QueueManagers.QueueManager.RedriveMessage` | pkgs/v1/queue/manager.go:204-219 | Sends the reset message to the named queue and changes no other; says how it ended |
| `MoveTask.MovedCountsSends` | pkgs/v1/queue/dlq/move_task.go:350-371 | The counter is exactly the number of sends without error, less one that is still before its count; equal when the move task has ended |
| `MoveTask.AtMostOneAfterCancel` | pkgs/v1/queue/dlq/move_task.go:258-280 | Once CancelTask has closed the channel at most one more message is sent and counted, under any interleaving |
| `MoveTask.ReturnedCountIsClose` | pkgs/v1/queue/dlq/move_task.go:258-280 | The count any CancelTask returns, whether it had an effect or not, is at most one below the count at any later time |
| `MoveTask.TerminalIsFinal` | pkgs/v1/queue/dlq/move_task.go:267-274 | A terminal status is final if and only if no CancelTask has seen the status RUNNING without having stored its own yet; count and completion time never change |
| `MoveTask.CompletionIsOverwritten` | pkgs/v1/queue/dlq/move_task.go:267-274 | The race exists for every source with nothing to deliver: a completed move task is left at CANCELLING |
| `MoveTask.OverwrittenIsNeverStale` | pkgs/v1/queue/dlq/move_task.go:152-171 | Such a move task stays at CANCELLING, so the cleanup never removes it |
| `MoveTask.NothingIsLost` | pkgs/v1/queue/dlq/move_task.go:309-375 | At every program point, whatever clients and timers do to both queues and whatever fails, a source message whose retention has not run out is still in the source if and only if no client or timer took it |
| `MoveTask.TaskTakesNothing` | pkgs/v1/queue/dlq/move_task.go:309-375 | No step of the move task removes an unexpired message from its source |
| `MoveTask.DeleteNeverDeletes` | pkgs/v1/queue/dlq/move_task.go:364-369 | The delete step never removes anything, because its handle was blanked before |
| `MoveTask.DestinationAccepts` | pkgs/v1/queue/dlq/move_task.go:358-362 | Whatever others do to both queues, a standard destination has accepted exactly the successful sends of the move task and the accepted sends of others |
| `MoveTask.DestinationGrowsBySends` | pkgs/v1/queue/dlq/move_task.go:347-371 | When nobody else sends to the source or uses the standard destination, that is what it was plus one fresh copy per successful send, in order; all of them are copies of source messages |
| `MoveSqlite.BatchLoses` | pkgs/v1/queue/dlq/move_task.go:341-372 | With a SQLite source, a turn with a successful send removes exactly the unexpired rows without a handle that are not in the batch: they are lost, neither sent nor left |
| `MoveSqlite.NothingLostIff` | pkgs/v1/queue/store/sqlite/sqlite.go:469-495 | Such a turn loses nothing if and only if every unexpired row without a handle is in the batch |
| `MoveDrain.ReceiveShrinks` | pkgs/v1/queue/dlq/move_task.go:331-343 | Each non-empty batch leaves fewer visible messages in the source: the measure of the loop |
| `MoveDrain.DrainCopiesAllWaiting` | pkgs/v1/queue/dlq/move_task.go:309-375 | Alone with a frozen clock between open standard queues the move task completes, has copied every waiting message once and in order and counted each, leaves nothing waiting, and leaves every unexpired message in the source |
| `MoveDrain.DrainIntoClosed` | pkgs/v1/queue/dlq/move_task.go:358-362 | Into a closed destination the move task completes with nothing copied or counted and the source intact |
| `MoveTaskManagers.RunTask` | pkgs/v1/queue/dlq/move_task.go:309-375 | The loop on two store objects terminates with exactly the outcome of the specification |
| `MoveTaskManagers.CopyBatch` | pkgs/v1/queue/dlq/move_task.go:341-372 | The inner loop sends each message of a batch, counts the sends and leaves the source as it was |
| `MoveTaskManagers.MovingTask.SetTaskStatus` | pkgs/v1/queue/dlq/move_task.go:380-385 | Sets the status and, for a terminal one, the completion time |
| `MoveTaskManagers.MoveTaskManager.CancelTask` | pkgs/v1/queue/dlq/move_task.go:258-280 | Cancels a running task, leaves any other alone, and returns the count |
| `MoveTaskManagers.MoveTaskManager.RemoveStaleTasks` | pkgs/v1/queue/dlq/move_task.go:152-171 | Removes exactly the tasks that are terminal and older than 24 hours |
| `SigV4.EncodeUri` | apps/go/server/middleware/auth.go:469-483 | For any bytes the nested loops compute the percent-encoding of the text that a range loop sees in them |
| `SigV4.UnescapeEncode` | apps/go/server/middleware/auth.go:469-483 | Unescaping the encoding gives the UTF-8 bytes of the original |
| `SigV4.EncodeInjective` | apps/go/server/middleware/auth.go:469-483 | Two strings, of any bytes, have the same encoding if and only if a range loop sees the same text in them, with U+FFFD for what is no UTF-8 |
| `SigV4.EncodeIsClean` | apps/go/server/middleware/auth.go:469-483 | Encoded text holds no ampersand, equals sign or slash |
| `SigV4.SortPairs` | apps/go/server/middleware/auth.go:380-386 | Sorting returns the pairs ordered by key and value |
| `SigV4.SortedUnique` | apps/go/server/middleware/auth.go:380-386 | There is only one sorted order of a multiset of pairs |
| `SigV4.RenderedInjective` | apps/go/server/middleware/auth.go:387-398 | The rendering of clean pairs determines the pairs |
| `SigV4.CanonicalQueryString` | apps/go/server/middleware/auth.go:364-399 | For any visiting order of the map the result renders its encoded pairs in sorted order |
| `SigV4.CanonicalQueryIsExact` | apps/go/server/middleware/auth.go:364-399 | Two query maps, of any bytes, have equal canonical strings if and only if they show the same multiset of key/value texts |
| `SigV4.CanonicalUriPath` | apps/go/server/middleware/auth.go:349-359 | The loop encodes each segment and keeps the slashes |
| `SigV4.CanonicalPathIsExact` | apps/go/server/middleware/auth.go:349-359 | Two paths, of any bytes, have the same canonical form if and only if the texts seen in them are equal or one is empty and the other a single slash |
| `QueryProtocol.ParseBatchEntries` | apps/go/server/protocol/query.go:110-245 | The result lists by increasing index what was collected when the parameters were visited in some order |
| `QueryProtocol.KeyMeansTarget` | apps/go/server/protocol/query.go:127-150 | A rendered parameter name is read as the field it was made for |
| `QueryProtocol.VisitSets` | apps/go/server/protocol/query.go:151-205 | Reading a parameter changes the field it addresses and no other |
| `QueryProtocol.ParseUndoesRender` | apps/go/server/protocol/query.go:110-245 | Whatever the visiting order, the parser returns the list of entries that the parameters render, with their attributes, in order; empty fields may be written or left out |
| `QueryProtocol.FullRenderingParsesBack` | apps/go/server/protocol/query.go:110-245 | In particular for a client that writes out every field, negative numbers included |
| `CiTargets.Unique` | tools/ci/get_affected_targets/main.go:283-293 | The same elements without repetition, in the order of first occurrence |
| `CiTargets.IntersectStrings` | tools/ci/get_affected_targets/main.go:384-416 | The elements of all slices, sorted and without repetition; empty for no slices |
| `CiTargets.CombineWithGlobal` | tools/ci/get_affected_targets/main.go:296-302 | The combined rules are those of the global and the specific ones together |
| `CiTargets.MergeTargetTypeConfigs` | tools/ci/get_affected_targets/main.go:308-365 | A rule is merged if and only if it is global or belongs to every kind requested |
| `CiTargets.MergedRulesAreSafe` | tools/ci/get_affected_targets/main.go:308-365 | Merged rules contain every global rule, and a file they skip is skipped by the own rules of each requested known kind |
| `CiTargets.OneKindIsExact` | tools/ci/get_affected_targets/main.go:344-350 | For one kind the merged rules skip exactly what its own rules skip |
| `CiTargets.ShouldSkipFile` | tools/ci/get_affected_targets/main.go:485-508 | True if and only if some pattern matches or the extension is listed |
| `CiTargets.DetermineQueryScope` | tools/ci/get_affected_targets/main.go:576-641 | The scope is built from the sorted paths that have no ancestor among the paths, or is the whole workspace |
| `CiTargets.KeptIsMinimalCover` | tools/ci/get_affected_targets/main.go:606-623 | The kept paths cover all paths, none lies inside another, and every other cover by given paths contains them |
| `BatchSend.HandleSendMessage` | apps/go/server/handlers/actions_message.go:13-101 | One request: the checks in order, then the store |
| `BatchSend.SendEntry` | apps/go/server/handlers/actions_batch.go:58-154 | One entry of a batch succeeds exactly when the same fields sent alone would, with the same state and the same error code |
| `BatchSend.HandleSendMessageBatch` | apps/go/server/handlers/actions_batch.go:35-166 | A batch is rejected exactly when it is empty, too long or repeats an id; otherwise state, results and errors are those of its messages sent one by one |
| `BatchSend.ReplyPartitionsRequest` | apps/go/server/handlers/actions_batch.go:55-158 | Each entry is answered exactly once, as a result or an error, each list in request order |
| `BatchSend.NoIdInBoth` | apps/go/server/handlers/actions_batch.go:55-158 | With distinct ids no id is both a result and an error |
| `BatchSend.HasDuplicateIds` | apps/go/server/handlers/helpers.go:84-95 | Finds out whether two entries have the same id |
| `Text.SplitJoin` | apps/go/server/middleware/auth.go:354-358 | Splitting undoes joining parts without the separator |
| `Text.SplitDecode` | apps/go/server/middleware/auth.go:354-358 | Splitting bytes at a slash and decoding the parts is splitting the decoded text |
| `Text.DecodeIsExact` | apps/go/server/middleware/auth.go:471-471 | Decoding loses nothing if and only if the bytes are UTF-8 |
| `Text.DecodeUtf8` | apps/go/server/middleware/auth.go:471-471 | Decoding gives back every text from its UTF-8 bytes |

## Left out

- HTTP serving, TLS, metrics, the web interface, logging, configuration and release tooling: plumbing without a hard property.
- HMAC, MD5, base64, JSON, XML and UUIDs: results of abstract functions or fresh tokens. Message attributes and the MD5 fields of stored messages are not modelled; they pass through the stores unread.
- `SQLiteStore`, FIFO and redrive paths (pkgs/v1/queue/store/sqlite/sqlite.go:180-197, 280-296, 647-754): ties of send times and two clock readings in one pass give them another specification; the standard queue carries the simulation.
- `BadgerStore`: it selects in random key order and skips messages that still carry a handle, so it does not satisfy the same specification.
- Lock order: a timer callback takes the store's lock and then the manager's, `DeleteQueue` the other way round. Dead-letter queues are assumed acyclic, and no queue is deleted during a redrive. `DeleteQueue`, `ListQueues` and `Shutdown` are not modelled.
- A callback that has started but waits for the lock: starting and holding the lock are one step, so the window in which a removed message could still match its handle does not exist in the model.
- Deadlines of long polls and the rates of tickers: only the order of events is kept. One poller at a time.
- Integer widths: sequence numbers, counts and durations are unbounded, except in the size limit and in `Atoi`, where overflow matters.
- `MoveTask.TerminalIsFinal`: the steps of `CancelTask` interleave with everything, but the two stores of `setTaskStatus`, of the status and of the completion time, are one step.
- `MoveSqlite.BatchLoses`: one turn of the loop at one clock reading, with nobody else using the table in between.
- `MoveTaskManagers.RunTask`: runs alone, so the cancellation checks within a batch are those of `MoveTask` only; the rate limit is left out.
- `StartTask`: its argument checks, the search for a destination and the goroutine it starts.
- `PrepareForRedrive` and messages handed to clients: messages are values, so the copy made by `copyMessage` and the mutation of the caller's message are returned values, and aliasing is not captured.
- `QueueManagers.QueueManager.CreateQueue`: the redrive policy comes parsed and is compared as a value; an invalid policy is not part of this model.
- `SimulationRuns.StoresSimulate`: closed stores are compared no further.
- `MemoryStores.MemoryStore.ReceiveMessages`: one pass; the waiting loop of memory.go:198-219 is the subject of `LongPoll`.
- `SqliteSpec.SelectHandsOut`: the query of a standard queue; the FIFO query and its skipping of groups are left out.
- `SqliteStores.SqliteStore.SendMessage`: the branch of a standard queue, without deduplication and numbering.
- `SqliteStores.SqliteStore.ReceiveMessages`: one pass of a standard queue without redrive; errors of the database are left out.
- `CiTargets.MergeTargetTypeConfigs`: trimming, lower-casing and pattern matching are parameters.
- `BatchSend.HandleSendMessageBatch`: nobody else uses the queue between two entries; each entry has its own clock reading and message id as a parameter. The batch forms of delete and visibility change are left out.
- `canonicalHeaders`, credential parsing and signature comparison; attribute switches, tags, credential stores and response marshalling: long but easy.
