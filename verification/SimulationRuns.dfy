/** The simulation over whole runs: exactly as long as both stores are used in an orderly way they stay related and give
    the same replies, and exactly when no time falls into the present millisecond they report the same counts. */
module SimulationRuns {
  import opened StoreTypes
  import opened MemorySpec
  import opened MemoryInvariants
  import opened MemoryRuns
  import opened SqliteSpec
  import opened Simulation
  import opened SimulationReceive

  // ---------------------------------------------------------------- counts

  ghost function IdsIf(es: seq<Entry>, p: Entry -> bool): set<string> {
    set e | e in es && p(e) :: e.msg.id
  }

  lemma OneMoreId(front: seq<Entry>, last: Entry, p: Entry -> bool)
    requires forall e :: e in front ==> e.msg.id != last.msg.id
    ensures IdsIf(front + [last], p) == IdsIf(front, p) + (if p(last) then {last.msg.id} else {})
    ensures last.msg.id !in IdsIf(front, p)
  {
  }

  lemma {:induction false} CountedIds(es: seq<Entry>, p: Entry -> bool)
    requires Spread(es)
    ensures |IdsIf(es, p)| == CountIf(es, p)
  {
    if es != [] {
      var front, last := es[..|es| - 1], es[|es| - 1];
      CountedIds(front, p);
      assert es == front + [last];
      OneMoreId(front, last, p);
    }
  }

  lemma CountAgrees(es: seq<Entry>, p: Entry -> bool, rows: map<string, Row>, ids: set<string>)
    requires Spread(es) && rows.Keys == Ids(es) && ids <= rows.Keys
    requires forall i :: 0 <= i < |es| ==> (p(es[i]) <==> es[i].msg.id in ids)
    ensures CountIf(es, p) == |ids|
  {
    CountedIds(es, p);
    forall id ensures id in IdsIf(es, p) <==> id in ids {
      if id in ids {
        var i :| 0 <= i < |es| && es[i].msg.id == id;
        assert es[i] in es;
      }
    }
    assert IdsIf(es, p) == ids;
  }

  /** Of two conditions, one stronger than the other, the counts agree only if no message tells them apart. */
  lemma {:induction false} CountsTellApart(es: seq<Entry>, p: Entry -> bool, q: Entry -> bool)
    requires forall e :: e in es && p(e) ==> q(e)
    ensures CountIf(es, p) <= CountIf(es, q)
    ensures CountIf(es, p) == CountIf(es, q) <==> forall e :: e in es && q(e) ==> p(e)
  {
    if es != [] {
      var front, last := es[..|es| - 1], es[|es| - 1];
      assert es == front + [last];
      CountsTellApart(front, p, q);
    }
  }

  lemma EarlyMillis(now: int, e: Entry)
    ensures ShowsEarly(now, e) <==> e.visibleAt > now && Millis(e.visibleAt) <= Millis(now)
    ensures e.visibleAt <= now ==> Millis(e.visibleAt) <= Millis(now)
  {
  }

  /** The counts of the table, taken from the in-memory store's messages. */
  lemma TableCounts(now: int, s: State, t: Table)
    requires Related(now, s, t)
    ensures |VisibleRows(t, now)| == CountIf(s.entries, (e: Entry) => Millis(e.visibleAt) <= Millis(now))
    ensures |InFlightRows(t, now)|
            == CountIf(s.entries, (e: Entry) => Millis(e.visibleAt) > Millis(now) && e.handle != NO_HANDLE)
    ensures |DelayedRows(t, now)|
            == CountIf(s.entries, (e: Entry) => Millis(e.visibleAt) > Millis(now) && e.handle == NO_HANDLE)
  {
    forall i | 0 <= i < |s.entries| ensures Mirrors(now, s.entries[i], t.rows[s.entries[i].msg.id]) {
    }
    CountAgrees(s.entries, (e: Entry) => Millis(e.visibleAt) <= Millis(now), t.rows, VisibleRows(t, now));
    CountAgrees(s.entries, (e: Entry) => Millis(e.visibleAt) > Millis(now) && e.handle != NO_HANDLE, t.rows,
                InFlightRows(t, now));
    CountAgrees(s.entries, (e: Entry) => Millis(e.visibleAt) > Millis(now) && e.handle == NO_HANDLE, t.rows,
                DelayedRows(t, now));
  }

  lemma VisibleTellApart(now: int, es: seq<Entry>)
    ensures CountIf(es, (e: Entry) => e.visibleAt <= now) == CountIf(es, (e: Entry) => Millis(e.visibleAt) <= Millis(now))
            <==> forall e :: e in es ==> !ShowsEarly(now, e)
  {
    forall e | e in es ensures e.visibleAt <= now ==> Millis(e.visibleAt) <= Millis(now) { EarlyMillis(now, e); }
    CountsTellApart(es, (e: Entry) => e.visibleAt <= now, (e: Entry) => Millis(e.visibleAt) <= Millis(now));
    hide Millis, CountIf;
    forall e | e in es ensures ShowsEarly(now, e) <==> e.visibleAt > now && Millis(e.visibleAt) <= Millis(now) {
      EarlyMillis(now, e);
    }
  }

  lemma HiddenTellApart(now: int, es: seq<Entry>, held: Entry -> bool)
    ensures CountIf(es, (e: Entry) => e.visibleAt > now && held(e))
            == CountIf(es, (e: Entry) => Millis(e.visibleAt) > Millis(now) && held(e))
            <==> forall e :: e in es && held(e) ==> !ShowsEarly(now, e)
  {
    forall e | e in es ensures e.visibleAt <= now ==> Millis(e.visibleAt) <= Millis(now) { EarlyMillis(now, e); }
    CountsTellApart(es, (e: Entry) => Millis(e.visibleAt) > Millis(now) && held(e),
                    (e: Entry) => e.visibleAt > now && held(e));
    hide Millis, CountIf;
    forall e | e in es ensures ShowsEarly(now, e) <==> e.visibleAt > now && Millis(e.visibleAt) <= Millis(now) {
      EarlyMillis(now, e);
    }
  }

  lemma {:induction false} SameCondition(es: seq<Entry>, p: Entry -> bool, q: Entry -> bool)
    requires forall e :: p(e) <==> q(e)
    ensures CountIf(es, p) == CountIf(es, q)
  {
    if es != [] { SameCondition(es[..|es| - 1], p, q); }
  }

  /** Related stores report the same count of visible messages if and only if no message becomes visible later in this
      millisecond, and the same counts of in-flight and of delayed messages if and only if no such message does. */
  lemma CountsAgree(now: int, s: State, t: Table)
    requires Related(now, s, t)
    ensures VisibleCount(s, now) == |VisibleRows(t, now)| <==> forall e :: e in s.entries ==> !ShowsEarly(now, e)
    ensures InFlightCount(s, now) == |InFlightRows(t, now)|
            <==> forall e :: e in s.entries && e.handle != NO_HANDLE ==> !ShowsEarly(now, e)
    ensures DelayedCount(s, now) == |DelayedRows(t, now)|
            <==> forall e :: e in s.entries && e.handle == NO_HANDLE ==> !ShowsEarly(now, e)
  {
    TableCounts(now, s, t);
    hide Related, VisibleRows, InFlightRows, DelayedRows, ShowsEarly, Millis, CountIf;
    var inFlight := (e: Entry) => e.handle != NO_HANDLE;
    var waiting := (e: Entry) => e.handle == NO_HANDLE;
    VisibleTellApart(now, s.entries);
    HiddenTellApart(now, s.entries, inFlight);
    SameCondition(s.entries, (e: Entry) => e.visibleAt > now && e.handle != NO_HANDLE,
                  (e: Entry) => e.visibleAt > now && inFlight(e));
    SameCondition(s.entries, (e: Entry) => Millis(e.visibleAt) > Millis(now) && e.handle != NO_HANDLE,
                  (e: Entry) => Millis(e.visibleAt) > Millis(now) && inFlight(e));
    HiddenTellApart(now, s.entries, waiting);
    SameCondition(s.entries, (e: Entry) => e.visibleAt > now && e.handle == NO_HANDLE,
                  (e: Entry) => e.visibleAt > now && waiting(e));
    SameCondition(s.entries, (e: Entry) => Millis(e.visibleAt) > Millis(now) && e.handle == NO_HANDLE,
                  (e: Entry) => Millis(e.visibleAt) > Millis(now) && waiting(e));
  }

  // ---------------------------------------------------------------- runs

  datatype Reply = Silent | Verdict(ok: bool) | Sent(msg: Message) | Batch(msgs: seq<Message>)

  function MemoryReply(w: World, a: Action): Reply {
    match a
    case DoSend(msg, delay) =>
      var r := Send(w.store, w.now, msg, delay).1; if r.SendAccepted? then Sent(r.msg) else Verdict(false)
    case DoReceive(max, requested) =>
      var r := Receive(w.store, w.now, max, requested).1; if r.Some? then Batch(r.value) else Verdict(false)
    case DoDelete(h) => Verdict(Delete(w.store, h).1)
    case DoChangeVisibility(h, timeout) => Verdict(ChangeVisibility(w.store, w.now, h, timeout).1)
    case _ => Silent
  }

  /** One step of the table; `listing` is how the database lists the visible rows if it is asked to. */
  ghost function TableStep(now: int, t: Table, a: Action, listing: seq<string>): (Table, Reply) {
    match a
    case DoSend(msg, delay) =>
      var (t', r) := Insert(t, now, msg, delay); (t', if r.Inserted? then Sent(r.msg) else Verdict(false))
    case DoReceive(max, requested) =>
      if t.closed || IsListing(DeleteExpired(t, now).rows, now, listing) then
        var (t', r) := Select(t, now, max, requested, listing);
        (t', if r.Some? then Batch(r.value) else Verdict(false))
      else (t, Silent)
    case DoDelete(h) => var (t', r) := DeleteRows(t, h); (t', Verdict(r.Updated?))
    case DoChangeVisibility(h, timeout) => var (t', r) := UpdateVisibility(t, now, h, timeout); (t', Verdict(r.Updated?))
    case DoPurge => (PurgeRows(t).0, Silent)
    case DoClose => (t.(closed := true), Silent)
    case DoFire(_) => (t, Silent)
    case DoTick(_) => (t, Silent)
  }

  ghost function RunTable(w: World, t: Table, acts: seq<Action>, listings: seq<seq<string>>): Table
    requires |listings| == |acts|
  {
    if acts == [] then t
    else
      var n := |acts| - 1;
      TableStep(Run(w, acts[..n]).now, RunTable(w, t, acts[..n], listings[..n]), acts[n], listings[n]).0
  }

  /** What the database may answer. */
  ghost predicate Possible(w: World, t: Table, a: Action, listing: seq<string>) {
    a.DoReceive? ==> IsListing(DeleteExpired(t, w.now).rows, w.now, listing)
  }

  /** An id the table does not hold, nothing dropped early and the rows handed out as they should be, a handle that is not
      spent, no close. */
  ghost predicate Orderly(w: World, t: Table, a: Action, listing: seq<string>) {
    match a
    case DoSend(msg, _) => msg.id !in t.rows
    case DoReceive(max, _) => NoneExpiresEarly(w.now, w.store) && SameChoice(w.now, w.store, max, listing)
    case DoDelete(h) => !Spent(w.store, t, h)
    case DoChangeVisibility(h, _) => !Spent(w.store, t, h)
    case DoClose => false
    case _ => true
  }

  predicate SameReply(m: Reply, q: Reply) {
    if m.Batch? && q.Batch? then SameMessages(m.msgs, q.msgs) else m == q
  }

  /** After the step the stores are related, and both gave the same reply. */
  ghost predicate StepAgrees(w: World, t: Table, a: Action, listing: seq<string>) {
    var (t', q) := TableStep(w.now, t, a, listing);
    Related(Step(w, a).now, Step(w, a).store, t') && SameReply(MemoryReply(w, a), q)
  }

  lemma ReceiveStep(w: World, t: Table, max: int, requested: int, listing: seq<string>)
    requires Related(w.now, w.store, t) && Possible(w, t, DoReceive(max, requested), listing)
    ensures StepAgrees(w, t, DoReceive(max, requested), listing)
            <==> Orderly(w, t, DoReceive(max, requested), listing)
  {
    ReceiveSimulates(w.now, w.store, t, max, requested, listing);
    hide Related, Receive, Select, SameChoice, NoneExpiresEarly, SameMessages, IsListing;
  }

  lemma SendStep(w: World, t: Table, msg: Message, delay: int)
    requires Related(w.now, w.store, t)
    ensures StepAgrees(w, t, DoSend(msg, delay), []) <==> msg.id !in t.rows
  {
    hide Related, Send, Insert;
    SendSimulates(w.now, w.store, t, msg, delay);
  }

  lemma DeleteStep(w: World, t: Table, h: Handle)
    requires Related(w.now, w.store, t)
    ensures StepAgrees(w, t, DoDelete(h), []) <==> !Spent(w.store, t, h)
  {
    hide Related, Spent, Delete, DeleteRows;
    DeleteAgrees(w.now, w.store, t, h);
  }

  lemma ChangeVisibilityStep(w: World, t: Table, h: Handle, timeout: int)
    requires Related(w.now, w.store, t)
    ensures StepAgrees(w, t, DoChangeVisibility(h, timeout), []) <==> !Spent(w.store, t, h)
  {
    hide Related, Spent, ChangeVisibility, UpdateVisibility;
    ChangeVisibilityAgrees(w.now, w.store, t, h, timeout);
  }

  /** Steps without a reply: all but the close keep the stores related. */
  lemma SilentStep(w: World, t: Table, a: Action)
    requires Related(w.now, w.store, t) && (a.DoPurge? || a.DoClose? || a.DoFire? || a.DoTick?)
    ensures StepAgrees(w, t, a, []) <==> !a.DoClose?
  {
    match a
    case DoPurge => PurgeSimulates(w.now, w.store, t);
    case DoFire(timer) => FireStutters(w.now, w.store, t, timer);
    case DoTick(d) => TickSimulates(w.now, w.store, t, d);
    case _ =>
  }

  lemma ListingIsIrrelevant(w: World, t: Table, a: Action, listing: seq<string>)
    requires !a.DoReceive?
    ensures StepAgrees(w, t, a, listing) <==> StepAgrees(w, t, a, [])
  {
  }

  /** One step: both stores give the same reply and stay related if and only if the step is orderly. */
  lemma StepSimulates(w: World, t: Table, a: Action, listing: seq<string>)
    requires Related(w.now, w.store, t) && Possible(w, t, a, listing)
    ensures StepAgrees(w, t, a, listing) <==> Orderly(w, t, a, listing)
  {
    hide Related, StepAgrees, Possible, SameChoice, NoneExpiresEarly, Spent;
    match a
    case DoReceive(max, requested) => ReceiveStep(w, t, max, requested, listing);
    case DoSend(msg, delay) =>
      ListingIsIrrelevant(w, t, a, listing);
      SendStep(w, t, msg, delay);
    case DoDelete(h) =>
      ListingIsIrrelevant(w, t, a, listing);
      DeleteStep(w, t, h);
    case DoChangeVisibility(h, timeout) =>
      ListingIsIrrelevant(w, t, a, listing);
      ChangeVisibilityStep(w, t, h, timeout);
    case _ =>
      ListingIsIrrelevant(w, t, a, listing);
      SilentStep(w, t, a);
  }

  /** The replies along a run. */
  function MemoryReplies(w: World, acts: seq<Action>): seq<Reply> {
    if acts == [] then []
    else MemoryReplies(w, acts[..|acts| - 1]) + [MemoryReply(Run(w, acts[..|acts| - 1]), acts[|acts| - 1])]
  }

  ghost function TableReplies(w: World, t: Table, acts: seq<Action>, listings: seq<seq<string>>): seq<Reply>
    requires |listings| == |acts|
  {
    if acts == [] then []
    else
      var n := |acts| - 1;
      TableReplies(w, t, acts[..n], listings[..n])
      + [TableStep(Run(w, acts[..n]).now, RunTable(w, t, acts[..n], listings[..n]), acts[n], listings[n]).1]
  }

  ghost predicate SameReplies(ms: seq<Reply>, qs: seq<Reply>) {
    |ms| == |qs| && forall k :: 0 <= k < |ms| ==> SameReply(ms[k], qs[k])
  }

  /** All along the run the database's answers are possible ones. */
  ghost predicate PossibleRun(w: World, t: Table, acts: seq<Action>, listings: seq<seq<string>>)
    requires |listings| == |acts|
  {
    acts == [] || (
      var n := |acts| - 1;
      && PossibleRun(w, t, acts[..n], listings[..n])
      && Possible(Run(w, acts[..n]), RunTable(w, t, acts[..n], listings[..n]), acts[n], listings[n]))
  }

  ghost predicate OrderlyRun(w: World, t: Table, acts: seq<Action>, listings: seq<seq<string>>)
    requires |listings| == |acts|
  {
    acts == [] || (
      var n := |acts| - 1;
      && OrderlyRun(w, t, acts[..n], listings[..n])
      && Orderly(Run(w, acts[..n]), RunTable(w, t, acts[..n], listings[..n]), acts[n], listings[n]))
  }

  /** After every step the stores are related, and both gave the same reply. */
  ghost predicate InStep(w: World, t: Table, acts: seq<Action>, listings: seq<seq<string>>)
    requires |listings| == |acts|
  {
    acts == [] || (
      var n := |acts| - 1;
      && InStep(w, t, acts[..n], listings[..n])
      && StepAgrees(Run(w, acts[..n]), RunTable(w, t, acts[..n], listings[..n]), acts[n], listings[n]))
  }

  lemma {:induction false} InStepIsRelated(w: World, t: Table, acts: seq<Action>, listings: seq<seq<string>>)
    requires Related(w.now, w.store, t) && |listings| == |acts| && InStep(w, t, acts, listings)
    ensures Related(Run(w, acts).now, Run(w, acts).store, RunTable(w, t, acts, listings))
    ensures SameReplies(MemoryReplies(w, acts), TableReplies(w, t, acts, listings))
  {
    if acts != [] {
      var n := |acts| - 1;
      InStepIsRelated(w, t, acts[..n], listings[..n]);
    }
  }

  /** From related stores, a run keeps them in step if and only if it is orderly. */
  lemma {:induction false} RunSimulates(w: World, t: Table, acts: seq<Action>, listings: seq<seq<string>>)
    requires Related(w.now, w.store, t) && |listings| == |acts| && PossibleRun(w, t, acts, listings)
    ensures InStep(w, t, acts, listings) <==> OrderlyRun(w, t, acts, listings)
  {
    if acts != [] {
      var n := |acts| - 1;
      RunSimulates(w, t, acts[..n], listings[..n]);
      if InStep(w, t, acts[..n], listings[..n]) {
        InStepIsRelated(w, t, acts[..n], listings[..n]);
        hide StepAgrees, Orderly, Possible, Related;
        StepSimulates(Run(w, acts[..n]), RunTable(w, t, acts[..n], listings[..n]), acts[n], listings[n]);
      }
    }
  }

  lemma EmptyRelated(cfg: Config, start: int)
    requires Standard(cfg)
    ensures Related(start, Init(cfg), InitTable(cfg))
  {
    InitInv(cfg);
  }

  /** From the empty queue, at any start time and with any ticks of the clock: the two stores stay in step throughout if
      and only if the run is orderly, and then they say the same reply by reply and end related. */
  lemma StoresSimulate(cfg: Config, start: int, acts: seq<Action>, listings: seq<seq<string>>)
    requires Standard(cfg) && |listings| == |acts| && PossibleRun(Start(cfg, start), InitTable(cfg), acts, listings)
    ensures InStep(Start(cfg, start), InitTable(cfg), acts, listings)
            <==> OrderlyRun(Start(cfg, start), InitTable(cfg), acts, listings)
    ensures OrderlyRun(Start(cfg, start), InitTable(cfg), acts, listings) ==>
              && SameReplies(MemoryReplies(Start(cfg, start), acts),
                             TableReplies(Start(cfg, start), InitTable(cfg), acts, listings))
              && var w := Run(Start(cfg, start), acts);
                 Related(w.now, w.store, RunTable(Start(cfg, start), InitTable(cfg), acts, listings))
  {
    EmptyRelated(cfg, start);
    RunSimulates(Start(cfg, start), InitTable(cfg), acts, listings);
    if InStep(Start(cfg, start), InitTable(cfg), acts, listings) {
      InStepIsRelated(Start(cfg, start), InitTable(cfg), acts, listings);
    }
  }

  // ---------------------------------------------------------------- an example of a time in the present millisecond

  /** A clock with a fraction of a millisecond: the SQLite store rounds both times down, so a delayed message becomes
      visible there first. */
  lemma SubMillisecondDiffers()
    ensures var cfg := Config(false, false, 30, 0, false, 0);
            var m := Message("a", "", "", "", 0, 0, false, NO_HANDLE, 0, 0, 0);
            var s := Send(Init(cfg), 500_000, m, 1).0;
            var t := Insert(InitTable(cfg), 500_000, m, 1).0;
            VisibleCount(s, SECOND + 400_000) == 0 && "a" in VisibleRows(t, SECOND + 400_000)
  {
    var cfg := Config(false, false, 30, 0, false, 0);
    var m := Message("a", "", "", "", 0, 0, false, NO_HANDLE, 0, 0, 0);
    var s := Send(Init(cfg), 500_000, m, 1).0;
    var t := Insert(InitTable(cfg), 500_000, m, 1).0;
    assert |s.entries| == 1 && s.entries[..0] == [] && s.entries[0].visibleAt == SECOND + 500_000;
    assert CountIf(s.entries[..0], (e: Entry) => e.visibleAt <= SECOND + 400_000) == 0;
    assert Millis(SECOND + 500_000) == 1000 && Millis(SECOND + 400_000) == 1000;
    assert t.rows["a"].visibleAt == 1000;
  }
}
