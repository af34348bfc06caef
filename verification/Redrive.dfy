/** The redrive hand-off between two queues: how the manager finds a dead-letter queue and what is kept on the way. */
module Redrive {
  import opened StoreTypes
  import opened MemorySpec
  import opened MemoryInvariants
  import opened MemoryRuns
  import opened Fates

  // ---------------------------------------------------------------- queue ARNs

  /** Position of the last colon, or -1. */
  function LastColon(arn: string): (i: int)
    ensures -1 <= i < |arn|
    ensures i >= 0 ==> arn[i] == ':'
    ensures forall j :: i < j < |arn| ==> arn[j] != ':'
  {
    if arn == [] then -1
    else if arn[|arn| - 1] == ':' then |arn| - 1
    else LastColon(arn[..|arn| - 1])
  }

  /** The queue name an ARN is looked up under; None when there is no colon. */
  function NameOfArn(arn: string): Option<string> {
    if LastColon(arn) >= 0 then Some(arn[LastColon(arn) + 1..]) else None
  }

  function BuildQueueArn(region: string, accountId: string, name: string): string {
    "arn:aws:sqs:" + region + ":" + accountId + ":" + name
  }

  /** Looking up the ARN the manager built finds the queue exactly when its name has no colon. */
  lemma ArnFindsItsQueue(region: string, accountId: string, name: string)
    ensures NameOfArn(BuildQueueArn(region, accountId, name)) == Some(name) <==> ':' !in name
  {
    var arn := BuildQueueArn(region, accountId, name);
    var at := |arn| - |name| - 1;
    assert arn[at] == ':' && arn[at + 1..] == name;
    assert forall j :: 0 <= j < |name| ==> name[j] == arn[at + 1 + j];
    if ':' !in name {
      assert LastColon(arn) == at;
    } else {
      var j :| 0 <= j < |name| && name[j] == ':';
      assert arn[at + 1 + j] == ':';
      assert LastColon(arn) > at;
    }
  }

  // ---------------------------------------------------------------- one redrive

  datatype Outcome = QueueNotFound | Refused | Swallowed | Landed(msg: Message)

  function OutcomeOf(r: SendResult): Outcome {
    match r
    case SendClosed => Refused
    case SendDuplicate => Swallowed
    case SendAccepted(m) => Landed(m)
  }

  /** redriveMessage: the message is lost when the queue is missing or closed, and swallowed when a FIFO queue takes it
      for a duplicate. */
  function RedriveMessage(queues: map<string, State>, now: int, arn: string, msg: Message): (map<string, State>, Outcome) {
    match NameOfArn(arn)
    case None => (queues, QueueNotFound)
    case Some(name) =>
      if name !in queues then (queues, QueueNotFound)
      else
        var (s, r) := Send(queues[name], now, PrepareForRedrive(msg), 0);
        (queues[name := s], OutcomeOf(r))
  }

  /** A timer of queue `source` goes off; a message at the limit goes to the queue named by `arn`. */
  function FireAndRedrive(queues: map<string, State>, now: int, source: string, arn: string, t: nat)
    : (map<string, State>, Option<Outcome>)
    requires source in queues
  {
    var (s, out) := Fire(queues[source], now, t);
    var rest := queues[source := s];
    if out.None? then (rest, None)
    else
      var (after, outcome) := RedriveMessage(rest, now, arn, out.value);
      (after, Some(outcome))
  }

  /** The queue would take a message with this deduplication id for a duplicate. */
  predicate TakesForDuplicate(s: State, now: int, msg: Message) {
    s.cfg.isFifo && EffectiveDedupId(s.cfg, msg) != "" && EffectiveDedupId(s.cfg, msg) in CleanDedup(s.dedup, now)
  }

  /** A redrive into another queue keeps the two queues' total exactly when that queue exists, is open and does not take
      the message for a duplicate. It then arrives last, visible now, never received and without a handle. */
  lemma RedriveKeepsTotal(queues: map<string, State>, now: int, source: string, arn: string, t: nat)
    requires source in queues && Inv(queues[source]) && RedriveFires(queues[source], now, t)
    requires NameOfArn(arn) != Some(source)
    ensures var (after, outcome) := FireAndRedrive(queues, now, source, arn, t);
            var lost := Fire(queues[source], now, t).1.value;
            var target := NameOfArn(arn);
            && after.Keys == queues.Keys && outcome.Some?
            && |after[source].entries| == |queues[source].entries| - 1
            && (outcome.value.Landed? <==>
                target.Some? && target.value in queues && !queues[target.value].closed
                && !TakesForDuplicate(queues[target.value], now, lost))
            && (target.Some? && target.value in queues ==>
                var was, got := queues[target.value].entries, after[target.value].entries;
                if outcome.value.Landed? then
                  && |got| == |was| + 1 && got[..|was|] == was
                  && var e := got[|was|];
                     e.receiveCount == 0 && e.handle == NO_HANDLE && e.visibleAt == now && e.msg.receiveCount == 0
                     && e.msg.id == lost.id && e.msg.body == lost.body && e.msg.groupId == lost.groupId
                else got == was)
            && forall name :: name in queues && name != source && Some(name) != target ==> after[name] == queues[name]
  {
    TimerFindsItsMessage(queues[source], t);
    var (s, out) := Fire(queues[source], now, t);
    RedriveFireKeys(queues[source], now, t);
    var target := NameOfArn(arn);
    if target.Some? && target.value in queues {
      SendEffect(queues[target.value], now, PrepareForRedrive(out.value));
    }
  }

  lemma SendEffect(s: State, now: int, msg: Message)
    ensures var (s', r) := Send(s, now, msg, 0);
            && (r.SendAccepted? <==> !s.closed && !TakesForDuplicate(s, now, msg))
            && (if r.SendAccepted? then
                  && |s'.entries| == |s.entries| + 1 && s'.entries[..|s.entries|] == s.entries
                  && s'.entries[|s.entries|] == Entry(s.nextKey, r.msg, now, NO_HANDLE, 0, None, None)
                  && r.msg.id == msg.id && r.msg.body == msg.body && r.msg.groupId == msg.groupId
                  && r.msg.receiveCount == msg.receiveCount
                else s'.entries == s.entries)
  {
  }

  // ---------------------------------------------------------------- whole runs of a queue and its dead-letter queue

  /** A queue and its dead-letter queue under one clock. */
  datatype Pair = Pair(now: int, source: State, dlq: State)

  datatype PairAction = OnSource(a: Action) | OnDlq(a: Action) | Elapse(d: nat)

  /** The message the source hands over in this step, if any. */
  function HandedOver(p: Pair, a: PairAction): Option<Message> {
    if a.OnSource? && a.a.DoFire? then Fire(p.source, p.now, a.a.timer).1 else None
  }

  function PairStep(p: Pair, a: PairAction): Pair {
    match a
    case Elapse(d) => p.(now := p.now + d)
    case OnDlq(b) => p.(dlq := Step(World(p.now, p.dlq), b).store)
    case OnSource(b) =>
      var p' := p.(source := Step(World(p.now, p.source), b).store);
      match HandedOver(p, a)
      case None => p'
      case Some(m) => p'.(dlq := Send(p.dlq, p.now, PrepareForRedrive(m), 0).0)
  }

  function PairRun(p: Pair, acts: seq<PairAction>): Pair {
    if acts == [] then p else PairStep(PairRun(p, acts[..|acts| - 1]), acts[|acts| - 1])
  }

  /** What each store sees of one step. */
  function SeenBySource(a: PairAction): seq<Action> {
    match a
    case Elapse(d) => [DoTick(d)]
    case OnDlq(_) => []
    case OnSource(b) => [b]
  }

  function SeenByDlq(p: Pair, a: PairAction): seq<Action> {
    match a
    case Elapse(d) => [DoTick(d)]
    case OnDlq(b) => [b]
    case OnSource(_) => match HandedOver(p, a) case None => [] case Some(m) => [DoSend(PrepareForRedrive(m), 0)]
  }

  function SourceActs(p: Pair, acts: seq<PairAction>): seq<Action> {
    if acts == [] then [] else SourceActs(p, acts[..|acts| - 1]) + SeenBySource(acts[|acts| - 1])
  }

  function DlqActs(p: Pair, acts: seq<PairAction>): seq<Action> {
    if acts == [] then []
    else DlqActs(p, acts[..|acts| - 1]) + SeenByDlq(PairRun(p, acts[..|acts| - 1]), acts[|acts| - 1])
  }

  /** Only Elapse moves the shared clock. */
  predicate SharedClock(acts: seq<PairAction>) {
    forall i :: 0 <= i < |acts| ==> (acts[i].OnSource? || acts[i].OnDlq?) ==> !acts[i].a.DoTick?
  }

  /** In a pair each store goes through an ordinary run of its own, so all that is proved of single stores holds of
      both; to the dead-letter queue a redrive is a send. */
  lemma {:induction false} PairIsTwoRuns(p: Pair, acts: seq<PairAction>)
    requires SharedClock(acts)
    ensures var q := PairRun(p, acts);
            && Run(World(p.now, p.source), SourceActs(p, acts)) == World(q.now, q.source)
            && Run(World(p.now, p.dlq), DlqActs(p, acts)) == World(q.now, q.dlq)
  {
    if acts != [] {
      hide Step, PairStep, SeenBySource, SeenByDlq;
      var before, a := acts[..|acts| - 1], acts[|acts| - 1];
      PairIsTwoRuns(p, before);
      RunOneMore(World(p.now, p.source), SourceActs(p, before), SeenBySource(a));
      RunOneMore(World(p.now, p.dlq), DlqActs(p, before), SeenByDlq(PairRun(p, before), a));
      SourceSees(PairRun(p, before), a);
      DlqSees(PairRun(p, before), a);
    }
  }

  function StepAll(w: World, acts: seq<Action>): World {
    if acts == [] then w else Step(w, acts[0])
  }

  lemma SourceSees(p: Pair, a: PairAction)
    requires a.Elapse? || !a.a.DoTick?
    ensures StepAll(World(p.now, p.source), SeenBySource(a)) == World(PairStep(p, a).now, PairStep(p, a).source)
  {
  }

  lemma DlqSees(p: Pair, a: PairAction)
    requires a.Elapse? || !a.a.DoTick?
    ensures StepAll(World(p.now, p.dlq), SeenByDlq(p, a)) == World(PairStep(p, a).now, PairStep(p, a).dlq)
  {
  }

  lemma RunOneMore(w: World, acts: seq<Action>, more: seq<Action>)
    requires |more| <= 1
    ensures Run(w, acts + more) == StepAll(Run(w, acts), more)
  {
    if more == [] {
      assert acts + more == acts;
    } else {
      assert (acts + more)[..|acts|] == acts;
    }
  }

  /** How many messages the dead-letter queue accepted from its own senders. */
  function DirectSends(p: Pair, acts: seq<PairAction>): nat {
    if acts == [] then 0
    else
      var before, a := acts[..|acts| - 1], acts[|acts| - 1];
      DirectSends(p, before)
      + if a.OnDlq? && Accepts(World(PairRun(p, before).now, PairRun(p, before).dlq), a.a) then 1 else 0
  }

  ghost function RedrivenKeys(met: map<nat, Fate>): set<nat> {
    set k | k in met && met[k].Redriven?
  }

  predicate NeverClosed(acts: seq<PairAction>) {
    forall i :: 0 <= i < |acts| && acts[i].OnDlq? ==> !acts[i].a.DoClose?
  }

  /** No redrive is lost and none happens twice: an open standard dead-letter queue has accepted exactly its own
      senders' messages and one message for each message the source redrove. */
  lemma {:induction false} RedrivesLand(cfg: Config, dlqCfg: Config, start: int, acts: seq<PairAction>)
    requires SharedClock(acts) && NeverClosed(acts) && !dlqCfg.isFifo
    ensures var p := Pair(start, Init(cfg), Init(dlqCfg));
            var q := PairRun(p, acts);
            && !q.dlq.closed && !q.dlq.cfg.isFifo
            && q.dlq.nextKey == DirectSends(p, acts) + |RedrivenKeys(Met(Start(cfg, start), SourceActs(p, acts)))|
  {
    var p := Pair(start, Init(cfg), Init(dlqCfg));
    if acts == [] {
      assert RedrivenKeys(Met(Start(cfg, start), [])) == {};
    } else {
      var before, a := acts[..|acts| - 1], acts[|acts| - 1];
      RedrivesLand(cfg, dlqCfg, start, before);
      PairIsTwoRuns(p, before);
      RunInv(cfg, start, SourceActs(p, before));
      var q := PairRun(p, before);
      MetOneMore(cfg, start, SourceActs(p, before), SeenBySource(a));
      StoredOrDeparted(cfg, start, SourceActs(p, before));
      SourceRedrives(q, a, Met(Start(cfg, start), SourceActs(p, before)));
      DlqGains(q, a);
    }
  }

  /** What the dead-letter queue accepts in one step. */
  lemma DlqGains(p: Pair, a: PairAction)
    requires !p.dlq.closed && !p.dlq.cfg.isFifo && !(a.OnDlq? && a.a.DoClose?)
    ensures var q := PairStep(p, a);
            && !q.dlq.closed && !q.dlq.cfg.isFifo
            && q.dlq.nextKey == p.dlq.nextKey
               + (if a.OnDlq? && Accepts(World(p.now, p.dlq), a.a) then 1 else 0)
               + (if HandedOver(p, a).Some? then 1 else 0)
  {
    if a.OnDlq? {
      StepConfig(World(p.now, p.dlq), a.a);
      StaysOpen(World(p.now, p.dlq), a.a);
    }
  }

  ghost function MetAfter(p: Pair, a: PairAction, met: map<nat, Fate>): map<nat, Fate> {
    if SeenBySource(a) == [] then met else met + Exits(World(p.now, p.source), SeenBySource(a)[0])
  }

  /** A step adds one redriven key exactly when it hands a message over. */
  lemma SourceRedrives(p: Pair, a: PairAction, met: map<nat, Fate>)
    requires Inv(p.source) && Keys(p.source.entries) !! met.Keys
    ensures |RedrivenKeys(MetAfter(p, a, met))| == |RedrivenKeys(met)| + if HandedOver(p, a).Some? then 1 else 0
  {
    if SeenBySource(a) != [] {
      var b := SeenBySource(a)[0];
      var exits := Exits(World(p.now, p.source), b);
      StepKeys(World(p.now, p.source), b);
      RedrivenSum(met, exits);
      RedriveExits(World(p.now, p.source), b);
    }
  }

  lemma RedrivenSum(met: map<nat, Fate>, exits: map<nat, Fate>)
    requires met.Keys !! exits.Keys
    ensures |RedrivenKeys(met + exits)| == |RedrivenKeys(met)| + |RedrivenKeys(exits)|
  {
    assert RedrivenKeys(met + exits) == RedrivenKeys(met) + RedrivenKeys(exits);
  }

  lemma RedriveExits(w: World, a: Action)
    requires Inv(w.store)
    ensures |RedrivenKeys(Exits(w, a))| == if a.DoFire? && Fire(w.store, w.now, a.timer).1.Some? then 1 else 0
  {
    if a.DoFire? {
      FireKeys(w, a.timer);
      FireExits(w, a.timer);
      assert RedrivenKeys(Exits(w, a)) == Exits(w, a).Keys;
    } else {
      assert RedrivenKeys(Exits(w, a)) == {};
    }
  }

  lemma StaysOpen(w: World, a: Action)
    requires !w.store.closed && !a.DoClose?
    ensures !Step(w, a).store.closed
  {
    if a.DoReceive? {
      ScanConfig(Expire(w.store, w.now), 0, w.now, a.max, w.store.cfg.EffectiveVisibility(a.requested), []);
    }
  }

  lemma MetOneMore(cfg: Config, start: int, acts: seq<Action>, more: seq<Action>)
    requires |more| <= 1
    ensures var met := Met(Start(cfg, start), acts);
            Met(Start(cfg, start), acts + more)
            == if more == [] then met else met + Exits(Run(Start(cfg, start), acts), more[0])
  {
    if more == [] {
      assert acts + more == acts;
    } else {
      assert (acts + more)[..|acts|] == acts;
    }
  }
}
