/** Every accepted message is stored or has left the store exactly once, for exactly one reason. */
module Fates {
  import opened StoreTypes
  import opened MemorySpec
  import opened MemoryInvariants
  import opened MemoryRuns
  import opened ReceivePass

  datatype Fate = Deleted(handle: Handle) | Redriven(receiveCount: nat) | Expired | Purged

  ghost function Keys(es: seq<Entry>): set<nat> {
    set e | e in es :: e.key
  }

  ghost function TooOld(s: State, now: int): set<nat> {
    set e | e in s.entries && e.msg.sentTimestamp < s.cfg.Cutoff(now) :: e.key
  }

  ghost function HeldUnder(s: State, h: Handle): set<nat> {
    set e | e in s.entries && e.handle == h && h != NO_HANDLE :: e.key
  }

  ghost function AllMeet(keys: set<nat>, fate: Fate): map<nat, Fate> {
    map k | k in keys :: fate
  }

  /** Entry i is due for redrive when timer t goes off. */
  predicate RedriveFires(s: State, now: int, t: nat) {
    && t in s.armed && s.armed[t].deadline <= now
    && !(s.armed[t].checksClosed && s.closed)
    && var i := FindKey(s.entries, s.armed[t].key);
       i < |s.entries| && s.cfg.RedriveDue(s.entries[i].receiveCount)
  }

  /** Which messages leave in this step, and why. */
  ghost function Exits(w: World, a: Action): map<nat, Fate> {
    var s := w.store;
    match a
    case DoReceive(_, _) =>
      if s.closed then map[]
      else AllMeet(TooOld(s, w.now), Expired)
    case DoDelete(h) => AllMeet(HeldUnder(s, h), Deleted(h))
    case DoPurge => AllMeet(Keys(s.entries), Purged)
    case DoFire(t) =>
      if RedriveFires(s, w.now, t)
      then map[s.armed[t].key := Redriven(s.entries[FindKey(s.entries, s.armed[t].key)].receiveCount)]
      else map[]
    case _ => map[]
  }

  /** The fates met so far in a run. */
  ghost function Met(w: World, acts: seq<Action>): map<nat, Fate> {
    if acts == [] then map[]
    else Met(w, acts[..|acts| - 1]) + Exits(Run(w, acts[..|acts| - 1]), acts[|acts| - 1])
  }

  // ---------------------------------------------------------------- the stored keys after a step

  lemma KeysByPosition(es: seq<Entry>, es': seq<Entry>)
    requires |es| == |es'| && forall i :: 0 <= i < |es| ==> es[i].key == es'[i].key
    ensures Keys(es) == Keys(es')
  {
    forall k ensures k in Keys(es) <==> k in Keys(es') {
      if k in Keys(es) { var i :| 0 <= i < |es| && es[i].key == k; assert es'[i] in es'; }
      if k in Keys(es') { var i :| 0 <= i < |es'| && es'[i].key == k; assert es[i] in es; }
    }
  }

  lemma ReceiveKeys(w: World, max: int, requested: int)
    requires Inv(w.store)
    ensures Keys(Receive(w.store, w.now, max, requested).0.entries)
            == Keys(w.store.entries) - Exits(w, DoReceive(max, requested)).Keys
  {
    var s := w.store;
    if !s.closed {
      var kept := Expire(s, w.now);
      var s' := Receive(s, w.now, max, requested).0;
      var p := Picked(kept, w.now, max);
      FirstEligible(s, w.now, max, requested);
      forall i | 0 <= i < |kept.entries| ensures kept.entries[i].key == s'.entries[i].key {
        if i in p { var k :| 0 <= k < |p| && p[k] == i; }
      }
      KeysByPosition(kept.entries, s'.entries);
      KeptMembers(s.entries, s.cfg.Cutoff(w.now));
      forall k | k in Keys(s.entries)
        ensures k in Keys(kept.entries) <==> k !in Exits(w, DoReceive(max, requested))
      {
        var e :| e in s.entries && e.key == k;
        forall e' | e' in s.entries && e'.key == k ensures e' == e { SameKeySameEntry(s, e, e'); }
      }
    }
  }

  lemma RemovedKeys(s: State, i: nat)
    requires KeysOk(s) && i < |s.entries|
    ensures Keys(Remove(s, i).entries) == Keys(s.entries) - {s.entries[i].key}
  {
    RemovedMembers(s, i);
  }

  lemma HeldUnderOne(s: State, h: Handle)
    requires Inv(s)
    ensures var i := FindHandle(s.entries, h);
            HeldUnder(s, h) == if i < |s.entries| then {s.entries[i].key} else {}
  {
    var i := FindHandle(s.entries, h);
    if i < |s.entries| {
      assert s.entries[i] in s.entries;
      forall e | e in s.entries && e.handle == h ensures e.key == s.entries[i].key {
        assert e.key < s.entries[i].key ==> PairOk(s, e, s.entries[i]);
        assert s.entries[i].key < e.key ==> PairOk(s, s.entries[i], e);
      }
    }
  }

  lemma DeleteKeys(w: World, h: Handle)
    requires Inv(w.store)
    ensures Keys(Delete(w.store, h).0.entries) == Keys(w.store.entries) - Exits(w, DoDelete(h)).Keys
  {
    var i := FindHandle(w.store.entries, h);
    HeldUnderOne(w.store, h);
    if i < |w.store.entries| { RemovedKeys(w.store, i); }
  }

  lemma FireKeys(w: World, t: nat)
    requires Inv(w.store)
    ensures Keys(Fire(w.store, w.now, t).0.entries) == Keys(w.store.entries) - Exits(w, DoFire(t)).Keys
    ensures Exits(w, DoFire(t)).Keys <= Keys(w.store.entries)
    ensures Fire(w.store, w.now, t).1.Some? <==> RedriveFires(w.store, w.now, t)
  {
    FireExits(w, t);
    if RedriveFires(w.store, w.now, t) { RedriveFireKeys(w.store, w.now, t); } else { SilentFireKeys(w.store, w.now, t); }
  }

  lemma FireExits(w: World, t: nat)
    ensures Exits(w, DoFire(t)).Keys == if RedriveFires(w.store, w.now, t) then {w.store.armed[t].key} else {}
  {
  }

  lemma RedriveFireKeys(s: State, now: int, t: nat)
    requires Inv(s) && RedriveFires(s, now, t)
    ensures Keys(Fire(s, now, t).0.entries) == Keys(s.entries) - {s.armed[t].key}
    ensures s.armed[t].key in Keys(s.entries) && Fire(s, now, t).1.Some?
  {
    TimerFindsItsMessage(s, t);
    var i := FindKey(s.entries, s.armed[t].key);
    var s1 := s.(armed := s.armed - {t});
    assert Fire(s, now, t).0.entries == Remove(s1, i).entries;
    RemovedKeys(s1, i);
    assert s.entries[i] in s.entries;
  }

  lemma SilentFireKeys(s: State, now: int, t: nat)
    requires Inv(s) && !RedriveFires(s, now, t)
    ensures Keys(Fire(s, now, t).0.entries) == Keys(s.entries) && Fire(s, now, t).1.None?
  {
    if t in s.armed && s.armed[t].deadline <= now { TimerFindsItsMessage(s, t); }
    KeysByPosition(s.entries, Fire(s, now, t).0.entries);
  }

  lemma SendKeys(w: World, msg: Message, delay: int)
    ensures Keys(Send(w.store, w.now, msg, delay).0.entries)
            == Keys(w.store.entries) + if Accepts(w, DoSend(msg, delay)) then {w.store.nextKey} else {}
  {
    var s' := Send(w.store, w.now, msg, delay).0;
    if Accepts(w, DoSend(msg, delay)) {
      var n := s'.entries[|w.store.entries|];
      assert s'.entries == w.store.entries + [n];
      assert n in s'.entries;
    }
  }

  /** A step removes exactly the keys that exit and adds exactly the key it accepts. */
  lemma StepKeys(w: World, a: Action)
    requires Inv(w.store)
    ensures Exits(w, a).Keys <= Keys(w.store.entries)
    ensures Keys(Step(w, a).store.entries)
            == Keys(w.store.entries) - Exits(w, a).Keys + if Accepts(w, a) then {w.store.nextKey} else {}
  {
    var s := w.store;
    match a
    case DoSend(msg, delay) => SendKeys(w, msg, delay);
    case DoReceive(max, requested) => ReceiveKeys(w, max, requested);
    case DoDelete(h) => DeleteKeys(w, h);
    case DoChangeVisibility(h, timeout) =>
      KeysByPosition(s.entries, ChangeVisibility(s, w.now, h, timeout).0.entries);
    case DoFire(t) => FireKeys(w, t);
    case _ =>
  }

  /** A receive on an open store drops exactly the messages older than the retention period, four days by default. */
  lemma ExpiredIffOlder(w: World, max: int, requested: int, e: Entry)
    requires Inv(w.store) && !w.store.closed && e in w.store.entries
    ensures var retention := if w.store.cfg.retentionPeriod <= 0 then 4 * 86_400 else w.store.cfg.retentionPeriod;
            && (e.key in Exits(w, DoReceive(max, requested)) <==> w.now - e.msg.sentTimestamp > retention * SECOND)
            && (e.key in Keys(Receive(w.store, w.now, max, requested).0.entries) <==>
                w.now - e.msg.sentTimestamp <= retention * SECOND)
  {
    ReceiveKeys(w, max, requested);
    forall d | d in w.store.entries && d.key == e.key ensures d == e { SameKeySameEntry(w.store, d, e); }
    assert e.key in Keys(w.store.entries);
  }

  // ---------------------------------------------------------------- whole runs

  /** Conservation: the accepted messages are the stored ones and the departed ones, and none is both. */
  lemma {:induction false} StoredOrDeparted(cfg: Config, start: int, acts: seq<Action>)
    ensures var s := Run(Start(cfg, start), acts).store;
            var met := Met(Start(cfg, start), acts);
            && Keys(s.entries) !! met.Keys
            && forall k: nat :: k < s.nextKey <==> k in Keys(s.entries) || k in met.Keys
  {
    if acts != [] {
      var before, a := acts[..|acts| - 1], acts[|acts| - 1];
      var w := Run(Start(cfg, start), before);
      StoredOrDeparted(cfg, start, before);
      RunInv(cfg, start, before);
      StepKeys(w, a);
      StepConfig(w, a);
      Conserve(Keys(w.store.entries), Met(Start(cfg, start), before), Exits(w, a), w.store.nextKey, Accepts(w, a));
    }
  }

  lemma Conserve(stored: set<nat>, met: map<nat, Fate>, exits: map<nat, Fate>, n: nat, grew: bool)
    requires stored !! met.Keys && exits.Keys <= stored
    requires forall k: nat :: k < n <==> k in stored || k in met.Keys
    ensures var stored' := stored - exits.Keys + if grew then {n} else {};
            && stored' !! (met + exits).Keys
            && forall k: nat :: k < n + (if grew then 1 else 0) <==> k in stored' || k in (met + exits).Keys
  {
  }

  /** A message leaves at most once: whatever happens later, the fate it met stays the only one. */
  lemma {:induction false} FateIsFinal(cfg: Config, start: int, acts: seq<Action>, n: nat, k: nat)
    requires n <= |acts| && k in Met(Start(cfg, start), acts[..n])
    ensures k in Met(Start(cfg, start), acts)
    ensures Met(Start(cfg, start), acts)[k] == Met(Start(cfg, start), acts[..n])[k]
    ensures k !in Keys(Run(Start(cfg, start), acts).store.entries)
  {
    StoredOrDeparted(cfg, start, acts);
    if n == |acts| {
      assert acts[..n] == acts;
    } else {
      var before, a := acts[..|acts| - 1], acts[|acts| - 1];
      assert before[..n] == acts[..n];
      FateIsFinal(cfg, start, before, n, k);
      RunInv(cfg, start, before);
      StepKeys(Run(Start(cfg, start), before), a);
    }
  }

  /** Redrive happens only with a callback configured and the receive count at or above a positive limit. */
  lemma {:induction false} RedriveOnlyAtLimit(cfg: Config, start: int, acts: seq<Action>, k: nat)
    requires k in Met(Start(cfg, start), acts) && Met(Start(cfg, start), acts)[k].Redriven?
    ensures cfg.hasRedrive && Met(Start(cfg, start), acts)[k].receiveCount >= cfg.maxReceiveCount > 0
  {
    var before, a := acts[..|acts| - 1], acts[|acts| - 1];
    RunConfig(Start(cfg, start), before);
    if k !in Exits(Run(Start(cfg, start), before), a) {
      RedriveOnlyAtLimit(cfg, start, before, k);
    }
  }
}
