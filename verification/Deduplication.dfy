/** Deduplication in a FIFO store is exact: five minutes, to the nanosecond, over any run. */
module Deduplication {
  import opened StoreTypes
  import opened MemorySpec
  import opened MemoryInvariants
  import opened MemoryRuns

  datatype Accepted = Accepted(id: string, time: int)

  /** The sends with a deduplication id accepted since the last purge, oldest first. */
  function Log(w: World, acts: seq<Action>): seq<Accepted> {
    if acts == [] then []
    else
      var before := acts[..|acts| - 1];
      LogStep(Run(w, before), acts[|acts| - 1], Log(w, before))
  }

  function LogStep(w: World, a: Action, log: seq<Accepted>): seq<Accepted> {
    if a.DoPurge? then []
    else if Accepts(w, a) && EffectiveDedupId(w.store.cfg, a.msg) != ""
    then log + [Accepted(EffectiveDedupId(w.store.cfg, a.msg), w.now)]
    else log
  }

  /** Some send with this id was accepted at most five minutes before `now`. */
  ghost predicate SeenRecently(log: seq<Accepted>, id: string, now: int) {
    exists r :: r in log && r.id == id && now - r.time <= DEDUP_WINDOW
  }

  /** The cache against the log: each cached expiry stems from an accepted send, and a send still inside its window
      is cached. */
  ghost predicate CacheOk(dedup: map<string, int>, now: int, log: seq<Accepted>) {
    && (forall r :: r in log ==> r.time <= now)
    && (forall id :: id in dedup ==> Accepted(id, dedup[id] - DEDUP_WINDOW) in log)
    && (forall r :: r in log && now - r.time <= DEDUP_WINDOW ==>
        r.id in dedup && dedup[r.id] >= r.time + DEDUP_WINDOW)
  }

  /** Equal ids in the log lie more than five minutes apart. */
  ghost predicate Spaced(log: seq<Accepted>) {
    forall i, j :: 0 <= i < j < |log| && log[i].id == log[j].id ==> log[j].time - log[i].time > DEDUP_WINDOW
  }

  lemma CleanCache(dedup: map<string, int>, now: int, log: seq<Accepted>, id: string)
    requires CacheOk(dedup, now, log)
    ensures CacheOk(CleanDedup(dedup, now), now, log)
    ensures id in CleanDedup(dedup, now) <==> SeenRecently(log, id, now)
  {
    if id in CleanDedup(dedup, now) {
      assert Accepted(id, dedup[id] - DEDUP_WINDOW) in log;
    }
    if SeenRecently(log, id, now) {
      var r :| r in log && r.id == id && now - r.time <= DEDUP_WINDOW;
    }
  }

  lemma AddToCache(dedup: map<string, int>, now: int, log: seq<Accepted>, id: string)
    requires CacheOk(dedup, now, log)
    ensures CacheOk(dedup[id := now + DEDUP_WINDOW], now, log + [Accepted(id, now)])
  {
    var log' := log + [Accepted(id, now)];
    var dedup' := dedup[id := now + DEDUP_WINDOW];
    assert log'[|log|] == Accepted(id, now);
    forall k | k in dedup' ensures Accepted(k, dedup'[k] - DEDUP_WINDOW) in log' {
      if k != id { assert k in dedup; }
    }
  }

  lemma AddSpaced(log: seq<Accepted>, id: string, now: int)
    requires Spaced(log) && !SeenRecently(log, id, now)
    ensures Spaced(log + [Accepted(id, now)])
  {
    var log' := log + [Accepted(id, now)];
    forall i, j | 0 <= i < j < |log'| && log'[i].id == log'[j].id ensures log'[j].time - log'[i].time > DEDUP_WINDOW {
      assert log[i] in log;
    }
  }

  /** Only sends and purges touch the cache. */
  lemma DedupAfter(w: World, a: Action)
    requires !a.DoSend? && !a.DoPurge?
    ensures Step(w, a).store.dedup == w.store.dedup
  {
    if a.DoReceive? && !w.store.closed {
      ScanConfig(Expire(w.store, w.now), 0, w.now, a.max, w.store.cfg.EffectiveVisibility(a.requested), []);
    }
  }

  /** What a send makes of the cache and the log, given the id it computed. */
  ghost predicate SentCache(dedup: map<string, int>, log: seq<Accepted>, now: int, id: string, closed: bool,
                            dedup': map<string, int>, log': seq<Accepted>) {
    var cleaned := CleanDedup(dedup, now);
    if closed then dedup' == dedup && log' == log
    else if id == "" || id in cleaned then dedup' == cleaned && log' == log
    else dedup' == cleaned[id := now + DEDUP_WINDOW] && log' == log + [Accepted(id, now)]
  }

  lemma SentCacheOk(dedup: map<string, int>, log: seq<Accepted>, now: int, id: string, closed: bool,
                    dedup': map<string, int>, log': seq<Accepted>)
    requires CacheOk(dedup, now, log) && Spaced(log)
    requires SentCache(dedup, log, now, id, closed, dedup', log')
    ensures CacheOk(dedup', now, log') && Spaced(log')
  {
    CleanCache(dedup, now, log, id);
    if !closed && id != "" && id !in CleanDedup(dedup, now) {
      AddToCache(CleanDedup(dedup, now), now, log, id);
      AddSpaced(log, id, now);
    }
  }

  lemma SendCache(w: World, a: Action, log: seq<Accepted>)
    requires a.DoSend? && w.store.cfg.isFifo
    ensures SentCache(w.store.dedup, log, w.now, EffectiveDedupId(w.store.cfg, a.msg), w.store.closed,
                      Step(w, a).store.dedup, LogStep(w, a, log))
  {
  }

  lemma CacheLater(dedup: map<string, int>, now: int, now': int, log: seq<Accepted>)
    requires CacheOk(dedup, now, log) && now <= now'
    ensures CacheOk(dedup, now', log)
  {
  }

  lemma StepCache(w: World, a: Action, log: seq<Accepted>)
    requires w.store.cfg.isFifo && CacheOk(w.store.dedup, w.now, log) && Spaced(log)
    ensures CacheOk(Step(w, a).store.dedup, Step(w, a).now, LogStep(w, a, log)) && Spaced(LogStep(w, a, log))
  {
    if a.DoSend? {
      SendCache(w, a, log);
      SentCacheOk(w.store.dedup, log, w.now, EffectiveDedupId(w.store.cfg, a.msg), w.store.closed,
                  Step(w, a).store.dedup, LogStep(w, a, log));
    } else if a.DoPurge? {
      assert Step(w, a).store.dedup == map[];
    } else {
      DedupAfter(w, a);
      StepConfig(w, a);
      CacheLater(w.store.dedup, w.now, Step(w, a).now, log);
    }
  }

  lemma {:induction false} RunCache(cfg: Config, start: int, acts: seq<Action>)
    requires cfg.isFifo
    ensures CacheOk(Run(Start(cfg, start), acts).store.dedup, Run(Start(cfg, start), acts).now, Log(Start(cfg, start), acts))
    ensures Spaced(Log(Start(cfg, start), acts))
  {
    if acts != [] {
      var before := acts[..|acts| - 1];
      RunCache(cfg, start, before);
      RunConfig(Start(cfg, start), before);
      StepCache(Run(Start(cfg, start), before), acts[|acts| - 1], Log(Start(cfg, start), before));
    }
  }

  /** A send with an id is dropped if and only if one with the same id was accepted at most five minutes before
      (since the last purge); a dropped send uses no sequence number and stores nothing. */
  lemma DroppedIffSeenRecently(cfg: Config, start: int, acts: seq<Action>, msg: Message, delay: int)
    requires cfg.isFifo && EffectiveDedupId(cfg, msg) != ""
    ensures var w := Run(Start(cfg, start), acts);
            var (s', result) := Send(w.store, w.now, msg, delay);
            !w.store.closed ==>
              && (result.SendDuplicate? <==> SeenRecently(Log(Start(cfg, start), acts), EffectiveDedupId(cfg, msg), w.now))
              && (result.SendDuplicate? ==> s' == w.store.(dedup := s'.dedup))
              && (!result.SendDuplicate? ==>
                  result.SendAccepted? && result.msg.sequenceNumber == s'.sequence == w.store.sequence + 1)
  {
    RunCache(cfg, start, acts);
    RunConfig(Start(cfg, start), acts);
    var w := Run(Start(cfg, start), acts);
    CleanCache(w.store.dedup, w.now, Log(Start(cfg, start), acts), EffectiveDedupId(cfg, msg));
  }

  /** Two accepted sends with the same id, with no purge between them, are more than five minutes apart. */
  lemma AcceptedTwiceFarApart(cfg: Config, start: int, acts: seq<Action>, i: nat, j: nat)
    requires cfg.isFifo
    requires i < j < |Log(Start(cfg, start), acts)|
    requires Log(Start(cfg, start), acts)[i].id == Log(Start(cfg, start), acts)[j].id
    ensures Log(Start(cfg, start), acts)[j].time - Log(Start(cfg, start), acts)[i].time > DEDUP_WINDOW
  {
    RunCache(cfg, start, acts);
  }
}
