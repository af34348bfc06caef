/** Groups that retention strands: marked in flight although nothing of them is. */
module Stranding {
  import opened StoreTypes
  import opened MemorySpec
  import opened MemoryInvariants
  import opened MemoryRuns
  import opened ReceivePass

  /** Group g counts as in flight although none of its messages is. */
  ghost predicate Stranded(s: State, g: string) {
    && s.cfg.isFifo && g != "" && g in s.inFlight
    && forall e :: e in s.entries && e.msg.groupId == g ==> e.handle == NO_HANDLE
  }

  /** A receive that drops an in-flight message by retention strands the message's group. */
  lemma ExpiryStrands(w: World, max: int, requested: int, e: Entry)
    requires Inv(w.store) && w.store.cfg.isFifo && !w.store.closed
    requires e in w.store.entries && e.msg.sentTimestamp < w.store.cfg.Cutoff(w.now)
    requires e.handle != NO_HANDLE && e.msg.groupId != ""
    ensures Stranded(Receive(w.store, w.now, max, requested).0, e.msg.groupId)
  {
    var s := w.store;
    ExpiryLeavesBlank(s, w.now, e);
    ExpireInv(s, w.now);
    StrandedScan(Expire(s, w.now), 0, w.now, max, s.cfg.EffectiveVisibility(requested), [], e.msg.groupId);
  }

  lemma ExpiryLeavesBlank(s: State, now: int, e: Entry)
    requires Inv(s) && s.cfg.isFifo && e in s.entries && e.msg.sentTimestamp < s.cfg.Cutoff(now)
    requires e.handle != NO_HANDLE && e.msg.groupId != ""
    ensures Stranded(Expire(s, now), e.msg.groupId)
  {
    KeptMembers(s.entries, s.cfg.Cutoff(now));
    assert FifoOk(s, e);
    forall x | x in s.entries && x.msg.groupId == e.msg.groupId && x != e ensures x.handle == NO_HANDLE {
      assert x.key < e.key ==> PairOk(s, x, e);
      assert e.key < x.key ==> PairOk(s, e, x);
      if x.key == e.key { SameKeySameEntry(s, x, e); }
    }
  }

  lemma {:induction false} StrandedScan(s: State, i: nat, now: int, max: int, visibility: int, acc: seq<Message>, g: string)
    requires Inv(s) && !s.closed && Stranded(s, g) && i <= |s.entries|
    ensures Stranded(Scan(s, i, now, max, visibility, acc).0, g)
    decreases |s.entries| - i
  {
    if i < |s.entries| {
      if Deliverable(s, i, now) {
        TakeInv(s, i, now, visibility);
        StrandedTake(s, i, now, visibility, g);
        var s1 := Take(s, i, now, visibility);
        if |acc| + 1 < max { StrandedScan(s1, i + 1, now, max, visibility, acc + [s1.entries[i].msg], g); }
      } else {
        StrandedScan(s, i + 1, now, max, visibility, acc, g);
      }
    }
  }

  lemma StrandedTake(s: State, i: nat, now: int, visibility: int, g: string)
    requires KeysOk(s) && Stranded(s, g) && i < |s.entries| && Deliverable(s, i, now)
    ensures Stranded(Take(s, i, now, visibility), g)
  {
    UpdatedMembers(s, i, Take(s, i, now, visibility).entries[i]);
  }

  /** Only a purge frees a stranded group: every other step leaves it stranded, so none of its messages is
      handed out again. */
  lemma StrandedStays(w: World, a: Action, g: string)
    requires Inv(w.store) && Stranded(w.store, g) && !a.DoPurge?
    ensures Stranded(Step(w, a).store, g)
  {
    var s := w.store;
    match a
    case DoReceive(max, requested) =>
      if !s.closed {
        ExpireInv(s, w.now);
        KeptMembers(s.entries, s.cfg.Cutoff(w.now));
        StrandedScan(Expire(s, w.now), 0, w.now, max, s.cfg.EffectiveVisibility(requested), [], g);
      }
    case DoDelete(h) =>
      var i := FindHandle(s.entries, h);
      if i < |s.entries| { RemovedMembers(s, i); assert s.entries[i] in s.entries; }
    case DoChangeVisibility(h, timeout) => StrandedChange(s, w.now, h, timeout, g);
    case DoFire(t) => StrandedFire(s, w.now, t, g);
    case _ =>
  }

  lemma StrandedChange(s: State, now: int, h: Handle, timeout: int, g: string)
    requires Inv(s) && Stranded(s, g)
    ensures Stranded(ChangeVisibility(s, now, h, timeout).0, g)
  {
    var i := FindHandle(s.entries, h);
    if i < |s.entries| {
      var s' := ChangeVisibility(s, now, h, timeout).0;
      assert s.entries[i] in s.entries && s'.entries == s.entries[i := s'.entries[i]];
      UpdatedMembers(s, i, s'.entries[i]);
    }
  }

  lemma StrandedFire(s: State, now: int, t: nat, g: string)
    requires Inv(s) && Stranded(s, g)
    ensures Stranded(Fire(s, now, t).0, g)
  {
    if t in s.armed && s.armed[t].deadline <= now {
      TimerFindsItsMessage(s, t);
      StrandedCallback(s.(armed := s.armed - {t}), FindKey(s.entries, s.armed[t].key), s.armed[t], g);
    }
  }

  lemma StrandedCallback(s: State, i: nat, timer: Timer, g: string)
    requires KeysOk(s) && Stranded(s, g) && i < |s.entries| && s.entries[i].handle != NO_HANDLE
    ensures Stranded(Callback(s, i, timer).0, g)
  {
    assert s.entries[i] in s.entries;
    RemovedMembers(s, i);
    UpdatedMembers(s, i, Release(s, i).entries[i]);
  }

  /** After a stranding, no run without a purge hands out a message of the group again. */
  lemma {:induction false} StrandedForever(w: World, acts: seq<Action>, g: string, max: int)
    requires Inv(w.store) && Stranded(w.store, g)
    requires forall i :: 0 <= i < |acts| ==> !acts[i].DoPurge?
    ensures var w' := Run(w, acts);
            Inv(w'.store) && Stranded(w'.store, g)
            && forall i :: i in Picked(Expire(w'.store, w'.now), w'.now, max) ==>
                 i < |Expire(w'.store, w'.now).entries| && Expire(w'.store, w'.now).entries[i].msg.groupId != g
  {
    if acts != [] {
      var before := acts[..|acts| - 1];
      StrandedForever(w, before, g, max);
      StepInv(Run(w, before), acts[|acts| - 1]);
      StrandedStays(Run(w, before), acts[|acts| - 1], g);
    }
    var w' := Run(w, acts);
    var kept := Expire(w'.store, w'.now);
    EligibleFromExact(kept, w'.now, 0);
    forall i | i in Picked(kept, w'.now, max) ensures i < |kept.entries| && kept.entries[i].msg.groupId != g {
      assert i in EligibleFrom(kept, w'.now, 0);
    }
  }

  // ---------------------------------------------------------------- nothing else strands a group

  /** If group g counts as in flight, one of its messages is. */
  ghost predicate Backed(s: State, g: string) {
    g in s.inFlight ==> exists e :: e in s.entries && e.msg.groupId == g && e.handle != NO_HANDLE
  }

  /** This step drops, by retention, a message of g that is in flight. */
  ghost predicate DropsInFlight(w: World, a: Action, g: string) {
    && a.DoReceive? && !w.store.closed
    && exists e :: e in w.store.entries && e.msg.groupId == g && e.handle != NO_HANDLE
                   && e.msg.sentTimestamp < w.store.cfg.Cutoff(w.now)
  }

  lemma ExpireBacked(w: World, a: Action, g: string)
    requires Backed(w.store, g) && a.DoReceive? && !w.store.closed && !DropsInFlight(w, a, g)
    ensures Backed(Expire(w.store, w.now), g)
  {
    KeptMembers(w.store.entries, w.store.cfg.Cutoff(w.now));
    if g in w.store.inFlight {
      var e :| e in w.store.entries && e.msg.groupId == g && e.handle != NO_HANDLE;
      assert e in Expire(w.store, w.now).entries;
    }
  }

  lemma TakeBacked(s: State, i: nat, now: int, visibility: int, g: string)
    requires Inv(s) && s.cfg.isFifo && g != "" && Backed(s, g) && i < |s.entries|
    ensures Backed(Take(s, i, now, visibility), g)
  {
    var s' := Take(s, i, now, visibility);
    InvKeys(s);
    UpdatedMembers(s, i, s'.entries[i]);
    StillBacked(s, s', i, g);
  }

  /** Entry i has a handle now: its group is backed by it, the others as before. */
  lemma StillBacked(s: State, s': State, i: nat, g: string)
    requires KeysOk(s) && Backed(s, g) && i < |s.entries| == |s'.entries| && s'.entries == s.entries[i := s'.entries[i]]
    requires s'.entries[i].key == s.entries[i].key && s'.entries[i].msg.groupId == s.entries[i].msg.groupId
    requires s'.inFlight <= s.inFlight + {s.entries[i].msg.groupId} && s'.entries[i].handle != NO_HANDLE
    ensures Backed(s', g)
  {
    UpdatedMembers(s, i, s'.entries[i]);
    assert s'.entries[i] in s'.entries;
    if g in s'.inFlight && g != s.entries[i].msg.groupId {
      var e :| e in s.entries && e.msg.groupId == g && e.handle != NO_HANDLE;
      SameIfSameKey(s, e, s.entries[i]);
      assert e in s'.entries;
    }
  }

  lemma {:induction false} ScanBacked(s: State, i: nat, now: int, max: int, visibility: int, acc: seq<Message>, g: string)
    requires Inv(s) && !s.closed && s.cfg.isFifo && g != "" && Backed(s, g) && i <= |s.entries|
    ensures Backed(Scan(s, i, now, max, visibility, acc).0, g)
    decreases |s.entries| - i
  {
    hide Inv, Backed;
    if i < |s.entries| {
      if Deliverable(s, i, now) {
        TakeInv(s, i, now, visibility);
        TakeBacked(s, i, now, visibility, g);
        var s1 := Take(s, i, now, visibility);
        if |acc| + 1 < max { ScanBacked(s1, i + 1, now, max, visibility, acc + [s1.entries[i].msg], g); }
      } else {
        ScanBacked(s, i + 1, now, max, visibility, acc, g);
      }
    }
  }

  /** Entry i gives up its handle or leaves: its group is freed, the others are backed as before. */
  lemma FreedBacked(s: State, s': State, i: nat, g: string)
    requires KeysOk(s) && Backed(s, g) && i < |s.entries|
    requires s'.inFlight == s.inFlight - {s.entries[i].msg.groupId}
    requires forall e :: e in s.entries && e.key != s.entries[i].key ==> e in s'.entries
    ensures Backed(s', g)
  {
    if g in s'.inFlight {
      var e :| e in s.entries && e.msg.groupId == g && e.handle != NO_HANDLE;
      SameIfSameKey(s, e, s.entries[i]);
    }
  }

  lemma RemoveBacked(s: State, i: nat, g: string)
    requires KeysOk(s) && s.cfg.isFifo && g != "" && Backed(s, g) && i < |s.entries|
    ensures Backed(Remove(s, i), g)
  {
    RemovedMembers(s, i);
    if s.entries[i].msg.groupId != "" {
      FreedBacked(s, Remove(s, i), i, g);
    } else {
      NeutralBacked(s, Remove(s, i), i, g);
    }
  }

  /** Entry i belongs to no group. */
  lemma NeutralBacked(s: State, s': State, i: nat, g: string)
    requires KeysOk(s) && Backed(s, g) && g != "" && i < |s.entries| && s.entries[i].msg.groupId == ""
    requires s'.inFlight == s.inFlight && forall e :: e in s.entries && e.key != s.entries[i].key ==> e in s'.entries
    ensures Backed(s', g)
  {
    if g in s'.inFlight {
      var e :| e in s.entries && e.msg.groupId == g && e.handle != NO_HANDLE;
      SameIfSameKey(s, e, s.entries[i]);
    }
  }

  /** Entry i is released, its timer and visibility whatever they are. */
  lemma ReleaseBacked(s: State, s': State, i: nat, g: string)
    requires KeysOk(s) && s.cfg.isFifo && g != "" && Backed(s, g) && i < |s.entries| == |s'.entries|
    requires s'.entries == s.entries[i := s'.entries[i]] && s'.entries[i].key == s.entries[i].key
    requires s'.inFlight == if s.entries[i].msg.groupId != "" then s.inFlight - {s.entries[i].msg.groupId} else s.inFlight
    ensures Backed(s', g)
  {
    UpdatedMembers(s, i, s'.entries[i]);
    if s.entries[i].msg.groupId != "" {
      FreedBacked(s, s', i, g);
    } else {
      NeutralBacked(s, s', i, g);
    }
  }

  lemma DeleteBacked(s: State, h: Handle, g: string)
    requires KeysOk(s) && s.cfg.isFifo && g != "" && Backed(s, g)
    ensures Backed(Delete(s, h).0, g)
  {
    var i := FindHandle(s.entries, h);
    if i < |s.entries| { RemoveBacked(s, i, g); }
  }

  lemma ChangeBacked(s: State, now: int, h: Handle, timeout: int, g: string)
    requires KeysOk(s) && s.cfg.isFifo && g != "" && Backed(s, g)
    ensures Backed(ChangeVisibility(s, now, h, timeout).0, g)
  {
    var i := FindHandle(s.entries, h);
    if i < |s.entries| {
      var s' := ChangeVisibility(s, now, h, timeout).0;
      assert s'.entries == s.entries[i := s'.entries[i]];
      if timeout == 0 {
        ReleaseBacked(s, s', i, g);
      } else {
        StillBacked(s, s', i, g);
      }
    }
  }

  lemma FireBacked(s: State, now: int, t: nat, g: string)
    requires Inv(s) && s.cfg.isFifo && g != "" && Backed(s, g)
    ensures Backed(Fire(s, now, t).0, g)
  {
    InvKeys(s);
    if t in s.armed && s.armed[t].deadline <= now {
      TimerFindsItsMessage(s, t);
      CallbackBacked(s.(armed := s.armed - {t}), FindKey(s.entries, s.armed[t].key), s.armed[t], g);
    }
  }

  lemma CallbackBacked(s: State, i: nat, timer: Timer, g: string)
    requires KeysOk(s) && s.cfg.isFifo && g != "" && Backed(s, g) && i < |s.entries|
    ensures Backed(Callback(s, i, timer).0, g)
  {
    RemoveBacked(s, i, g);
    ReleaseBacked(s, Release(s, i), i, g);
  }

  lemma SendBacked(s: State, now: int, msg: Message, delay: int, g: string)
    requires Backed(s, g)
    ensures Backed(Send(s, now, msg, delay).0, g)
  {
    if g in s.inFlight {
      var e :| e in s.entries && e.msg.groupId == g && e.handle != NO_HANDLE;
      assert e in Send(s, now, msg, delay).0.entries;
    }
  }

  /** Without such a drop every step leaves every group backed. */
  lemma StepBacked(w: World, a: Action, g: string)
    requires Inv(w.store) && w.store.cfg.isFifo && g != "" && Backed(w.store, g) && !DropsInFlight(w, a, g)
    ensures Backed(Step(w, a).store, g)
  {
    var s := w.store;
    InvKeys(s);
    ExpireInv(s, w.now);
    hide Inv, Send, Delete, ChangeVisibility, Fire, DropsInFlight;
    match a
    case DoSend(msg, delay) => SendBacked(s, w.now, msg, delay, g);
    case DoReceive(max, requested) =>
      if !s.closed {
        ExpireBacked(w, a, g);
        ScanBacked(Expire(s, w.now), 0, w.now, max, s.cfg.EffectiveVisibility(requested), [], g);
      }
    case DoDelete(h) => DeleteBacked(s, h, g);
    case DoChangeVisibility(h, timeout) => ChangeBacked(s, w.now, h, timeout, g);
    case DoFire(t) => FireBacked(s, w.now, t, g);
    case _ =>
  }

  /** The exact cause: after a step a group is stranded if and only if it was before and the step is no purge, or the
      step is a receive that drops a message of the group in flight. */
  lemma StrandedIff(w: World, a: Action, g: string)
    requires Inv(w.store) && w.store.cfg.isFifo && g != ""
    ensures Stranded(Step(w, a).store, g) <==> (Stranded(w.store, g) && !a.DoPurge?) || DropsInFlight(w, a, g)
  {
    StepConfig(w, a);
    if DropsInFlight(w, a, g) {
      var e :| e in w.store.entries && e.msg.groupId == g && e.handle != NO_HANDLE
               && e.msg.sentTimestamp < w.store.cfg.Cutoff(w.now);
      ExpiryStrands(w, a.max, a.requested, e);
    } else if Stranded(w.store, g) {
      if !a.DoPurge? { StrandedStays(w, a, g); }
    } else {
      StepBacked(w, a, g);
    }
  }

  /** Step n of the run drops a message of g in flight, and no purge follows. */
  ghost predicate StrandedAt(w: World, acts: seq<Action>, g: string, n: nat) {
    && n < |acts| && DropsInFlight(Run(w, acts[..n]), acts[n], g)
    && forall m :: n < m < |acts| ==> !acts[m].DoPurge?
  }

  lemma LastStep(w0: World, acts: seq<Action>, g: string)
    requires acts != []
    ensures var before, a := acts[..|acts| - 1], acts[|acts| - 1];
            (exists n: nat :: StrandedAt(w0, acts, g, n)) <==>
              || ((exists n: nat :: StrandedAt(w0, before, g, n)) && !a.DoPurge?)
              || DropsInFlight(Run(w0, before), a, g)
  {
    hide DropsInFlight;
    var before, a := acts[..|acts| - 1], acts[|acts| - 1];
    if n: nat :| StrandedAt(w0, acts, g, n) {
      if n < |acts| - 1 {
        assert before[..n] == acts[..n];
        assert StrandedAt(w0, before, g, n);
      }
    }
    if n: nat :| StrandedAt(w0, before, g, n) && !a.DoPurge? {
      assert before[..n] == acts[..n];
      assert StrandedAt(w0, acts, g, n);
    }
    if DropsInFlight(Run(w0, before), a, g) { assert StrandedAt(w0, acts, g, |acts| - 1); }
  }

  /** Over whole runs: a group is stranded if and only if, since the last purge, a receive dropped a message of it
      that was in flight. */
  lemma {:induction false} RunStrandedIff(cfg: Config, start: int, acts: seq<Action>, g: string)
    requires cfg.isFifo && g != ""
    ensures Stranded(Run(Start(cfg, start), acts).store, g) <==> exists n: nat :: StrandedAt(Start(cfg, start), acts, g, n)
  {
    if acts != [] {
      var before := acts[..|acts| - 1];
      RunStrandedIff(cfg, start, before, g);
      RunInv(cfg, start, before);
      RunConfig(Start(cfg, start), before);
      hide Inv, DropsInFlight, StrandedAt;
      StrandedIff(Run(Start(cfg, start), before), acts[|acts| - 1], g);
      LastStep(Start(cfg, start), acts, g);
    }
  }

  // ---------------------------------------------------------------- a run that strands

  /** It takes four steps, on any FIFO queue: a message of a group is sent and received, more than the retention period
      goes by before its visibility timeout is handled, and somebody receives again. */
  lemma FourStepsStrand(cfg: Config, start: int, m: Message, visibility: int, elapsed: nat)
    requires cfg.isFifo && m.groupId != ""
    requires elapsed > (if cfg.retentionPeriod <= 0 then DEFAULT_RETENTION else cfg.retentionPeriod) * SECOND
    ensures var acts := [DoSend(m, 0), DoReceive(1, visibility), DoTick(elapsed), DoReceive(1, visibility)];
            Stranded(Run(Start(cfg, start), acts).store, m.groupId)
  {
    var w0 := Start(cfg, start);
    var acts := [DoSend(m, 0), DoReceive(1, visibility), DoTick(elapsed), DoReceive(1, visibility)];
    assert acts[..3][..2][..1] == [acts[0]] && [acts[0]][..0] == [] && acts[..3][..2] == [acts[0], acts[1]];
    var w1 := Step(w0, acts[0]);
    var w2 := Step(w1, acts[1]);
    var w3 := Step(w2, acts[2]);
    assert Run(w0, [acts[0]]) == w1;
    assert Run(w0, [acts[0], acts[1]]) == w2;
    assert Run(w0, acts[..3]) == w3;
    RunInv(cfg, start, acts[..3]);
    OnlyMessageReceived(w1, visibility);
    var e := w2.store.entries[0];
    assert e in w3.store.entries;
    ExpiryStrands(w3, 1, visibility, e);
  }

  lemma OnlyMessageReceived(w: World, visibility: int)
    requires |w.store.entries| == 1 && !w.store.closed && w.store.inFlight == {} && w.store.nextHandle >= 1
    requires w.store.entries[0].visibleAt <= w.now && w.store.entries[0].msg.sentTimestamp >= w.store.cfg.Cutoff(w.now)
    ensures var s := Step(w, DoReceive(1, visibility)).store;
            && |s.entries| == 1 && s.entries[0].handle != NO_HANDLE && s.cfg == w.store.cfg && !s.closed
            && s.entries[0].msg.groupId == w.store.entries[0].msg.groupId
            && s.entries[0].msg.sentTimestamp == w.store.entries[0].msg.sentTimestamp
  {
    var e := w.store.entries[0];
    assert w.store.entries == [e] && [e][..0] == [];
    assert Kept([e], w.store.cfg.Cutoff(w.now)) == [e];
  }
}
