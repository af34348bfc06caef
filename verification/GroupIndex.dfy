/** The group index of a FIFO store against its message list. */
module GroupIndex {
  import opened StoreTypes
  import opened MemorySpec
  import opened MemoryInvariants
  import opened Ordering
  import opened MemoryRuns
  import opened ReceivePass
  import opened Fates

  /** Keys of the messages of group g, in store order. */
  function Projection(es: seq<Entry>, g: string): seq<nat> {
    if es == [] then []
    else Projection(es[..|es| - 1], g) + (if es[|es| - 1].msg.groupId == g then [es[|es| - 1].key] else [])
  }

  function Indexed(s: State, g: string): seq<nat> {
    if g in s.groups then s.groups[g] else []
  }

  predicate IsSubsequence(a: seq<nat>, b: seq<nat>) {
    if a == [] then true
    else if b == [] then false
    else if a[0] == b[0] then IsSubsequence(a[1..], b[1..])
    else IsSubsequence(a, b[1..])
  }

  // ---------------------------------------------------------------- increasing sequences

  lemma {:induction false} IncreasingSubset(a: seq<nat>, b: seq<nat>)
    requires Increasing(a) && Increasing(b) && forall k :: k in a ==> k in b
    ensures IsSubsequence(a, b)
    decreases |b|
  {
    if a != [] {
      assert a[0] in b;
      assert a == [a[0]] + a[1..] && b == [b[0]] + b[1..];
      if a[0] == b[0] {
        forall k | k in a[1..] ensures k in b[1..] { assert k in b && k > a[0]; }
        IncreasingSubset(a[1..], b[1..]);
      } else {
        forall k | k in a ensures k in b[1..] { assert k in b && k >= a[0] > b[0]; }
        IncreasingSubset(a, b[1..]);
      }
    }
  }

  lemma {:induction false} IncreasingUnique(a: seq<nat>, b: seq<nat>)
    requires Increasing(a) && Increasing(b) && forall k :: k in a <==> k in b
    ensures a == b
  {
    if a == [] {
      assert forall i :: 0 <= i < |b| ==> b[i] in b;
    } else {
      assert a[0] in b && b != [];
      assert a == [a[0]] + a[1..] && b == [b[0]] + b[1..];
      assert b[0] in a && a[0] == b[0];
      forall k ensures k in a[1..] <==> k in b[1..] {
        assert k in a[1..] <==> k in a && k > a[0];
        assert k in b[1..] <==> k in b && k > b[0];
      }
      IncreasingUnique(a[1..], b[1..]);
    }
  }

  lemma {:induction false} ProjectionExact(es: seq<Entry>, g: string)
    requires forall i, j :: 0 <= i < j < |es| ==> es[i].key < es[j].key
    ensures Increasing(Projection(es, g))
    ensures forall k :: k in Projection(es, g) <==> exists e :: e in es && e.key == k && e.msg.groupId == g
  {
    if es != [] {
      var front, last := es[..|es| - 1], es[|es| - 1];
      ProjectionExact(front, g);
      assert es == front + [last];
      var p := Projection(front, g);
      forall k | k in p ensures k < last.key {
        var e :| e in front && e.key == k && e.msg.groupId == g;
      }
      AppendIncreasing(p, last.key);
      forall k ensures k in Projection(es, g) <==> exists e :: e in es && e.key == k && e.msg.groupId == g {
        if k in p { var e :| e in front && e.key == k && e.msg.groupId == g; assert e in es; }
        if last.msg.groupId == g && k == last.key { assert last in es; }
      }
    }
  }

  // ---------------------------------------------------------------- the index never misses a stored message

  /** In every reachable state of a FIFO store, the messages of a group appear in the group's list in the same order,
      and no group has an empty list. */
  lemma ProjectionIsSubsequence(cfg: Config, start: int, acts: seq<Action>, g: string)
    requires cfg.isFifo && g != ""
    ensures var s := Run(Start(cfg, start), acts).store;
            IsSubsequence(Projection(s.entries, g), Indexed(s, g)) && (g in s.groups ==> s.groups[g] != [])
  {
    RunInv(cfg, start, acts);
    RunConfig(Start(cfg, start), acts);
    var s := Run(Start(cfg, start), acts).store;
    ProjectionExact(s.entries, g);
    forall k | k in Projection(s.entries, g) ensures k in Indexed(s, g) {
      var e :| e in s.entries && e.key == k && e.msg.groupId == g;
      assert FifoOk(s, e);
    }
    IncreasingSubset(Projection(s.entries, g), Indexed(s, g));
  }

  // ---------------------------------------------------------------- what a step does to one list

  /** The messages of g that this step drops by retention. */
  ghost function DroppedNow(w: World, a: Action, g: string): set<nat> {
    if a.DoReceive? && !w.store.closed
    then set e | e in w.store.entries && e.msg.sentTimestamp < w.store.cfg.Cutoff(w.now) && e.msg.groupId == g :: e.key
    else {}
  }

  /** The messages of g that retention dropped since the last purge. */
  ghost function DroppedSincePurge(w: World, acts: seq<Action>, g: string): set<nat> {
    if acts == [] then {}
    else
      var before, a := acts[..|acts| - 1], acts[|acts| - 1];
      if a.DoPurge? then {} else DroppedSincePurge(w, before, g) + DroppedNow(Run(w, before), a, g)
  }

  ghost function StoredIn(s: State, g: string): set<nat> {
    set e | e in s.entries && e.msg.groupId == g :: e.key
  }

  /** The list of g loses `gone` and gains `extra`. */
  ghost predicate IndexBecomes(s': State, s: State, g: string, extra: set<nat>, gone: set<nat>) {
    forall k :: k in Indexed(s', g) <==> (k in Indexed(s, g) && k !in gone) || k in extra
  }

  lemma RemoveIndex(s: State, i: nat, g: string)
    requires Inv(s) && i < |s.entries|
    ensures IndexBecomes(Remove(s, i), s, g, {}, {s.entries[i].key})
  {
    RemovedFromGroups(s, i);
  }

  lemma FireIndex(s: State, now: int, t: nat, g: string)
    requires Inv(s)
    ensures IndexBecomes(Fire(s, now, t).0, s, g, {}, if RedriveFires(s, now, t) then {s.armed[t].key} else {})
  {
    if t in s.armed { TimerFindsItsMessage(s, t); }
    FireGroups(s, now, t);
    if RedriveFires(s, now, t) {
      RemoveIndex(s, FindKey(s.entries, s.armed[t].key), g);
    }
  }

  /** The group lists after a timer went off that finds its message. */
  lemma FireGroups(s: State, now: int, t: nat)
    requires t in s.armed ==>
               var i := FindKey(s.entries, s.armed[t].key); i < |s.entries| && s.entries[i].handle == s.armed[t].handle
    ensures if RedriveFires(s, now, t)
            then Fire(s, now, t).0.groups == Remove(s, FindKey(s.entries, s.armed[t].key)).groups
            else Fire(s, now, t).0.groups == s.groups
  {
  }

  lemma DeleteIndex(s: State, h: Handle, g: string)
    requires Inv(s)
    ensures IndexBecomes(Delete(s, h).0, s, g, {}, HeldUnder(s, h))
  {
    var i := FindHandle(s.entries, h);
    HeldUnderOne(s, h);
    if i < |s.entries| {
      RemoveIndex(s, i, g);
      assert HeldUnder(s, h) == {s.entries[i].key};
    }
  }

  /** The key an accepted send adds to the list of g. */
  ghost function Gained(w: World, a: Action, g: string): set<nat> {
    if Accepts(w, a) && a.msg.groupId == g then {w.store.nextKey} else {}
  }

  lemma SendIndex(w: World, msg: Message, delay: int, g: string)
    requires w.store.cfg.isFifo && g != ""
    ensures IndexBecomes(Send(w.store, w.now, msg, delay).0, w.store, g, Gained(w, DoSend(msg, delay), g), {})
  {
  }

  lemma ReceiveIndex(s: State, now: int, max: int, requested: int)
    ensures Receive(s, now, max, requested).0.groups == s.groups
  {
    if !s.closed {
      ScanConfig(Expire(s, now), 0, now, max, s.cfg.EffectiveVisibility(requested), []);
    }
  }

  lemma SameIndex(s': State, s: State, g: string)
    requires s'.groups == s.groups
    ensures IndexBecomes(s', s, g, {}, {})
  {
  }

  lemma FireIndexAfter(w: World, t: nat, g: string)
    requires Inv(w.store)
    ensures IndexBecomes(Fire(w.store, w.now, t).0, w.store, g, {}, Exits(w, DoFire(t)).Keys)
  {
    hide Inv, Fire;
    FireIndex(w.store, w.now, t, g);
    FireExits(w, t);
  }

  lemma DeleteIndexAfter(w: World, h: Handle, g: string)
    requires Inv(w.store)
    ensures IndexBecomes(Delete(w.store, h).0, w.store, g, {}, Exits(w, DoDelete(h)).Keys)
  {
    hide Inv, Delete;
    DeleteIndex(w.store, h, g);
  }

  /** What every step but a purge does to the list of g: messages that leave are struck from it, except by retention,
      and an accepted message is added. */
  lemma IndexAfter(w: World, a: Action, g: string)
    requires Inv(w.store) && w.store.cfg.isFifo && g != "" && !a.DoPurge?
    ensures IndexBecomes(Step(w, a).store, w.store, g, Gained(w, a, g), if a.DoReceive? then {} else Exits(w, a).Keys)
  {
    hide Inv, IndexBecomes, Send, Receive, Delete;
    var s := w.store;
    var s' := Step(w, a).store;
    match a
    case DoSend(msg, delay) =>
      SendIndex(w, msg, delay, g);
      assert Exits(w, a).Keys == {};
    case DoReceive(max, requested) =>
      ReceiveIndex(s, w.now, max, requested);
      SameIndex(s', s, g);
    case DoDelete(h) => DeleteIndexAfter(w, h, g);
    case DoFire(t) => FireIndexAfter(w, t, g);
    case DoPurge =>
    case _ =>
      SameIndex(s', s, g);
      assert Exits(w, a).Keys == {};
  }

  // ---------------------------------------------------------------- the index over whole runs

  /** The stored messages of g after a step. */
  lemma StoredInAfter(w: World, a: Action, g: string)
    requires Inv(w.store)
    ensures StoredIn(Step(w, a).store, g) == StoredIn(w.store, g) - Exits(w, a).Keys + Gained(w, a, g)
  {
    StepKeys(w, a);
    StepEvolves(w, a);
    hide Inv, Step, Exits;
    var s, s' := w.store, Step(w, a).store;
    forall k ensures k in StoredIn(s', g) <==> k in StoredIn(s, g) - Exits(w, a).Keys + Gained(w, a, g) {
      if k in StoredIn(s', g) {
        var e' :| e' in s'.entries && e'.msg.groupId == g && e'.key == k;
        StoredBefore(w, a, e');
      }
      if k in StoredIn(s, g) - Exits(w, a).Keys + Gained(w, a, g) {
        assert k in Keys(s'.entries) by { assert k in StoredIn(s, g) ==> k in Keys(s.entries); }
        var e' :| e' in s'.entries && e'.key == k;
        StoredBefore(w, a, e');
      }
    }
  }

  /** A stored message after a step belongs to the group it belonged to before, or was just accepted into it. */
  lemma StoredBefore(w: World, a: Action, e': Entry)
    requires Inv(w.store) && e' in Step(w, a).store.entries
    ensures e'.key !in Exits(w, a)
    ensures forall g :: e'.msg.groupId == g <==> e'.key in StoredIn(w.store, g) || e'.key in Gained(w, a, g)
  {
    hide Inv, Send, Receive, Delete, ChangeVisibility, Fire;
    StepEvolves(w, a);
    StepKeys(w, a);
    KeysBelow(w.store);
    InvKeys(w.store);
    NewlySentGroup(w, a, e');
    assert e'.key in Keys(Step(w, a).store.entries);
    hide Step, Exits, KeysOk;
    if CameFrom(w.store, w.now, e') {
      var e :| e in w.store.entries && Evolves(w.now, e, e');
      forall d | d in w.store.entries ensures d.key == e.key ==> d == e { SameIfSameKey(w.store, d, e); }
    }
  }

  lemma NewlySentGroup(w: World, a: Action, e': Entry)
    ensures NewlySent(w, a, e') ==> e'.msg.groupId == a.msg.groupId
  {
  }

  lemma KeysBelow(s: State)
    requires Inv(s)
    ensures forall e :: e in s.entries ==> e.key < s.nextKey
  {
    forall e | e in s.entries ensures e.key < s.nextKey { var i :| 0 <= i < |s.entries| && s.entries[i] == e; }
  }

  /** The list of g holds exactly the stored messages of g and those in `dropped`, and no message is both. */
  ghost predicate IndexIs(s: State, g: string, dropped: set<nat>) {
    && StoredIn(s, g) !! dropped && (forall k :: k in dropped ==> k < s.nextKey)
    && forall k :: k in Indexed(s, g) <==> k in StoredIn(s, g) || k in dropped
  }

  lemma StepIndexIs(w: World, a: Action, g: string, dropped: set<nat>)
    requires Inv(w.store) && w.store.cfg.isFifo && g != "" && IndexIs(w.store, g, dropped)
    ensures IndexIs(Step(w, a).store, g, if a.DoPurge? then {} else dropped + DroppedNow(w, a, g))
  {
    StepConfig(w, a);
    if !a.DoPurge? {
      IndexAfter(w, a, g);
      StoredInAfter(w, a, g);
      DroppedAreExits(w, a, g);
      hide Inv, Step, Exits, DroppedNow;
      OtherExitsAreStored(w, a, g, dropped);
    }
  }

  lemma DroppedAreExits(w: World, a: Action, g: string)
    requires Inv(w.store)
    ensures forall k :: k in DroppedNow(w, a, g) ==> k in Exits(w, a) && k in StoredIn(w.store, g) && k < w.store.nextKey
    ensures a.DoReceive? ==> forall k :: k in StoredIn(w.store, g) && k in Exits(w, a) ==> k in DroppedNow(w, a, g)
    ensures !a.DoReceive? ==> DroppedNow(w, a, g) == {}
  {
    forall e | e in w.store.entries ensures e.key < w.store.nextKey {
      var i :| 0 <= i < |w.store.entries| && w.store.entries[i] == e;
    }
    forall d, e | d in w.store.entries && e in w.store.entries && d.key == e.key ensures d == e {
      SameKeySameEntry(w.store, d, e);
    }
  }

  /** A message that leaves in another way was stored, so retention had not dropped it. */
  lemma OtherExitsAreStored(w: World, a: Action, g: string, dropped: set<nat>)
    requires Inv(w.store) && IndexIs(w.store, g, dropped)
    ensures forall k :: k in dropped ==> k !in Exits(w, a)
  {
    StepKeys(w, a);
    forall k | k in dropped ensures k !in Exits(w, a) {
      if k in Keys(w.store.entries) {
        var e :| e in w.store.entries && e.key == k;
        IndexedGroup(w.store, g, e);
      }
    }
  }

  lemma IndexedGroup(s: State, g: string, e: Entry)
    requires Inv(s) && e in s.entries
    ensures e.key in Indexed(s, g) ==> e.key in StoredIn(s, g)
  {
    assert FifoOk(s, e);
  }

  lemma {:induction false} RunIndexIs(cfg: Config, start: int, acts: seq<Action>, g: string)
    requires cfg.isFifo && g != ""
    ensures IndexIs(Run(Start(cfg, start), acts).store, g, DroppedSincePurge(Start(cfg, start), acts, g))
  {
    if acts != [] {
      var before := acts[..|acts| - 1];
      RunIndexIs(cfg, start, before, g);
      RunInv(cfg, start, before);
      RunConfig(Start(cfg, start), before);
      hide Inv, IndexIs;
      StepIndexIs(Run(Start(cfg, start), before), acts[|acts| - 1], g, DroppedSincePurge(Start(cfg, start), before, g));
    }
  }

  /** The exact content of the index: a message is in the list of its group if and only if it is stored in that group,
      or retention dropped it since the last purge. */
  lemma IndexHolds(cfg: Config, start: int, acts: seq<Action>, g: string, k: nat)
    requires cfg.isFifo && g != ""
    ensures var s := Run(Start(cfg, start), acts).store;
            k in Indexed(s, g) <==> k in StoredIn(s, g) || k in DroppedSincePurge(Start(cfg, start), acts, g)
  {
    RunIndexIs(cfg, start, acts, g);
  }

  /** The list of a group equals the group's messages in store order if and only if retention has dropped none of them
      since the last purge. */
  lemma IndexIsExact(cfg: Config, start: int, acts: seq<Action>, g: string)
    requires cfg.isFifo && g != ""
    ensures var s := Run(Start(cfg, start), acts).store;
            Indexed(s, g) == Projection(s.entries, g) <==> DroppedSincePurge(Start(cfg, start), acts, g) == {}
  {
    RunInv(cfg, start, acts);
    RunConfig(Start(cfg, start), acts);
    RunIndexIs(cfg, start, acts, g);
    ExactIff(Run(Start(cfg, start), acts).store, g, DroppedSincePurge(Start(cfg, start), acts, g));
  }

  lemma ExactIff(s: State, g: string, dropped: set<nat>)
    requires Inv(s) && g != "" && IndexIs(s, g, dropped)
    ensures Indexed(s, g) == Projection(s.entries, g) <==> dropped == {}
  {
    ProjectionExact(s.entries, g);
    forall k ensures k in Projection(s.entries, g) <==> k in StoredIn(s, g) {
    }
    if dropped == {} {
      IncreasingUnique(Indexed(s, g), Projection(s.entries, g));
    } else {
      var k :| k in dropped;
      assert k in Indexed(s, g) && k !in Projection(s.entries, g);
    }
  }
}
