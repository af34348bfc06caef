/** What every critical section of the in-memory store keeps, whatever the clock says. */
module MemoryInvariants {
  import opened StoreTypes
  import opened MemorySpec
  import opened Ordering

  ghost predicate KeysOk(s: State) {
    && (forall i, j :: 0 <= i < j < |s.entries| ==> s.entries[i].key < s.entries[j].key)
    && (forall i :: 0 <= i < |s.entries| ==> s.entries[i].key < s.nextKey)
  }

  /** An in-flight entry has its timer, with its current handle and the deadline visibleAt;
      a blank handle has none. While the store is open that timer is armed. */
  ghost predicate TimerOk(s: State, e: Entry) {
    && e.handle < s.nextHandle
    && (e.handle == NO_HANDLE <==> e.timer.None?)
    && (e.timer.Some? ==> e.timer.value < s.nextTimer)
    && (e.timer.Some? && !s.closed ==> e.timer.value in s.armed)
    && (e.timer.Some? && e.timer.value in s.armed ==>
        var t := s.armed[e.timer.value];
        t.key == e.key && t.handle == e.handle && t.deadline == e.visibleAt)
  }

  ghost predicate FifoOk(s: State, e: Entry) {
    && (s.cfg.isFifo ==> 1 <= e.msg.sequenceNumber <= s.sequence)
    && (Grouped(s.cfg, e.msg) ==> e.msg.groupId in s.groups && e.key in s.groups[e.msg.groupId])
    && (Grouped(s.cfg, e.msg) && e.handle != NO_HANDLE ==> e.msg.groupId in s.inFlight)
    && (forall g :: g in s.groups && e.key in s.groups[g] ==> Grouped(s.cfg, e.msg) && e.msg.groupId == g)
  }

  /** Two entries, the first of which arrived earlier. */
  ghost predicate PairOk(s: State, a: Entry, b: Entry) {
    && (a.handle != NO_HANDLE ==> a.handle != b.handle)
    && (a.timer.Some? ==> a.timer != b.timer)
    && (s.cfg.isFifo ==> a.msg.sequenceNumber < b.msg.sequenceNumber)
    && (Grouped(s.cfg, a.msg) && a.msg.groupId == b.msg.groupId ==> a.handle == NO_HANDLE || b.handle == NO_HANDLE)
  }

  ghost predicate Owned(s: State, t: nat) {
    exists e :: e in s.entries && e.timer == Some(t)
  }

  ghost predicate GroupsOk(s: State) {
    && (forall g :: g in s.groups ==>
        s.groups[g] != [] && Increasing(s.groups[g]) && forall k :: k in s.groups[g] ==> k < s.nextKey)
    && (!s.cfg.isFifo ==> s.groups == map[] && s.inFlight == {})
  }

  ghost predicate Inv(s: State) {
    && KeysOk(s)
    && s.nextHandle >= 1
    && GroupsOk(s)
    && (forall e :: e in s.entries ==> TimerOk(s, e) && FifoOk(s, e))
    && (forall a, b :: a in s.entries && b in s.entries && a.key < b.key ==> PairOk(s, a, b))
    && (forall t :: t in s.armed ==> t < s.nextTimer && Owned(s, t))
  }

  lemma InvKeys(s: State)
    requires Inv(s)
    ensures KeysOk(s)
  {
  }

  // ---------------------------------------------------------------- membership

  lemma SameIfSameKey(s: State, a: Entry, b: Entry)
    requires KeysOk(s) && a in s.entries && b in s.entries
    ensures a.key == b.key ==> a == b
  {
    if a.key == b.key { SameKeySameEntry(s, a, b); }
  }

  lemma SameKeySameEntry(s: State, a: Entry, b: Entry)
    requires KeysOk(s) && a in s.entries && b in s.entries && a.key == b.key
    ensures a == b
  {
    var i :| 0 <= i < |s.entries| && s.entries[i] == a;
    var j :| 0 <= j < |s.entries| && s.entries[j] == b;
    if i != j { assert false; }
  }

  lemma OneTimerOneEntry(s: State, a: Entry, b: Entry)
    requires Inv(s) && a in s.entries && b in s.entries && a.timer.Some? && a.timer == b.timer
    ensures a == b
  {
    assert a.key < b.key ==> PairOk(s, a, b);
    assert b.key < a.key ==> PairOk(s, b, a);
    SameKeySameEntry(s, a, b);
  }

  lemma RemovedMembers(s: State, i: nat)
    requires KeysOk(s) && i < |s.entries|
    ensures forall e :: e in s.entries[..i] + s.entries[i + 1..] <==> e in s.entries && e.key != s.entries[i].key
  {
    forall e | e in s.entries && e.key != s.entries[i].key ensures e in s.entries[..i] + s.entries[i + 1..] {
      var j :| 0 <= j < |s.entries| && s.entries[j] == e;
      if j < i { assert e == s.entries[..i][j]; } else { assert e == s.entries[i + 1..][j - i - 1]; }
    }
  }

  lemma UpdatedMembers(s: State, i: nat, e': Entry)
    requires KeysOk(s) && i < |s.entries| && e'.key == s.entries[i].key
    ensures forall e :: e in s.entries[i := e'] <==> e == e' || (e in s.entries && e.key != e'.key)
  {
    forall e | e == e' || (e in s.entries && e.key != e'.key) ensures e in s.entries[i := e'] {
      if e == e' { assert s.entries[i := e'][i] == e; }
      else {
        var j :| 0 <= j < |s.entries| && s.entries[j] == e;
        assert s.entries[i := e'][j] == e;
      }
    }
  }

  lemma {:induction false} KeptMembers(es: seq<Entry>, cutoff: int)
    ensures forall e :: e in Kept(es, cutoff) <==> e in es && e.msg.sentTimestamp >= cutoff
    ensures forall t :: t in DroppedTimers(es, cutoff) <==>
              exists e :: e in es && e.msg.sentTimestamp < cutoff && e.timer == Some(t)
    ensures |Kept(es, cutoff)| <= |es|
  {
    if es != [] {
      var front, e := es[..|es| - 1], es[|es| - 1];
      KeptMembers(front, cutoff);
      assert es == front + [e];
      forall t | t in DroppedTimers(es, cutoff)
        ensures exists e :: e in es && e.msg.sentTimestamp < cutoff && e.timer == Some(t)
      {
        if t in DroppedTimers(front, cutoff) {
          var d :| d in front && d.msg.sentTimestamp < cutoff && d.timer == Some(t);
          assert d in es;
        } else {
          assert e in es;
        }
      }
    }
  }

  lemma {:induction false} KeptIncreasing(es: seq<Entry>, cutoff: int)
    requires forall i, j :: 0 <= i < j < |es| ==> es[i].key < es[j].key
    ensures forall i, j :: 0 <= i < j < |Kept(es, cutoff)| ==> Kept(es, cutoff)[i].key < Kept(es, cutoff)[j].key
  {
    if es != [] {
      var front := es[..|es| - 1];
      KeptIncreasing(front, cutoff);
      KeptMembers(front, cutoff);
      forall i | 0 <= i < |Kept(front, cutoff)| ensures Kept(front, cutoff)[i].key < es[|es| - 1].key {
        assert Kept(front, cutoff)[i] in Kept(front, cutoff);
      }
    }
  }

  // ---------------------------------------------------------------- the group lists

  lemma {:induction false} RemoveFirstIncreasing(s: seq<nat>, x: nat)
    requires Increasing(s)
    ensures Increasing(RemoveFirst(s, x))
    ensures forall k :: k in RemoveFirst(s, x) <==> k in s && k != x
  {
    if s != [] {
      var tail := s[1..];
      assert s == [s[0]] + tail;
      forall k | k in tail ensures s[0] < k {
        var j :| 0 <= j < |tail| && tail[j] == k;
        assert s[j + 1] == k;
      }
      if s[0] != x {
        RemoveFirstIncreasing(tail, x);
        PrependIncreasing(s[0], RemoveFirst(tail, x));
      }
    }
  }

  lemma PrependIncreasing(x: nat, s: seq<nat>)
    requires Increasing(s) && forall k :: k in s ==> x < k
    ensures Increasing([x] + s)
  {
    var r := [x] + s;
    forall i, j | 0 <= i < j < |r| ensures r[i] < r[j] {
      assert r[j] == s[j - 1] && s[j - 1] in s;
      if i > 0 { assert r[i] == s[i - 1]; }
    }
  }

  // ---------------------------------------------------------------- each critical section

  lemma InitInv(cfg: Config)
    ensures Inv(Init(cfg))
  {
  }

  lemma ExpireInv(s: State, now: int)
    requires Inv(s)
    ensures Inv(Expire(s, now))
  {
    var cutoff := s.cfg.Cutoff(now);
    var s' := Expire(s, now);
    KeptMembers(s.entries, cutoff);
    KeptIncreasing(s.entries, cutoff);
    assert KeysOk(s') by {
      forall i | 0 <= i < |s'.entries| ensures s'.entries[i].key < s'.nextKey {
        assert s'.entries[i] in s'.entries;
        var e :| e in s.entries && e == s'.entries[i];
      }
    }
    forall e | e in s'.entries ensures TimerOk(s', e) && FifoOk(s', e) {
      assert TimerOk(s, e) && FifoOk(s, e);
      if e.timer.Some? && e.timer.value in DroppedTimers(s.entries, cutoff) {
        var d :| d in s.entries && d.msg.sentTimestamp < cutoff && d.timer == e.timer;
        OneTimerOneEntry(s, d, e);
        assert false;
      }
    }
    forall a, b | a in s'.entries && b in s'.entries && a.key < b.key ensures PairOk(s', a, b) {
      assert PairOk(s, a, b);
    }
    forall t | t in s'.armed ensures t < s'.nextTimer && Owned(s', t) {
      assert Owned(s, t);
      var e :| e in s.entries && e.timer == Some(t);
      assert e in s'.entries;
    }
  }

  lemma EnqueueGroups(s: State, now: int, msg: Message, delay: int)
    requires Inv(s)
    requires s.cfg.isFifo ==> msg.sequenceNumber == s.sequence && s.sequence >= 1
    ensures var s' := Enqueue(s, now, msg, delay).0; GroupsOk(s') && forall e :: e in s'.entries ==> FifoOk(s', e)
  {
    var s' := Enqueue(s, now, msg, delay).0;
    var n := s'.entries[|s.entries|];
    assert s'.entries == s.entries + [n];
    var was := if msg.groupId in s.groups then s.groups[msg.groupId] else [];
    forall g | g in s'.groups
      ensures s'.groups[g] != [] && Increasing(s'.groups[g]) && forall k :: k in s'.groups[g] ==> k < s'.nextKey
    {
      if Grouped(s.cfg, n.msg) && g == msg.groupId {
        assert s'.groups[g] == was + [s.nextKey];
        AppendIncreasing(was, s.nextKey);
      }
    }
    forall e | e in s'.entries ensures FifoOk(s', e) {
      if e in s.entries {
        assert FifoOk(s, e);
        assert e.key < s.nextKey by { var i :| 0 <= i < |s.entries| && s.entries[i] == e; }
      } else {
        assert e == n;
        if Grouped(s.cfg, e.msg) { assert s'.groups[e.msg.groupId] == was + [e.key]; }
      }
    }
  }

  lemma AppendIncreasing(s: seq<nat>, x: nat)
    requires Increasing(s) && forall k :: k in s ==> k < x
    ensures Increasing(s + [x])
  {
    forall i, j | 0 <= i < j < |s + [x]| ensures (s + [x])[i] < (s + [x])[j] {
      assert s[i] in s;
    }
  }

  lemma EnqueueInv(s: State, now: int, msg: Message, delay: int)
    requires Inv(s)
    requires s.cfg.isFifo ==> msg.sequenceNumber == s.sequence && s.sequence >= 1
    requires s.cfg.isFifo ==> forall e :: e in s.entries ==> e.msg.sequenceNumber < s.sequence
    ensures Inv(Enqueue(s, now, msg, delay).0)
  {
    var s' := Enqueue(s, now, msg, delay).0;
    var n := s'.entries[|s.entries|];
    assert s'.entries == s.entries + [n];
    forall i | 0 <= i < |s.entries| ensures s'.entries[i].key < s.nextKey {
      assert s'.entries[i] == s.entries[i];
    }
    EnqueueGroups(s, now, msg, delay);
    forall e | e in s'.entries ensures TimerOk(s', e) {
      if e in s.entries { assert TimerOk(s, e); } else { assert e == n; }
    }
    forall a, b | a in s'.entries && b in s'.entries && a.key < b.key ensures PairOk(s', a, b) {
      if b in s.entries {
        assert b.key < s.nextKey by { var i :| 0 <= i < |s.entries| && s.entries[i] == b; }
        assert PairOk(s, a, b);
      }
    }
    forall t | t in s'.armed ensures t < s'.nextTimer && Owned(s', t) {
      assert Owned(s, t);
      var e :| e in s.entries && e.timer == Some(t);
      assert e in s'.entries;
    }
  }

  lemma SendInv(s: State, now: int, msg: Message, delay: int)
    requires Inv(s)
    ensures Inv(Send(s, now, msg, delay).0)
  {
    if !s.closed && !s.cfg.isFifo {
      EnqueueInv(s, now, msg, delay);
    } else if !s.closed {
      FifoSend(s, now, msg, delay);
      var s' := Send(s, now, msg, delay).0;
      if s' == s.(dedup := s'.dedup) {
        SameShape(s, s');
      } else {
        NumberedInv(s, s'.dedup, now, msg, delay);
      }
    }
  }

  /** A FIFO send changes the dedup cache, and unless it is a duplicate stores the message under the next number. */
  lemma FifoSend(s: State, now: int, msg: Message, delay: int)
    requires !s.closed && s.cfg.isFifo
    ensures var s' := Send(s, now, msg, delay).0;
            || s' == s.(dedup := s'.dedup)
            || s' == Enqueue(s.(dedup := s'.dedup, sequence := s.sequence + 1), now,
                             msg.(sequenceNumber := s.sequence + 1), delay).0
  {
  }

  /** Storing a message under the next sequence number, with any dedup cache. */
  lemma NumberedInv(s: State, dedup: map<string, int>, now: int, msg: Message, delay: int)
    requires Inv(s) && s.cfg.isFifo
    ensures Inv(Enqueue(s.(dedup := dedup, sequence := s.sequence + 1), now,
                        msg.(sequenceNumber := s.sequence + 1), delay).0)
  {
    var s1 := s.(dedup := dedup, sequence := s.sequence + 1);
    SameShape(s, s1);
    forall e | e in s1.entries ensures e.msg.sequenceNumber < s1.sequence {
      assert FifoOk(s, e);
    }
    EnqueueInv(s1, now, msg.(sequenceNumber := s1.sequence), delay);
  }

  /** The dedup cache, the wake-up slot and a larger counter do not matter to the invariant. */
  lemma SameShape(s: State, s': State)
    requires Inv(s)
    requires s' == s.(dedup := s'.dedup, notify := s'.notify, sequence := s'.sequence)
    requires s.sequence <= s'.sequence
    ensures Inv(s')
  {
    forall e | e in s'.entries ensures TimerOk(s', e) && FifoOk(s', e) {
      assert TimerOk(s, e) && FifoOk(s, e);
    }
    forall a, b | a in s'.entries && b in s'.entries && a.key < b.key ensures PairOk(s', a, b) {
      assert PairOk(s, a, b);
    }
    forall t | t in s'.armed ensures t < s'.nextTimer && Owned(s', t) {
      assert Owned(s, t);
    }
  }

  /** Entry e', which is to replace another of the same age, cannot be confused with x. */
  ghost predicate Apart(cfg: Config, x: Entry, e': Entry) {
    && (e'.handle != NO_HANDLE ==> x.handle != e'.handle)
    && (e'.timer.Some? ==> x.timer != e'.timer)
    && (Grouped(cfg, x.msg) && x.msg.groupId == e'.msg.groupId ==> x.handle == NO_HANDLE || e'.handle == NO_HANDLE)
  }

  /** Pairs stay in order when entry i is updated apart from the others. */
  lemma UpdatedPairs(s: State, s': State, i: nat)
    requires Inv(s) && i < |s.entries| == |s'.entries| && s'.entries == s.entries[i := s'.entries[i]] && s'.cfg == s.cfg
    requires var e, e' := s.entries[i], s'.entries[i];
             && e'.key == e.key && e'.msg.sequenceNumber == e.msg.sequenceNumber && e'.msg.groupId == e.msg.groupId
             && forall x :: x in s.entries && x.key != e.key ==> Apart(s.cfg, x, e')
    ensures forall a, b :: a in s'.entries && b in s'.entries && a.key < b.key ==> PairOk(s', a, b)
  {
    var e, e' := s.entries[i], s'.entries[i];
    UpdatedMembers(s, i, e');
    assert e in s.entries;
    forall a, b | a in s'.entries && b in s'.entries && a.key < b.key ensures PairOk(s', a, b) {
      if a.key == e.key { assert PairOk(s, e, b) && Apart(s.cfg, b, e'); }
      else if b.key == e.key { assert PairOk(s, a, e) && Apart(s.cfg, a, e'); }
      else { assert PairOk(s, a, b); }
    }
  }

  lemma TakeInv(s: State, i: nat, now: int, visibility: int)
    requires Inv(s) && !s.closed && i < |s.entries| && Deliverable(s, i, now)
    ensures Inv(Take(s, i, now, visibility))
  {
    var e := s.entries[i];
    var s' := Take(s, i, now, visibility);
    TakeTimers(s, i, now, visibility);
    TakeFifo(s, i, now, visibility);
    forall x | x in s.entries && x.key != e.key ensures Apart(s.cfg, x, s'.entries[i]) {
      assert TimerOk(s, x) && FifoOk(s, x);
    }
    UpdatedPairs(s, s', i);
    SwappedOwned(s, s', i);
  }

  lemma TakeTimers(s: State, i: nat, now: int, visibility: int)
    requires Inv(s) && i < |s.entries|
    ensures forall x :: x in Take(s, i, now, visibility).entries ==> TimerOk(Take(s, i, now, visibility), x)
  {
    var e := s.entries[i];
    var s' := Take(s, i, now, visibility);
    UpdatedMembers(s, i, s'.entries[i]);
    assert e in s.entries && TimerOk(s, e);
    forall x | x in s'.entries ensures TimerOk(s', x) {
      if x.key != e.key {
        assert TimerOk(s, x);
        assert PairOk(s, x, e) || PairOk(s, e, x);
      }
    }
  }

  lemma TakeFifo(s: State, i: nat, now: int, visibility: int)
    requires Inv(s) && i < |s.entries|
    ensures forall x :: x in Take(s, i, now, visibility).entries ==> FifoOk(Take(s, i, now, visibility), x)
  {
    var s' := Take(s, i, now, visibility);
    UpdatedMembers(s, i, s'.entries[i]);
    assert s.entries[i] in s.entries && FifoOk(s, s.entries[i]);
    forall x | x in s'.entries ensures FifoOk(s', x) {
      if x.key != s.entries[i].key { assert FifoOk(s, x); }
    }
  }

  /** The timer of entry i replaced by the next one: every armed timer still has its owner. */
  lemma SwappedOwned(s: State, s': State, i: nat)
    requires Inv(s) && i < |s.entries| == |s'.entries| && s'.entries == s.entries[i := s'.entries[i]]
    requires s'.entries[i].key == s.entries[i].key && s'.entries[i].timer == Some(s.nextTimer)
    requires s'.nextTimer == s.nextTimer + 1 && s'.armed.Keys == Stopped(s.armed, s.entries[i].timer).Keys + {s.nextTimer}
    ensures forall t :: t in s'.armed ==> t < s'.nextTimer && Owned(s', t)
  {
    var e, e' := s.entries[i], s'.entries[i];
    UpdatedMembers(s, i, e');
    forall t | t in s'.armed ensures t < s'.nextTimer && Owned(s', t) {
      if t != s.nextTimer {
        assert Owned(s, t);
        var x :| x in s.entries && x.timer == Some(t);
        assert x.key != e.key by { if x.key == e.key { SameKeySameEntry(s, x, e); } }
        assert x in s'.entries;
      } else {
        assert e' in s'.entries;
      }
    }
  }

  lemma {:induction false} ScanInv(s: State, i: nat, now: int, max: int, visibility: int, acc: seq<Message>)
    requires Inv(s) && !s.closed && i <= |s.entries|
    ensures Inv(Scan(s, i, now, max, visibility, acc).0)
    decreases |s.entries| - i
  {
    if i < |s.entries| {
      if Deliverable(s, i, now) {
        TakeInv(s, i, now, visibility);
        var s1 := Take(s, i, now, visibility);
        if |acc| + 1 < max { ScanInv(s1, i + 1, now, max, visibility, acc + [s1.entries[i].msg]); }
      } else {
        ScanInv(s, i + 1, now, max, visibility, acc);
      }
    }
  }

  lemma ReceiveInv(s: State, now: int, max: int, requested: int)
    requires Inv(s)
    ensures Inv(Receive(s, now, max, requested).0)
  {
    if !s.closed {
      ExpireInv(s, now);
      ScanInv(Expire(s, now), 0, now, max, s.cfg.EffectiveVisibility(requested), []);
    }
  }

  lemma RemoveGroups(s: State, i: nat)
    requires Inv(s) && i < |s.entries| && s.entries[i].handle != NO_HANDLE
    ensures var s' := Remove(s, i); GroupsOk(s') && forall x :: x in s'.entries ==> FifoOk(s', x)
  {
    var e := s.entries[i];
    var s' := Remove(s, i);
    RemovedMembers(s, i);
    RemovedFromGroups(s, i);
    assert e in s.entries;
    forall x | x in s'.entries ensures FifoOk(s', x) {
      assert FifoOk(s, x);
      assert PairOk(s, x, e) || PairOk(s, e, x);
    }
  }

  /** The group lists lose exactly the removed key. */
  lemma RemovedFromGroups(s: State, i: nat)
    requires Inv(s) && i < |s.entries|
    ensures GroupsOk(Remove(s, i)) && Remove(s, i).groups.Keys <= s.groups.Keys
    ensures forall g, k :: g in s.groups ==>
              ((g in Remove(s, i).groups && k in Remove(s, i).groups[g]) <==> k in s.groups[g] && k != s.entries[i].key)
  {
    var e := s.entries[i];
    assert e in s.entries && FifoOk(s, e);
    if Grouped(s.cfg, e.msg) { RemoveFirstIncreasing(s.groups[e.msg.groupId], e.key); }
  }

  lemma RemoveInv(s: State, i: nat)
    requires Inv(s) && i < |s.entries| && s.entries[i].handle != NO_HANDLE
    ensures Inv(Remove(s, i))
  {
    var e := s.entries[i];
    var s' := Remove(s, i);
    RemovedMembers(s, i);
    RemoveGroups(s, i);
    RemoveTimers(s, i);
    forall a, b | a in s'.entries && b in s'.entries && a.key < b.key ensures PairOk(s', a, b) {
      assert PairOk(s, a, b);
    }
  }

  lemma RemoveTimers(s: State, i: nat)
    requires Inv(s) && i < |s.entries|
    ensures var s' := Remove(s, i);
            && (forall x :: x in s'.entries ==> TimerOk(s', x))
            && (forall t :: t in s'.armed ==> t < s'.nextTimer && Owned(s', t))
  {
    var e := s.entries[i];
    var s' := Remove(s, i);
    RemovedMembers(s, i);
    assert e in s.entries && TimerOk(s, e);
    forall x | x in s'.entries ensures TimerOk(s', x) {
      assert TimerOk(s, x);
      assert PairOk(s, x, e) || PairOk(s, e, x);
    }
    forall t | t in s'.armed ensures t < s'.nextTimer && Owned(s', t) {
      assert Owned(s, t);
      var x :| x in s.entries && x.timer == Some(t);
      assert x.key != e.key by { if x.key == e.key { SameKeySameEntry(s, x, e); } }
      assert x in s'.entries;
    }
  }

  /** Blanking an in-flight entry's handle, its timer stopped and its visibility set to `at`. */
  function Blanked(s: State, i: nat, at: int): State
    requires i < |s.entries|
  {
    var e := s.entries[i];
    Release(s.(armed := Stopped(s.armed, e.timer), entries := s.entries[i := e.(visibleAt := at)]), i)
  }

  lemma BlankedInv(s: State, i: nat, at: int)
    requires Inv(s) && i < |s.entries| && s.entries[i].handle != NO_HANDLE
    ensures Inv(Blanked(s, i, at))
  {
    var e := s.entries[i];
    var s' := Blanked(s, i, at);
    var e' := s'.entries[i];
    assert s'.entries == s.entries[i := e'];
    UpdatedMembers(s, i, e');
    assert e in s.entries && TimerOk(s, e) && FifoOk(s, e);
    forall x | x in s'.entries ensures TimerOk(s', x) && FifoOk(s', x) {
      if x.key != e.key {
        assert TimerOk(s, x) && FifoOk(s, x);
        assert PairOk(s, x, e) || PairOk(s, e, x);
      }
    }
    forall x | x in s.entries && x.key != e.key ensures Apart(s.cfg, x, e') {
      assert TimerOk(s, x);
      assert PairOk(s, x, e) || PairOk(s, e, x);
    }
    UpdatedPairs(s, s', i);
    forall t | t in s'.armed ensures t < s'.nextTimer && Owned(s', t) {
      assert Owned(s, t);
      var x :| x in s.entries && x.timer == Some(t);
      assert x.key != e.key by { if x.key == e.key { SameKeySameEntry(s, x, e); } }
      assert x in s'.entries;
    }
  }

  lemma ExtendInv(s: State, i: nat, now: int, timeout: int)
    requires Inv(s) && i < |s.entries| && s.entries[i].handle != NO_HANDLE
    ensures Inv(Extend(s, i, now, timeout))
  {
    var e := s.entries[i];
    var s' := Extend(s, i, now, timeout);
    var e' := s'.entries[i];
    UpdatedMembers(s, i, e');
    assert e in s.entries && TimerOk(s, e) && FifoOk(s, e);
    forall x | x in s'.entries ensures TimerOk(s', x) && FifoOk(s', x) {
      if x.key != e.key {
        assert TimerOk(s, x) && FifoOk(s, x);
        assert PairOk(s, x, e) || PairOk(s, e, x);
      }
    }
    forall x | x in s.entries && x.key != e.key ensures Apart(s.cfg, x, e') {
      assert TimerOk(s, x);
      assert PairOk(s, x, e) || PairOk(s, e, x);
    }
    UpdatedPairs(s, s', i);
    SwappedOwned(s, s', i);
  }

  lemma DeleteInv(s: State, h: Handle)
    requires Inv(s)
    ensures Inv(Delete(s, h).0)
  {
    var i := FindHandle(s.entries, h);
    if i < |s.entries| {
      RemoveInv(s, i);
      SameShape(Remove(s, i), Delete(s, h).0);
    }
  }

  lemma ChangeVisibilityInv(s: State, now: int, h: Handle, timeout: int)
    requires Inv(s)
    ensures Inv(ChangeVisibility(s, now, h, timeout).0)
  {
    var i := FindHandle(s.entries, h);
    if i < |s.entries| {
      if timeout == 0 { BlankedInv(s, i, now); } else { ExtendInv(s, i, now, timeout); }
    }
  }

  lemma AllTimersOwned(s: State)
    requires Inv(s)
    ensures s.armed - AllTimers(s.entries) == map[]
  {
    forall t | t in s.armed ensures t in AllTimers(s.entries) {
      assert Owned(s, t);
    }
  }

  lemma PurgeInv(s: State)
    requires Inv(s)
    ensures Inv(Purge(s))
  {
    AllTimersOwned(s);
  }

  lemma CloseInv(s: State)
    requires Inv(s)
    ensures Inv(Close(s)) && Close(s).armed == map[]
  {
    AllTimersOwned(s);
    var s' := Close(s);
    forall e | e in s'.entries ensures TimerOk(s', e) && FifoOk(s', e) {
      assert TimerOk(s, e) && FifoOk(s, e);
    }
    forall a, b | a in s'.entries && b in s'.entries && a.key < b.key ensures PairOk(s', a, b) {
      assert PairOk(s, a, b);
    }
  }

  /** A due timer always finds its message, still under the handle it captured. */
  lemma TimerFindsItsMessage(s: State, t: nat)
    requires Inv(s) && t in s.armed
    ensures var i := FindKey(s.entries, s.armed[t].key);
            && i < |s.entries|
            && s.entries[i].timer == Some(t)
            && s.entries[i].handle == s.armed[t].handle != NO_HANDLE
            && s.entries[i].visibleAt == s.armed[t].deadline
  {
    assert Owned(s, t);
    var e :| e in s.entries && e.timer == Some(t);
    assert TimerOk(s, e);
    var i := FindKey(s.entries, s.armed[t].key);
    var j :| 0 <= j < |s.entries| && s.entries[j] == e;
    SameKeySameEntry(s, e, s.entries[i]);
  }

  /** In a closed store a timer may be disarmed without any other change. */
  lemma DisarmedInv(s: State, t: nat)
    requires Inv(s) && s.closed
    ensures Inv(s.(armed := s.armed - {t}))
  {
    var s1 := s.(armed := s.armed - {t});
    forall x | x in s1.entries ensures TimerOk(s1, x) && FifoOk(s1, x) { assert TimerOk(s, x) && FifoOk(s, x); }
    forall a, b | a in s1.entries && b in s1.entries && a.key < b.key ensures PairOk(s1, a, b) {
      assert PairOk(s, a, b);
    }
    forall u | u in s1.armed ensures u < s1.nextTimer && Owned(s1, u) { assert Owned(s, u); }
  }

  lemma FireInv(s: State, now: int, t: nat)
    requires Inv(s)
    ensures Inv(Fire(s, now, t).0)
  {
    if t in s.armed && s.armed[t].deadline <= now {
      TimerFindsItsMessage(s, t);
      var s1 := s.(armed := s.armed - {t});
      var i := FindKey(s.entries, s.armed[t].key);
      var e := s.entries[i];
      if s.armed[t].checksClosed && s.closed {
        DisarmedInv(s, t);
      } else if s.cfg.RedriveDue(e.receiveCount) {
        RemoveInv(s, i);
        assert Stopped(s1.armed, e.timer) == Stopped(s.armed, e.timer);
        SameShape(Remove(s, i), Fire(s, now, t).0);
      } else {
        BlankedInv(s, i, e.visibleAt);
        assert s.entries[i := e.(visibleAt := e.visibleAt)] == s.entries;
      }
    }
  }
}
