/** What one receive pass hands out, said without the loop: the first `max` eligible messages in store order. */
module ReceivePass {
  import opened StoreTypes
  import opened MemorySpec
  import opened MemoryInvariants
  import opened Ordering

  /** Visible, and in a FIFO queue the first visible message of a group that is not in flight. */
  ghost predicate Eligible(s: State, now: int, i: nat)
    requires i < |s.entries|
  {
    var e := s.entries[i];
    && e.visibleAt <= now
    && (Grouped(s.cfg, e.msg) ==> e.msg.groupId !in s.inFlight && !VisibleBefore(s, now, i, e.msg.groupId))
  }

  ghost predicate VisibleBefore(s: State, now: int, i: nat, group: string)
    requires i <= |s.entries|
  {
    exists j :: 0 <= j < i && s.entries[j].visibleAt <= now && s.entries[j].msg.groupId == group
  }

  /** The eligible positions from i on, in order. */
  ghost function EligibleFrom(s: State, now: int, i: nat): seq<nat>
    requires i <= |s.entries|
    decreases |s.entries| - i
  {
    if i == |s.entries| then []
    else (if Eligible(s, now, i) then [i] else []) + EligibleFrom(s, now, i + 1)
  }

  function Min(a: int, b: int): int {
    if a <= b then a else b
  }

  /** The positions a pass hands out: the first max of the eligible ones (a limit below 1 acts as 1). */
  ghost function Picked(s: State, now: int, max: int): seq<nat> {
    var all := EligibleFrom(s, now, 0);
    all[..Min(|all|, if max < 1 then 1 else max)]
  }

  /** EligibleFrom lists exactly the eligible positions, in increasing order. */
  lemma {:induction false} EligibleFromExact(s: State, now: int, i: nat)
    requires i <= |s.entries|
    ensures var p := EligibleFrom(s, now, i);
            && Increasing(p)
            && (forall k :: k in p <==> i <= k < |s.entries| && Eligible(s, now, k))
    decreases |s.entries| - i
  {
    if i < |s.entries| {
      hide Eligible, Increasing;
      EligibleFromExact(s, now, i + 1);
      var rest := EligibleFrom(s, now, i + 1);
      var p := EligibleFrom(s, now, i);
      if Eligible(s, now, i) {
        assert p == [i] + rest;
        PrependIncreasing(i, rest);
        forall k ensures k in p <==> i <= k < |s.entries| && Eligible(s, now, k) {
          assert k in p <==> k == i || k in rest;
        }
      } else {
        assert p == rest;
      }
    }
  }

  lemma PickedAreVisible(s: State, now: int, max: int)
    ensures forall j :: j in Picked(s, now, max) ==> j < |s.entries| && s.entries[j].visibleAt <= now
  {
    EligibleFromExact(s, now, 0);
    forall j | j in Picked(s, now, max) ensures j < |s.entries| && s.entries[j].visibleAt <= now {
      assert j in EligibleFrom(s, now, 0);
    }
  }

  /** The loop is at position i: entries from i on are untouched, and a group counts as in flight exactly when it
      was at the start or has a visible message before i. */
  ghost predicate Midway(s0: State, s: State, now: int, i: nat) {
    && i <= |s0.entries| == |s.entries|
    && s.cfg == s0.cfg
    && (forall j :: i <= j < |s.entries| ==> s.entries[j] == s0.entries[j])
    && (forall g :: g != "" && s.cfg.isFifo ==> (g in s.inFlight <==> g in s0.inFlight || VisibleBefore(s0, now, i, g)))
  }

  lemma DeliverableIsEligible(s0: State, s: State, now: int, i: nat)
    requires Midway(s0, s, now, i) && i < |s.entries|
    ensures Deliverable(s, i, now) <==> Eligible(s0, now, i)
  {
    assert s.entries[i] == s0.entries[i];
  }

  lemma MidwayNext(s0: State, s: State, now: int, visibility: int, i: nat)
    requires Midway(s0, s, now, i) && i < |s.entries|
    ensures Midway(s0, if Deliverable(s, i, now) then Take(s, i, now, visibility) else s, now, i + 1)
  {
    var s1 := if Deliverable(s, i, now) then Take(s, i, now, visibility) else s;
    var e := s0.entries[i];
    assert s.entries[i] == e;
    forall g | g != "" && s.cfg.isFifo
      ensures g in s1.inFlight <==> g in s0.inFlight || VisibleBefore(s0, now, i + 1, g)
    {
      assert VisibleBefore(s0, now, i + 1, g) <==>
             VisibleBefore(s0, now, i, g) || (e.visibleAt <= now && e.msg.groupId == g);
    }
  }

  /** Positions p of s0 are handed out, in that order, on top of what was already collected: each under the next
      fresh handle and timer; every other entry of s is left as it was. */
  ghost predicate HandsOut(s0: State, s: State, now: int, visibility: int, p: seq<nat>, acc: seq<Message>,
                           s': State, out: seq<Message>) {
    && |s'.entries| == |s.entries| == |s0.entries|
    && s'.nextHandle == s.nextHandle + |p|
    && |out| == |acc| + |p|
    && acc <= out
    && (forall k :: 0 <= k < |p| ==> p[k] < |s0.entries|)
    && (forall k :: 0 <= k < |p| ==>
        s'.entries[p[k]] == Received(s0.entries[p[k]], now, visibility, s.nextHandle + k, s.nextTimer + k))
    && (forall k :: 0 <= k < |p| ==> out[|acc| + k] == s'.entries[p[k]].msg)
    && (forall j :: 0 <= j < |s.entries| && j !in p ==> s'.entries[j] == s.entries[j])
  }

  /** Taking position i and then handing out p is handing out [i] + p. */
  lemma HandsOutOneMore(s0: State, s: State, now: int, visibility: int, i: nat, p: seq<nat>, acc: seq<Message>,
                        s': State, out: seq<Message>)
    requires i < |s.entries| == |s0.entries| && s.entries[i] == s0.entries[i] && i !in p
    requires var s1 := Take(s, i, now, visibility);
             HandsOut(s0, s1, now, visibility, p, acc + [s1.entries[i].msg], s', out)
    ensures HandsOut(s0, s, now, visibility, [i] + p, acc, s', out)
  {
    var s1 := Take(s, i, now, visibility);
    var acc1 := acc + [s1.entries[i].msg];
    var q := [i] + p;
    assert acc1[|acc|] == out[|acc|] && s'.entries[i] == s1.entries[i];
    forall k | 0 <= k < |q|
      ensures q[k] < |s0.entries|
              && s'.entries[q[k]] == Received(s0.entries[q[k]], now, visibility, s.nextHandle + k, s.nextTimer + k)
              && out[|acc| + k] == s'.entries[q[k]].msg
    {
      if k > 0 { assert q[k] == p[k - 1]; assert out[|acc1| + (k - 1)] == s'.entries[p[k - 1]].msg; }
    }
    forall j | 0 <= j < |s.entries| && j !in q ensures s'.entries[j] == s.entries[j] {
      assert j !in p && j != i by { assert q[0] == i; assert forall k :: 0 <= k < |p| ==> q[k + 1] == p[k]; }
    }
  }

  /** The first n eligible positions from i on. */
  ghost function PickedFrom(s: State, now: int, i: nat, n: int): seq<nat>
    requires i <= |s.entries|
    decreases |s.entries| - i
  {
    if i == |s.entries| || n <= 0 then []
    else if Eligible(s, now, i) then [i] + PickedFrom(s, now, i + 1, n - 1)
    else PickedFrom(s, now, i + 1, n)
  }

  lemma {:induction false} PickedFromIsPrefix(s: State, now: int, i: nat, n: nat)
    requires i <= |s.entries|
    ensures PickedFrom(s, now, i, n) == var all := EligibleFrom(s, now, i); all[..Min(|all|, n)]
    decreases |s.entries| - i
  {
    if i < |s.entries| && n > 0 {
      var rest := EligibleFrom(s, now, i + 1);
      if Eligible(s, now, i) {
        PickedFromIsPrefix(s, now, i + 1, n - 1);
        assert ([i] + rest)[..Min(|rest|, n - 1) + 1] == [i] + rest[..Min(|rest|, n - 1)];
      } else {
        PickedFromIsPrefix(s, now, i + 1, n);
        assert EligibleFrom(s, now, i) == rest;
      }
    }
  }

  lemma {:induction false} PickedFromAbove(s: State, now: int, i: nat, n: int)
    requires i <= |s.entries|
    ensures forall k :: k in PickedFrom(s, now, i, n) ==> i <= k
    decreases |s.entries| - i
  {
    if i < |s.entries| && n > 0 {
      PickedFromAbove(s, now, i + 1, n - 1);
      PickedFromAbove(s, now, i + 1, n);
    }
  }

  /** What the loop returns and leaves when it continues from position i. */
  lemma {:induction false} ScanFrom(s0: State, s: State, now: int, max: int, visibility: int, i: nat, acc: seq<Message>)
    requires Midway(s0, s, now, i)
    requires |acc| == 0 || |acc| < max
    ensures var (s', out) := Scan(s, i, now, max, visibility, acc);
            HandsOut(s0, s, now, visibility, PickedFrom(s0, now, i, (if max < 1 then 1 else max) - |acc|), acc, s', out)
    decreases |s.entries| - i
  {
    if i < |s.entries| {
      DeliverableIsEligible(s0, s, now, i);
      MidwayNext(s0, s, now, visibility, i);
      if Deliverable(s, i, now) {
        var s1 := Take(s, i, now, visibility);
        var acc1 := acc + [s1.entries[i].msg];
        var (s', out) := Scan(s, i, now, max, visibility, acc);
        var left := (if max < 1 then 1 else max) - |acc1|;
        var p := PickedFrom(s0, now, i + 1, left);
        PickedFromAbove(s0, now, i + 1, left);
        assert HandsOut(s0, s1, now, visibility, p, acc1, s', out) by {
          if |acc1| < max { ScanFrom(s0, s1, now, max, visibility, i + 1, acc1); }
        }
        HandsOutOneMore(s0, s, now, visibility, i, p, acc, s', out);
      } else {
        ScanFrom(s0, s, now, max, visibility, i + 1, acc);
      }
    }
  }

  /** A receive pass returns exactly the first `max` eligible of the messages that have not expired, in store order,
      each under its own fresh handle; every other kept message is left as it was. */
  lemma FirstEligible(s: State, now: int, max: int, requested: int)
    requires !s.closed
    ensures var kept := Expire(s, now);
            var (s', out) := Receive(s, now, max, requested);
            && out.Some?
            && HandsOut(kept, kept, now, s.cfg.EffectiveVisibility(requested), Picked(kept, now, max), [], s', out.value)
  {
    var kept := Expire(s, now);
    PickedFromIsPrefix(kept, now, 0, if max < 1 then 1 else max);
    ScanFrom(kept, kept, now, max, s.cfg.EffectiveVisibility(requested), 0, []);
  }
}
