/** Order and repetition in sequences and sets of any kind. */
module Ordering {

  ghost predicate NoRepeats<T>(s: seq<T>) {
    forall i, j :: 0 <= i < j < |s| ==> s[i] != s[j]
  }

  ghost predicate Increasing(s: seq<int>) {
    forall i, j :: 0 <= i < j < |s| ==> s[i] < s[j]
  }

  // ---------------------------------------------------------------- least elements

  /** x has the smallest rank in s. */
  predicate IsLeast<T(==, !new)>(s: set<T>, rank: T -> int, x: T) {
    forall y :: y in s ==> rank(x) <= rank(y)
  }

  lemma {:induction false} LeastExists<T(!new)>(s: set<T>, rank: T -> int)
    requires s != {}
    ensures exists x :: x in s && IsLeast(s, rank, x)
    decreases |s|
  {
    var some :| some in s;
    var rest := s - {some};
    if rest == {} {
      assert s == {some};
      assert IsLeast(s, rank, some);
    } else {
      LeastExists(rest, rank);
      var best :| best in rest && IsLeast(rest, rank, best);
      var least := if rank(some) < rank(best) then some else best;
      forall y | y in s ensures rank(least) <= rank(y) { assert y == some || y in rest; }
      assert IsLeast(s, rank, least);
    }
  }

  // ---------------------------------------------------------------- sorting

  ghost predicate IsTotalOrder<T(!new)>(le: (T, T) -> bool) {
    && (forall a, b :: le(a, b) || le(b, a))
    && (forall a, b, c :: le(a, b) && le(b, c) ==> le(a, c))
  }

  ghost predicate SortedBy<T>(s: seq<T>, le: (T, T) -> bool) {
    forall i, j :: 0 <= i < j < |s| ==> le(s[i], s[j])
  }

  /** Where x goes in a sorted sequence. */
  function InsertAt<T>(s: seq<T>, le: (T, T) -> bool, x: T): (i: nat)
    ensures i <= |s|
    ensures forall j :: 0 <= j < i ==> !le(x, s[j])
    ensures i < |s| ==> le(x, s[i])
  {
    if s == [] then 0 else if le(x, s[0]) then 0 else 1 + InsertAt(s[1..], le, x)
  }

  lemma InsertKeepsOrder<T(!new)>(s: seq<T>, le: (T, T) -> bool, x: T)
    requires IsTotalOrder(le) && SortedBy(s, le)
    ensures SortedBy(s[..InsertAt(s, le, x)] + [x] + s[InsertAt(s, le, x)..], le)
  {
    var at := InsertAt(s, le, x);
    var r := s[..at] + [x] + s[at..];
    forall i, j | 0 <= i < j < |r| ensures le(r[i], r[j]) {
      if i < at && j == at { var y := s[i]; assert le(y, x) || le(x, y); }
      else if i == at { assert le(x, s[at]); assert j - 1 > at ==> le(s[at], s[j - 1]); }
    }
  }

  lemma InsertAdds<T>(s: seq<T>, at: nat, x: T)
    requires at <= |s|
    ensures multiset(s[..at] + [x] + s[at..]) == multiset(s) + multiset{x}
  {
    assert s == s[..at] + s[at..];
  }

  /** What sort.Strings and sort.Slice return for an order: the items, sorted. */
  method Sort<T(!new)>(items: seq<T>, le: (T, T) -> bool) returns (sorted: seq<T>)
    requires IsTotalOrder(le)
    ensures SortedBy(sorted, le) && multiset(sorted) == multiset(items)
  {
    sorted := [];
    for i := 0 to |items|
      invariant SortedBy(sorted, le) && multiset(sorted) == multiset(items[..i])
    {
      hide SortedBy, IsTotalOrder;
      InsertKeepsOrder(sorted, le, items[i]);
      var at := InsertAt(sorted, le, items[i]);
      InsertAdds(sorted, at, items[i]);
      assert items[..i + 1] == items[..i] + [items[i]];
      sorted := sorted[..at] + [items[i]] + sorted[at..];
    }
    assert items[..|items|] == items;
  }
}
