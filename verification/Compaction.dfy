// Moving the highest ids into the lowest gaps, one at a time.
module Compaction {
  ghost predicate Descending(s: seq<nat>) { forall i, j :: 0 <= i < j < |s| ==> s[i] > s[j] }

  // `rest` are the ids not looked at yet, highest first; the others fill 1..m without a gap.  Every
  // id looked at was above the number of ids.
  ghost predicate Compacting(start: set<nat>, ids: set<nat>, rest: seq<nat>, m: nat) {
    && |ids| == |start| && 0 !in ids && 0 !in start
    && Descending(rest)
    && (forall x :: x in rest ==> x in ids && x in start)
    && (forall x :: x in ids ==> x in rest || x <= m)
    && (forall x :: 1 <= x <= m ==> x in ids)
    && (forall x :: x in start ==> x in rest || x > |start|)
  }

  // The ids above a bound.
  function Over(s: set<nat>, n: nat): set<nat> { set x | x in s && x > n }

  function UpTo(n: nat): (s: set<nat>)
    ensures forall x :: x in s <==> 1 <= x <= n
    ensures |s| == n
  {
    if n == 0 then {} else UpTo(n - 1) + {n}
  }

  function Elements(s: seq<nat>): set<nat> { set x | x in s }

  lemma {:induction false} SubsetSize(s: set<nat>, t: set<nat>)
    requires s <= t
    ensures |s| <= |t| && (s != t ==> |s| < |t|)
  {
    assert |t - s| + |s| == |t| by {
      assert (t - s) + s == t;
    }
    if s != t {
      var x :| x in t - s;
    }
  }

  lemma {:induction false} ElementsSize(s: seq<nat>)
    requires Descending(s)
    ensures |Elements(s)| == |s|
  {
    if s != [] {
      ElementsSize(s[1..]);
      assert Elements(s) == Elements(s[1..]) + {s[0]};
      assert s[0] !in s[1..];
    }
  }

  // With a gap below it the next id is above the number of ids.
  lemma {:induction false} NextIsHigh(start: set<nat>, ids: set<nat>, rest: seq<nat>, m: nat, gap: nat)
    requires Compacting(start, ids, rest, m) && rest != []
    requires 1 <= gap < rest[0] && gap !in ids && forall x :: 1 <= x < gap ==> x in ids
    ensures rest[0] > |start| && m < gap
  {
    var room := UpTo(rest[0]) - {gap};
    assert |room| == rest[0] - 1;
    assert m < gap;
    forall x | x in ids
      ensures x in room
    {
      assert x in rest ==> x <= rest[0];
    }
    SubsetSize(ids, room);
  }

  // Moving the next id into the first gap below it.
  lemma {:induction false} MoveDown(start: set<nat>, ids: set<nat>, rest: seq<nat>, m: nat, gap: nat)
    requires Compacting(start, ids, rest, m) && rest != []
    requires 1 <= gap < rest[0] && gap !in ids && forall x :: 1 <= x < gap ==> x in ids
    ensures rest[0] > |start|
    ensures Compacting(start, ids - {rest[0]} + {gap}, rest[1..], gap)
  {
    NextIsHigh(start, ids, rest, m, gap);
    var after := ids - {rest[0]} + {gap};
    assert |after| == |ids|;
    forall x | x in rest
      ensures x == rest[0] || x in rest[1..]
    {
    }
    forall x | x in rest[1..]
      ensures x in after && x in start
    {
      assert x in rest && x != rest[0];
    }
    assert forall x :: x in ids - {rest[0]} ==> x in rest[1..] || x <= m;
  }

  // Once there is no gap below the next id, or no next id, the ids are 1..n, and exactly those that
  // started above n have moved.
  lemma {:induction false} Compacted(start: set<nat>, ids: set<nat>, rest: seq<nat>, m: nat)
    requires Compacting(start, ids, rest, m)
    requires rest != [] ==> forall x :: 1 <= x < rest[0] ==> x in ids
    ensures ids == UpTo(|start|)
    ensures |Over(start, |start|)| == |start| - |rest|
  {
    var bound := if rest != [] && rest[0] > m then rest[0] else m;
    forall x | x in ids
      ensures x in UpTo(bound)
    {
      assert x in rest ==> x <= rest[0];
    }
    assert ids == UpTo(bound);
    var low := Elements(rest);
    var high := Over(start, |start|);
    ElementsSize(rest);
    assert start == low + high;
    assert low * high == {};
  }

  // The work counted before the start: ids there are, less those that are low enough already.
  lemma {:induction false} WorkCounted(start: set<nat>, n: nat)
    ensures |start| - |set x | x in start && x <= n| == |Over(start, n)|
  {
    var low := set x | x in start && x <= n;
    var high := Over(start, n);
    assert start == low + high;
  }

  // Ids looked at so far are among those above n.
  lemma {:induction false} NoMoreThanCounted(start: set<nat>, ids: set<nat>, rest: seq<nat>, m: nat)
    requires Compacting(start, ids, rest, m)
    ensures |start| - |rest| <= |Over(start, |start|)|
  {
    var low := Elements(rest);
    var high := Over(start, |start|);
    ElementsSize(rest);
    SubsetSize(start, low + high);
    assert |low + high| + |low * high| == |low| + |high|;
  }
}
