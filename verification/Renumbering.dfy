/** "New location = number of live locations below": the numbering compact_data assigns (src/index.cpp:2635-2654). */
module Renumbering {
  import opened Wrappers

  function Below(n: nat): (r: set<nat>)
    ensures forall x: nat :: x in r <==> x < n
  {
    if n == 0 then {} else Below(n - 1) + {n - 1}
  }

  lemma {:induction false} BelowCard(n: nat)
    ensures |Below(n)| == n
  {
    if n > 0 {
      BelowCard(n - 1);
    }
  }

  ghost function LiveBelow(live: set<nat>, x: nat): set<nat> {
    set y | y in live && y < x
  }

  ghost function NewLocation(live: set<nat>, x: nat): nat {
    |LiveBelow(live, x)|
  }

  // Order is kept, strictly above a live location.
  lemma NewLocationMonotone(live: set<nat>, x: nat, y: nat)
    requires x <= y
    ensures NewLocation(live, x) <= NewLocation(live, y)
    ensures x in live && x < y ==> NewLocation(live, x) < NewLocation(live, y)
  {
    CardLe(LiveBelow(live, x), LiveBelow(live, y));
    if x in live && x < y {
      assert x in LiveBelow(live, y) && x !in LiveBelow(live, x);
      CardLess(LiveBelow(live, x), LiveBelow(live, y));
    }
  }

  lemma NewLocationBounds(live: set<nat>, x: nat)
    ensures NewLocation(live, x) <= x
    ensures NewLocation(live, x) <= |live|
    ensures x in live ==> NewLocation(live, x) < |live|
  {
    BelowCard(x);
    CardLe(LiveBelow(live, x), Below(x));
    CardLe(LiveBelow(live, x), live);
    if x in live {
      assert x !in LiveBelow(live, x);
      CardLess(LiveBelow(live, x), live);
    }
  }

  lemma NewLocationStep(live: set<nat>, x: nat)
    ensures NewLocation(live, x + 1) == NewLocation(live, x) + if x in live then 1 else 0
  {
    if x in live {
      assert LiveBelow(live, x + 1) == LiveBelow(live, x) + {x};
    } else {
      assert LiveBelow(live, x + 1) == LiveBelow(live, x);
    }
  }

  lemma NewLocationInjective(live: set<nat>, x: nat, y: nat)
    requires x in live && y in live && NewLocation(live, x) == NewLocation(live, y)
    ensures x == y
  {
    if x < y {
      NewLocationMonotone(live, x, y);
    } else if y < x {
      NewLocationMonotone(live, y, x);
    }
  }

  // Every number below |live| is the new location of some live location: no gaps.
  lemma {:induction false} NewLocationOnto(live: set<nat>, k: nat, bound: nat)
    returns (x: nat)
    requires k < NewLocation(live, bound)
    ensures x in live && x < bound && NewLocation(live, x) == k
  {
    NewLocationBounds(live, bound);
    NewLocationStep(live, bound - 1);
    if k < NewLocation(live, bound - 1) {
      x := NewLocationOnto(live, k, bound - 1);
    } else {
      x := bound - 1;
    }
  }

  lemma NewLocationAll(live: set<nat>, bound: nat)
    requires live <= Below(bound)
    ensures NewLocation(live, bound) == |live|
  {
    assert LiveBelow(live, bound) == live;
  }
}
