/** NeighborPriorityQueue (include/neighbor.h): a bounded array kept sorted by binary search and a
    block move, with a cursor on the first entry not yet expanded. */
module NeighborQueue {
  import opened NeighborOrder

  /** What the queue holds is determined by its history: `seen`, the ids offered by insert, and `popped`,
      the ids handed out. Its ids are the first `capacity` of everything seen, in order; an entry is
      flagged exactly when it was popped; the cursor is on the first unflagged entry. */
  ghost predicate IsQueue(d: Distance, s: seq<Neighbor>, cur: nat, capacity: nat, seen: set<nat>, popped: set<nat>) {
    && cur <= |s|
    && TopK(d, Ids(s), seen, capacity)
    && popped <= seen
    && Flagged(d, s, popped)
    && (forall i :: 0 <= i < cur ==> s[i].expanded)
    && (cur < |s| ==> !s[cur].expanded)
  }

  ghost predicate Flagged(d: Distance, s: seq<Neighbor>, popped: set<nat>) {
    forall i :: 0 <= i < |s| ==> s[i].distance == d(s[i].id) && (s[i].expanded <==> s[i].id in popped)
  }

  // Where the binary search may place an id: everything before pos ranks before it, the rest after.
  ghost predicate SplitsAt(d: Distance, ids: seq<nat>, id: nat, pos: nat) {
    && pos <= |ids|
    && (forall i :: 0 <= i < pos ==> Before(d, ids[i], id))
    && (forall i :: pos <= i < |ids| ==> Before(d, id, ids[i]))
  }

  function InsertAt<T>(s: seq<T>, x: T, pos: nat, k: nat): (r: seq<T>)
    requires pos <= |s| <= k
  {
    var t := s[..pos] + [x] + s[pos..];
    if |t| > k then t[..k] else t
  }

  lemma InsertKeepsRanked(d: Distance, ids: seq<nat>, id: nat, pos: nat)
    requires Ranked(d, ids) && SplitsAt(d, ids, id, pos)
    ensures Ranked(d, ids[..pos] + [id] + ids[pos..])
  {
    var s := ids[..pos] + [id] + ids[pos..];
    forall i, j | 0 <= i < j < |s| ensures Before(d, s[i], s[j]) {
      assert s[i] == if i < pos then ids[i] else if i == pos then id else ids[i - 1];
      assert s[j] == if j < pos then ids[j] else if j == pos then id else ids[j - 1];
    }
  }

  // Inserting in order and cutting off at the capacity keeps "first k of everything seen".
  lemma InsertKeepsTopK(d: Distance, ids: seq<nat>, seen: set<nat>, k: nat, id: nat, pos: nat)
    requires TopK(d, ids, seen, k) && SplitsAt(d, ids, id, pos) && (|ids| == k ==> pos < k)
    ensures TopK(d, InsertAt(ids, id, pos, k), seen + {id}, k)
  {
    var s := ids[..pos] + [id] + ids[pos..];
    var r := InsertAt(ids, id, pos, k);
    InsertKeepsRanked(d, ids, id, pos);
    assert forall y :: y in r ==> y == id || y in ids;
    assert r[pos] == id;
    forall x | x in seen + {id} && x !in r
      ensures |r| == k && forall y :: y in r ==> Before(d, y, x)
    {
      if x in ids {
        var i :| 0 <= i < |ids| && ids[i] == x;
        assert s[if i < pos then i else i + 1] == x;
      } else {
        assert ids[pos] in ids;
      }
    }
  }

  // An id ranked strictly inside the queue and absent from it was never seen.
  lemma InsertedIsNew(d: Distance, ids: seq<nat>, k: nat, seen: set<nat>, id: nat, pos: nat)
    requires TopK(d, ids, seen, k) && SplitsAt(d, ids, id, pos) && (|ids| == k ==> pos < k)
    ensures id !in ids && id !in seen
  {
    assert forall i :: 0 <= i < |ids| ==> ids[i] != id;
    if pos < |ids| {
      assert ids[pos] in ids;
    }
  }

  // r is s with x put in at pos, cut off at k.
  ghost predicate Inserted<T>(s: seq<T>, x: T, pos: nat, k: nat, r: seq<T>) {
    && pos <= |s| <= k && pos < |r|
    && |r| == (if |s| == k then k else |s| + 1)
    && r[pos] == x
    && (forall i :: 0 <= i < pos ==> r[i] == s[i])
    && (forall i :: pos < i < |r| ==> r[i] == s[i - 1])
  }

  lemma InsertedIff<T>(s: seq<T>, x: T, pos: nat, k: nat, r: seq<T>)
    requires pos <= |s| <= k && (|s| == k ==> pos < k)
    ensures Inserted(s, x, pos, k, r) <==> r == InsertAt(s, x, pos, k)
  {
  }

  lemma InsertedFlagged(d: Distance, s: seq<Neighbor>, nbr: Neighbor, pos: nat, k: nat, r: seq<Neighbor>,
                        popped: set<nat>)
    requires Inserted(s, nbr, pos, k, r) && Flagged(d, s, popped)
    requires nbr.distance == d(nbr.id) && !nbr.expanded && nbr.id !in popped
    ensures Flagged(d, r, popped)
  {
  }

  lemma InsertedCursor(s: seq<Neighbor>, nbr: Neighbor, pos: nat, k: nat, r: seq<Neighbor>, cur: nat)
    requires Inserted(s, nbr, pos, k, r) && cur <= |s| && !nbr.expanded
    requires (forall i :: 0 <= i < cur ==> s[i].expanded) && (cur < |s| ==> !s[cur].expanded)
    ensures var c := if pos < cur then pos else cur;
            c <= |r| && (forall i :: 0 <= i < c ==> r[i].expanded) && (c < |r| ==> !r[c].expanded)
  {
  }

  lemma InsertedIds(s: seq<Neighbor>, nbr: Neighbor, pos: nat, k: nat, r: seq<Neighbor>)
    requires Inserted(s, nbr, pos, k, r)
    ensures Inserted(Ids(s), nbr.id, pos, k, Ids(r))
  {
  }

  lemma InsertKeepsQueue(d: Distance, s: seq<Neighbor>, cur: nat, k: nat, seen: set<nat>, popped: set<nat>,
                         nbr: Neighbor, pos: nat)
    requires IsQueue(d, s, cur, k, seen, popped) && nbr.distance == d(nbr.id) && !nbr.expanded
    requires SplitsAt(d, Ids(s), nbr.id, pos) && (|s| == k ==> pos < k)
    ensures IsQueue(d, InsertAt(s, nbr, pos, k), if pos < cur then pos else cur, k, seen + {nbr.id}, popped)
  {
    var r := InsertAt(s, nbr, pos, k);
    InsertedIff(s, nbr, pos, k, r);
    InsertedIds(s, nbr, pos, k, r);
    InsertedIff(Ids(s), nbr.id, pos, k, Ids(r));
    InsertKeepsTopK(d, Ids(s), seen, k, nbr.id, pos);
    InsertedIsNew(d, Ids(s), k, seen, nbr.id, pos);
    InsertedFlagged(d, s, nbr, pos, k, r, popped);
    InsertedCursor(s, nbr, pos, k, r, cur);
  }

  lemma DropKeepsQueue(d: Distance, s: seq<Neighbor>, cur: nat, k: nat, seen: set<nat>, popped: set<nat>, id: nat)
    requires IsQueue(d, s, cur, k, seen, popped)
    requires id in Ids(s) || (0 < |s| == k && Before(d, s[|s| - 1].id, id))
    ensures IsQueue(d, s, cur, k, seen + {id}, popped)
  {
    var ids := Ids(s);
    if id !in ids {
      assert forall y :: y in ids ==> y == ids[|s| - 1] || Before(d, y, ids[|s| - 1]);
    }
  }

  lemma PopKeepsQueue(d: Distance, s: seq<Neighbor>, cur: nat, k: nat, seen: set<nat>, popped: set<nat>, cur': nat)
    requires IsQueue(d, s, cur, k, seen, popped) && cur < cur' <= |s|
    requires forall i :: cur < i < cur' ==> s[i].expanded
    requires cur' < |s| ==> !s[cur'].expanded
    ensures IsQueue(d, s[cur := s[cur].(expanded := true)], cur', k, seen, popped + {s[cur].id})
    ensures Ids(s[cur := s[cur].(expanded := true)]) == Ids(s)
  {
    var r := s[cur := s[cur].(expanded := true)];
    assert Ids(r) == Ids(s);
    assert Ids(s)[cur] in Ids(s);
    assert forall i :: 0 <= i < |s| && i != cur ==> Ids(s)[i] != Ids(s)[cur];
  }

  class NeighborPriorityQueue {
    var size: nat
    var capacity: nat
    var cur: nat
    var data: array<Neighbor>
    ghost var seen: set<nat>
    ghost var popped: set<nat>

    ghost function Contents(): seq<nat>
      reads this, data
      requires size <= data.Length
    {
      Ids(data[..size])
    }

    ghost predicate Valid(d: Distance)
      reads this, data
    {
      size <= capacity < data.Length && IsQueue(d, data[..size], cur, capacity, seen, popped)
    }

    constructor (cap: nat)
      ensures fresh(data) && capacity == cap && size == 0 && cur == 0 && seen == {} && popped == {}
      ensures forall d: Distance :: Valid(d)
    {
      size, capacity, cur := 0, cap, 0;
      data := new Neighbor[cap + 1](_ => Neighbor(0, 0.0, false));
      seen, popped := {}, {};
    }

    method Clear()
      requires capacity < data.Length
      modifies this
      ensures size == 0 && cur == 0 && seen == {} && popped == {} && data == old(data) && capacity == old(capacity)
      ensures forall d: Distance :: Valid(d)
    {
      size, cur := 0, 0;
      seen, popped := {}, {};
    }

    // Called on an empty queue: room for `cap` entries plus the one that falls off.
    method Reserve(cap: nat)
      requires size == 0 && cur == 0 && seen == {} && popped == {}
      modifies this
      ensures data == old(data) || fresh(data)
      ensures capacity == cap && seen == {} && popped == {}
      ensures forall d: Distance :: Valid(d)
    {
      if cap + 1 > data.Length {
        data := new Neighbor[cap + 1](_ => Neighbor(0, 0.0, false));
      }
      capacity := cap;
    }

    method FindPosition(nbr: Neighbor, ghost d: Distance) returns (found: bool, lo: nat)
      requires Valid(d) && nbr.distance == d(nbr.id)
      ensures found ==> nbr.id in Contents()
      ensures !found ==> SplitsAt(d, Contents(), nbr.id, lo)
    {
      lo := 0;
      var hi := size;
      ghost var ids := Contents();
      while lo < hi
        invariant 0 <= lo <= hi <= size
        invariant forall i :: 0 <= i < lo ==> Before(d, ids[i], nbr.id)
        invariant forall i :: hi <= i < size ==> Before(d, nbr.id, ids[i])
      {
        var mid := (lo + hi) / 2;
        assert ids[mid] == data[..size][mid].id;
        if Less(nbr, data[mid]) {
          hi := mid;
        } else if data[mid].id == nbr.id {
          return true, mid;
        } else {
          lo := mid + 1;
        }
      }
      found := false;
    }

    method Insert(nbr: Neighbor, ghost d: Distance)
      requires Valid(d) && capacity > 0 && nbr.distance == d(nbr.id)
      modifies this, data
      ensures Valid(d)
      ensures seen == old(seen) + {nbr.id} && popped == old(popped)
      ensures capacity == old(capacity) && data == old(data)
    {
      ghost var s := data[..size];
      if size == capacity && Less(data[size - 1], nbr) {
        DropKeepsQueue(d, s, cur, capacity, seen, popped, nbr.id);
        seen := seen + {nbr.id};
        return;
      }
      var found, lo := FindPosition(nbr, d);
      if found {
        DropKeepsQueue(d, s, cur, capacity, seen, popped, nbr.id);
        seen := seen + {nbr.id};
        return;
      }
      assert size > 0 ==> Ids(s)[size - 1] == s[size - 1].id == data[size - 1].id;
      assert size == capacity ==> !Before(d, Ids(s)[size - 1], nbr.id);
      InsertKeepsQueue(d, s, cur, capacity, seen, popped, Neighbor(nbr.id, nbr.distance, false), lo);
      Place(Neighbor(nbr.id, nbr.distance, false), lo);
    }

    // Everything from lo on, one place to the right.
    method ShiftRight(lo: nat)
      requires lo <= size < data.Length
      modifies data
      ensures data[..lo] == old(data[..lo]) && data[lo + 1..size + 1] == old(data[lo..size])
    {
      forall j | lo <= j < size { data[j + 1] := data[j]; }
    }

    // The block move and the cursor update at the end of insert.
    method Place(nbr: Neighbor, lo: nat)
      requires lo <= size <= capacity < data.Length && (size == capacity ==> lo < size)
      modifies this, data
      ensures data == old(data) && capacity == old(capacity) && size <= capacity
      ensures data[..size] == InsertAt(old(data[..size]), nbr, lo, old(capacity))
      ensures cur == if lo < old(cur) then lo else old(cur)
      ensures seen == old(seen) + {nbr.id} && popped == old(popped)
    {
      ghost var s := data[..size];
      if lo < capacity {
        ShiftRight(lo);
      }
      data[lo] := nbr;
      assert data[..size + 1] == s[..lo] + [nbr] + s[lo..];
      assert data[..size] == data[..size + 1][..size];
      if size < capacity {
        size := size + 1;
      }
      if lo < cur {
        cur := lo;
      }
      seen := seen + {nbr.id};
    }

    method ClosestUnexpanded(ghost d: Distance) returns (nbr: Neighbor)
      requires Valid(d) && cur < size
      modifies this, data
      ensures Valid(d)
      ensures nbr.id in old(Contents()) && nbr.id !in old(popped) && nbr.distance == d(nbr.id)
      ensures forall y :: y in old(Contents()) && y !in old(popped) && y != nbr.id ==> Before(d, nbr.id, y)
      ensures popped == old(popped) + {nbr.id} && seen == old(seen)
      ensures capacity == old(capacity) && data == old(data) && Contents() == old(Contents())
    {
      ghost var s := data[..size];
      assert Ids(s)[cur] == s[cur].id;
      data[cur] := data[cur].(expanded := true);
      var pre := cur;
      popped := popped + {data[cur].id};
      while cur < size && data[cur].expanded
        invariant pre <= cur <= size
        invariant forall i :: pre < i < cur ==> data[i].expanded
        modifies this`cur
        decreases size - cur
      {
        cur := cur + 1;
      }
      assert data[..size] == s[pre := s[pre].(expanded := true)];
      assert forall i :: pre < i < cur ==> s[i] == data[i];
      PopKeepsQueue(d, s, pre, capacity, seen, popped - {s[pre].id}, cur);
      nbr := data[pre];
    }

    predicate HasUnexpandedNode()
      reads this
    {
      cur < size
    }
  }
}
