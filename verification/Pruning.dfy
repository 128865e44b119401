/** prune_neighbors and search_for_point_and_prune (src/index.cpp), without filters and without PQ distances. */
module Pruning {
  import opened NeighborOrder
  import opened NeighborQueue
  import opened GreedySearch
  import opened Occlusion
  import opened RobustPrune

  function JobOf(p: Params, location: nat, pool: seq<Neighbor>): Job {
    Job(location, Truncated(pool, p.maxc), p.alpha, p.range, p.metric, p.dist, {})
  }

  function DistancesFrom(dist: PairDistance, v: nat): (d: Distance)
    ensures forall x: nat :: d(x) == dist(v, x)
  {
    (x: nat) => dist(v, x)
  }

  function DistancesTo(dist: PairDistance, v: nat): (d: Distance)
    ensures forall x: nat :: d(x) == dist(x, v)
  {
    (x: nat) => dist(x, v)
  }

  ghost predicate Sorted(s: seq<Neighbor>) {
    forall i, j :: 0 <= i < j < |s| ==> !Less(s[j], s[i])
  }

  // A rearrangement of the pool, as far as ids and entries go.
  ghost predicate SameEntries(s: seq<Neighbor>, pool: seq<Neighbor>) {
    && multiset(s) == multiset(pool)
    && (forall x :: x in s <==> x in pool)
    && Elems(Ids(s)) == Elems(Ids(pool))
    && (Distinct(Ids(pool)) ==> Distinct(Ids(s)))
  }

  lemma InsertEntry(s: seq<Neighbor>, x: Neighbor, p: nat)
    requires p <= |s|
    ensures SameEntries(s[..p] + [x] + s[p..], s + [x])
  {
    var r := s[..p] + [x] + s[p..];
    assert s == s[..p] + s[p..];
    assert forall y :: y in s <==> y in s[..p] || y in s[p..];
    assert Ids(s) == Ids(s[..p]) + Ids(s[p..]);
    assert Ids(r) == Ids(s[..p]) + [x.id] + Ids(s[p..]);
    assert Ids(s + [x]) == Ids(s) + [x.id];
    assert Ids(s[..p]) == Ids(s)[..p] && Ids(s[p..]) == Ids(s)[p..];
    if Distinct(Ids(s + [x])) {
      InsertDistinct(Ids(s), x.id, p);
    }
  }

  lemma InsertDistinct(ids: seq<nat>, id: nat, p: nat)
    requires p <= |ids| && Distinct(ids + [id])
    ensures Distinct(ids[..p] + [id] + ids[p..])
  {
    var r := ids[..p] + [id] + ids[p..];
    forall i, j | 0 <= i < j < |r| ensures r[i] != r[j] {
      var a := if i < p then i else if i == p then |ids| else i - 1;
      var b := if j < p then j else if j == p then |ids| else j - 1;
      assert r[i] == (ids + [id])[a] && r[j] == (ids + [id])[b];
    }
  }

  lemma SameEntriesTrans(r: seq<Neighbor>, s: seq<Neighbor>, x: Neighbor, pool: seq<Neighbor>, k: nat)
    requires k < |pool| && pool[k] == x && SameEntries(s, pool[..k]) && SameEntries(r, s + [x])
    ensures SameEntries(r, pool[..k + 1])
  {
    assert pool[..k + 1] == pool[..k] + [x];
    assert Ids(pool[..k + 1]) == Ids(pool[..k]) + [x.id];
    assert Ids(s + [x]) == Ids(s) + [x.id];
    if Distinct(Ids(pool[..k + 1])) {
      assert forall i :: 0 <= i < k ==> Ids(pool[..k + 1])[i] == Ids(pool[..k])[i];
      assert Ids(pool[..k + 1])[k] == x.id;
      assert x.id !in Ids(pool[..k]);
      assert x.id !in Elems(Ids(s));
    }
  }

  // std::sort on the candidate pool.
  method SortPool(pool: seq<Neighbor>) returns (s: seq<Neighbor>)
    ensures Sorted(s) && SameEntries(s, pool)
  {
    s := [];
    for k := 0 to |pool|
      invariant Sorted(s) && SameEntries(s, pool[..k])
    {
      var r := SortIn(s, pool[k]);
      SameEntriesTrans(r, s, pool[k], pool, k);
      s := r;
    }
    assert pool[..|pool|] == pool;
  }

  method SortIn(s: seq<Neighbor>, x: Neighbor) returns (r: seq<Neighbor>)
    requires Sorted(s)
    ensures Sorted(r) && SameEntries(r, s + [x])
  {
    var p := |s|;
    while p > 0 && Less(x, s[p - 1])
      invariant 0 <= p <= |s|
      invariant forall i :: p <= i < |s| ==> Less(x, s[i])
    {
      p := p - 1;
    }
    r := s[..p] + [x] + s[p..];
    InsertEntry(s, x, p);
    SortedInsert(s, x, p);
  }

  lemma SortedInsert(s: seq<Neighbor>, x: Neighbor, p: nat)
    requires Sorted(s) && p <= |s| && (p > 0 ==> !Less(x, s[p - 1])) && forall i :: p <= i < |s| ==> Less(x, s[i])
    ensures Sorted(s[..p] + [x] + s[p..])
  {
    var r := s[..p] + [x] + s[p..];
    forall i, j | 0 <= i < j < |r| ensures !Less(r[j], r[i]) {
      assert r[i] == if i < p then s[i] else if i == p then x else s[i - 1];
      assert r[j] == if j < p then s[j] else if j == p then x else s[j - 1];
    }
  }

  // With distances a function of the id, sorting distinct candidates yields the one ranked list.
  lemma SortedRanked(d: Distance, s: seq<Neighbor>)
    requires Sorted(s) && Distinct(Ids(s)) && forall i :: 0 <= i < |s| ==> s[i].distance == d(s[i].id)
    ensures Ranked(d, Ids(s))
  {
    forall i, j | 0 <= i < j < |s| ensures Before(d, Ids(s)[i], Ids(s)[j]) {
      assert Ids(s)[i] != Ids(s)[j] && !Less(s[j], s[i]);
    }
  }

  // The candidates s in (distance, id) order.
  ghost predicate IsCandidateList(pool: seq<Neighbor>, s: set<nat>, d: Distance) {
    && Elems(Ids(pool)) == s
    && Ranked(d, Ids(pool))
    && (forall i :: 0 <= i < |pool| ==> pool[i].distance == d(pool[i].id))
  }

  lemma CandidatesSorted(pool0: seq<Neighbor>, sorted: seq<Neighbor>, d: Distance)
    requires Sorted(sorted) && SameEntries(sorted, pool0) && Distinct(Ids(pool0))
    requires forall i :: 0 <= i < |pool0| ==> pool0[i].distance == d(pool0[i].id)
    ensures IsCandidateList(sorted, Elems(Ids(pool0)), d)
  {
    assert forall i :: 0 <= i < |sorted| ==> sorted[i] in pool0;
    SortedRanked(d, sorted);
  }

  // The saturation loop: the pool's ids in order, as long as there is room.
  function FillUp(location: nat, ids: seq<nat>, range: nat, kept: seq<nat>): (r: seq<nat>)
    ensures kept <= r
  {
    if ids == [] then kept
    else
      var n := |ids| - 1;
      var r := FillUp(location, ids[..n], range, kept);
      if |r| < range && ids[n] !in r && ids[n] != location then r + [ids[n]] else r
  }

  lemma {:induction false} FillUpFull(location: nat, ids: seq<nat>, range: nat, kept: seq<nat>, n: nat)
    requires n <= |ids| && |FillUp(location, ids[..n], range, kept)| >= range
    ensures FillUp(location, ids, range, kept) == FillUp(location, ids[..n], range, kept)
  {
    if n < |ids| {
      var m := |ids| - 1;
      assert ids[..m][..n] == ids[..n];
      FillUpFull(location, ids[..m], range, kept, n);
    } else {
      assert ids[..n] == ids;
    }
  }

  // What prune_neighbors makes of a sorted, truncated pool.
  function Chosen(j: Job, saturate: bool): seq<nat> {
    if saturate && j.alpha > 1.0 then FillUp(j.location, Ids(j.pool), j.degree, OccludedList(j)) else OccludedList(j)
  }

  lemma ChosenEmpty(j: Job, saturate: bool)
    requires j.Metrized() && j.pool == []
    ensures Chosen(j, saturate) == []
  {
    OccludedListShape(j.location, j.pool, j.alpha, j.degree, 0, j.metric, j.dist, j.deleted);
    DistinctCard(OccludedList(j));
    assert Elems(OccludedList(j)) == {};
  }

  // Distances are nonnegative where the metric needs it.
  ghost predicate Measures(p: Params, d: Distance) {
    p.Metrized() && (!p.metric.InnerProduct? ==> forall x: nat :: d(x) >= 0.0)
  }

  /** The occluded list of a candidate list cut to maxc, by ids and distances alone. */
  lemma OccludedAlpha(p: Params, location: nat, pool: seq<Neighbor>, s: set<nat>, d: Distance, removed: set<nat>)
    requires IsCandidateList(pool, s, d) && Measures(p, d)
    ensures var j := Job(location, Truncated(pool, p.maxc), p.alpha, p.range, p.metric, p.dist, removed);
            AlphaPruned(p, s, location, removed, d, OccludedList(j))
  {
    var j := Job(location, Truncated(pool, p.maxc), p.alpha, p.range, p.metric, p.dist, removed);
    var order, rounds, a := OccludedListPruned(j);
    PoolPrunedIds(p, location, pool, j.pool, s, d, removed, OccludedList(j), order, rounds, a);
  }

  // The saturation loop adds the closest ids first.
  lemma {:induction false} FillUpFacts(location: nat, ids: seq<nat>, range: nat, kept: seq<nat>, d: Distance)
    requires Ranked(d, ids) && Distinct(kept) && |kept| <= range
    ensures Filled(location, ids, range, kept, d, FillUp(location, ids, range, kept))
  {
    if ids != [] {
      var n := |ids| - 1;
      FillUpFacts(location, ids[..n], range, kept, d);
      FillOne(location, ids, range, kept, d, FillUp(location, ids[..n], range, kept));
    }
  }

  ghost predicate Filled(location: nat, ids: seq<nat>, range: nat, kept: seq<nat>, d: Distance, r: seq<nat>) {
    && kept <= r && Distinct(r) && |r| <= range && Ranked(d, r[|kept|..])
    && (|r| < range ==> forall x :: x in ids && x != location ==> x in r)
    && (forall x :: x in r && x !in kept ==> x in ids && x != location && AllBefore(d, ids, location, x, r))
    && (forall x :: x in r[|kept|..] ==> x in ids)
  }

  lemma FillOne(location: nat, ids: seq<nat>, range: nat, kept: seq<nat>, d: Distance, r: seq<nat>)
    requires Ranked(d, ids) && ids != [] && Filled(location, ids[..|ids| - 1], range, kept, d, r)
    ensures var x := ids[|ids| - 1];
            Filled(location, ids, range, kept, d, if |r| < range && x !in r && x != location then r + [x] else r)
  {
    var n := |ids| - 1;
    var x := ids[n];
    assert ids == ids[..n] + [x];
    if |r| < range && x !in r && x != location {
      var r' := r + [x];
      assert r'[|kept|..] == r[|kept|..] + [x];
      assert forall i :: 0 <= i < |r[|kept|..]| ==> r[|kept|..][i] in r[|kept|..];
      forall y | y in r' && y !in kept ensures AllBefore(d, ids, location, y, r') {
        assert y != x ==> AllBefore(d, ids[..n], location, y, r);
        LastIsLater(d, ids, y);
      }
    } else {
      forall y | y in r && y !in kept ensures AllBefore(d, ids, location, y, r) {
        assert AllBefore(d, ids[..n], location, y, r);
        LastIsLater(d, ids, y);
      }
    }
  }

  // The last of a ranked listing is before none of it.
  lemma LastIsLater(d: Distance, ids: seq<nat>, y: nat)
    requires Ranked(d, ids) && ids != [] && y in ids
    ensures !Before(d, ids[|ids| - 1], y)
  {
  }

  // Every closer id is in r, the location apart.
  ghost predicate AllBefore(d: Distance, ids: seq<nat>, location: nat, x: nat, r: seq<nat>) {
    forall y :: y in ids && y != location && Before(d, y, x) ==> y in r
  }

  /** What prune_neighbors chooses from a candidate list, by ids and distances alone. */
  lemma ChosenMeaning(p: Params, saturate: bool, location: nat, pool: seq<Neighbor>, s: set<nat>, d: Distance)
    requires IsCandidateList(pool, s, d) && Measures(p, d)
    ensures ChosenFrom(p, saturate, s, location, d, Chosen(JobOf(p, location, pool), saturate))
  {
    var j := JobOf(p, location, pool);
    var base, list := OccludedList(j), Chosen(j, saturate);
    OccludedAlpha(p, location, pool, s, d, {});
    if saturate && p.alpha > 1.0 {
      PrunedList(p, s, location, {}, d, base);
      ForemostListed(p, pool, s, d);
      FillUpFacts(location, Ids(j.pool), p.range, base, d);
      forall x | x in list && x !in base
        ensures forall y :: y in Foremost(d, s, p.maxc) && y != location && Before(d, y, x) ==> y in list
      {
        assert AllBefore(d, Ids(j.pool), location, x, list);
      }
    }
    assert ToppedUp(p, saturate, s, location, d, base, list);
  }

  lemma ForemostListed(p: Params, pool: seq<Neighbor>, s: set<nat>, d: Distance)
    requires IsCandidateList(pool, s, d)
    ensures var ids := Ids(Truncated(pool, p.maxc));
            Ranked(d, ids) && forall x :: x in ids <==> x in Foremost(d, s, p.maxc)
  {
    var all, ids := Ids(pool), Ids(Truncated(pool, p.maxc));
    assert forall i :: 0 <= i < |ids| ==> ids[i] == all[i];
    ForemostAt(d, all, p.maxc);
    forall x | x in Foremost(d, s, p.maxc) ensures x in ids {
      assert x in Elems(all);
      var i :| 0 <= i < |all| && all[i] == x;
      assert ids[i] == x;
    }
  }

  // r is what pruning makes of the candidates s.
  ghost predicate Prunes(location: nat, s: set<nat>, d: Distance, p: Params, saturate: bool, r: seq<nat>) {
    exists pool :: PrunesPool(pool, location, s, d, p, saturate, r)
  }

  lemma PrunesMeaning(location: nat, s: set<nat>, d: Distance, p: Params, saturate: bool, r: seq<nat>)
    requires Prunes(location, s, d, p, saturate, r) && Measures(p, d)
    ensures ChosenFrom(p, saturate, s, location, d, r)
  {
    var pool :| PrunesPool(pool, location, s, d, p, saturate, r);
    ChosenMeaning(p, saturate, location, pool, s, d);
  }

  ghost predicate PrunesPool(pool: seq<Neighbor>, location: nat, s: set<nat>, d: Distance, p: Params, saturate: bool,
                             r: seq<nat>)
  {
    IsCandidateList(pool, s, d) && r == Chosen(JobOf(p, location, pool), saturate)
  }

  // The fallbacks of search_for_point_and_prune: the closest candidate, or the entry point.
  function WithFallback(r: seq<nat>, pool: seq<Neighbor>, start: nat): seq<nat> {
    if r != [] then r else if pool != [] then [pool[0].id] else [start]
  }

  /** The list found for a location: some search ended at a fixed point, and its expanded nodes were pruned. */
  ghost predicate FoundFor(G: Graph, location: nat, L: nat, start: nat, p: Params, saturate: bool, list: seq<nat>) {
    exists ids, popped, pool :: FoundFrom(G, location, L, start, p, saturate, list, ids, popped, pool)
  }

  ghost predicate FoundFrom(G: Graph, location: nat, L: nat, start: nat, p: Params, saturate: bool, list: seq<nat>,
                            ids: seq<nat>, popped: set<nat>, pool: seq<Neighbor>)
  {
    && FixedPoint(DistancesTo(p.dist, location), G, ids, L) && Elems(ids) <= popped
    && (forall v :: v in popped ==> v < |G|)
    && IsCandidateList(pool, popped - {location}, DistancesTo(p.dist, location))
    && list == WithFallback(Chosen(JobOf(p, location, pool), saturate), Truncated(pool, p.maxc), start)
  }

  /** The same by ids and distances alone: a search came to rest at ids, chosen is the pruned choice among the nodes it
      expanded, and the list is that, or the closest expanded node, or the entry point. */
  ghost predicate SearchedFor(G: Graph, location: nat, L: nat, start: nat, p: Params, saturate: bool, list: seq<nat>,
                              ids: seq<nat>, popped: set<nat>, chosen: seq<nat>)
  {
    var d := DistancesTo(p.dist, location);
    && FixedPoint(d, G, ids, L) && Elems(ids) <= popped && (forall v :: v in popped ==> v < |G|)
    && ChosenFrom(p, saturate, popped - {location}, location, d, chosen)
    && (chosen != [] ==> list == chosen)
    && (chosen == [] && p.maxc > 0 && popped - {location} != {} ==>
          |list| == 1 && IsLeast(d, popped - {location}, list[0]))
    && (chosen == [] && (p.maxc == 0 || popped - {location} == {}) ==> list == [start])
  }

  lemma FallbackMeaning(p: Params, pool: seq<Neighbor>, s: set<nat>, d: Distance, chosen: seq<nat>, start: nat)
    requires IsCandidateList(pool, s, d) && chosen == []
    ensures var list := WithFallback(chosen, Truncated(pool, p.maxc), start);
            if p.maxc > 0 && s != {} then |list| == 1 && IsLeast(d, s, list[0]) else list == [start]
  {
    FirstIsLeast(d, Ids(pool), s);
  }

  // Some search and choice give the list.
  ghost predicate Searched(G: Graph, location: nat, L: nat, start: nat, p: Params, saturate: bool, list: seq<nat>) {
    exists ids, popped, chosen :: SearchedFor(G, location, L, start, p, saturate, list, ids, popped, chosen)
  }

  lemma FoundMeaning(G: Graph, location: nat, L: nat, start: nat, p: Params, saturate: bool, list: seq<nat>)
    requires FoundFor(G, location, L, start, p, saturate, list) && p.Metrized()
    ensures Searched(G, location, L, start, p, saturate, list)
  {
    var ids: seq<nat>, popped: set<nat>, pool: seq<Neighbor> :|
      FoundFrom(G, location, L, start, p, saturate, list, ids, popped, pool);
    var d, s := DistancesTo(p.dist, location), popped - {location};
    var chosen := Chosen(JobOf(p, location, pool), saturate);
    ChosenMeaning(p, saturate, location, pool, s, d);
    if chosen == [] {
      FallbackMeaning(p, pool, s, d, chosen, start);
    }
    assert SearchedFor(G, location, L, start, p, saturate, list, ids, popped, chosen);
  }

  // What callers may rely on: distinct ids of the pool other than `location`, at most `range`, and at
  // least one whenever the pool offers one.
  ghost predicate PruneResult(location: nat, pool: seq<Neighbor>, range: nat, result: seq<nat>) {
    && Distinct(result)
    && |result| <= range
    && (forall x :: x in result ==> x != location && x in Ids(pool))
  }

  // The closest candidate is always considered: nothing can occlude position 0.
  lemma FirstKept(j: Job)
    requires j.Metrized() && |j.pool| > 0 && j.alpha >= 1.0 && |OccludedList(j)| < j.degree
    ensures j.pool[0].id != j.location && j.pool[0].id !in j.deleted ==> j.pool[0].id in OccludedList(j)
  {
    var order, rounds, a := OccludedListOutcome(j);
    assert !Covered(j, order, 0, a);
    if j.pool[0].id != j.location && j.pool[0].id !in j.deleted {
      KeptContains(j, order, 0);
    }
  }

  lemma {:induction false} KeptContains(j: Job, order: seq<nat>, p: nat)
    requires InPool(j, order) && p in order && j.pool[p].id != j.location && j.pool[p].id !in j.deleted
    ensures j.pool[p].id in Kept(j, order)
  {
    var n := |order| - 1;
    assert order == order[..n] + [order[n]];
    if order[n] != p {
      KeptContains(j, order[..n], p);
    }
  }

  method PruneNeighbors(location: nat, pool0: seq<Neighbor>, range: nat, maxc: nat, alpha: real, saturate: bool,
                        metric: Metric, dist: PairDistance)
    returns (pool: seq<Neighbor>, pruned: seq<nat>, ghost sorted: seq<Neighbor>)
    requires Job(location, pool0, alpha, range, metric, dist, {}).Metrized() && Distinct(Ids(pool0))
    ensures PruneResult(location, pool0, range, pruned)
    ensures alpha >= 1.0 && range > 0 && maxc > 0 && |pool0| > 0 && location !in Ids(pool0) ==> |pruned| > 0
    ensures saturate && alpha > 1.0 && |pruned| < range ==>
              forall x :: x in Ids(pool) && x != location ==> x in pruned
    ensures |pool| == (if |pool0| > maxc then maxc else |pool0|) && Elems(Ids(pool)) <= Elems(Ids(pool0))
    ensures Sorted(sorted) && SameEntries(sorted, pool0) && pool == Truncated(sorted, maxc)
    ensures pruned == Chosen(Job(location, pool, alpha, range, metric, dist, {}), saturate)
  {
    pruned := [];
    pool := pool0;
    if |pool| == 0 {
      sorted := [];
      ChosenEmpty(Job(location, pool, alpha, range, metric, dist, {}), saturate);
      return;
    }
    pool, pruned, sorted := SortAndOcclude(location, pool0, range, maxc, alpha, metric, dist);
    assert forall i :: 0 <= i < |sorted| ==> sorted[i] in pool0;
    OccludedListShape(location, pool, alpha, range, |pool|, metric, dist, {});
    PoolShape(pool0, sorted, pool, maxc);
    if alpha >= 1.0 && range > 0 && maxc > 0 && |pruned| < range {
      FirstKept(Job(location, pool, alpha, range, metric, dist, {}));
      assert pool[0].id == Ids(pool)[0] && Ids(pool)[0] in Elems(Ids(pool0));
    }
    if saturate && alpha > 1.0 {
      pruned := Saturate(location, pool, range, pruned);
    }
  }

  method SortAndOcclude(location: nat, pool0: seq<Neighbor>, range: nat, maxc: nat, alpha: real, metric: Metric,
                        dist: PairDistance)
    returns (pool: seq<Neighbor>, kept: seq<nat>, ghost sorted: seq<Neighbor>)
    ensures Sorted(sorted) && SameEntries(sorted, pool0) && pool == Truncated(sorted, maxc)
    ensures kept == OccludedList(Job(location, pool, alpha, range, metric, dist, {}))
  {
    var inOrder := SortPool(pool0);
    sorted := inOrder;
    pool, kept := OccludeList(location, inOrder, alpha, range, maxc, metric, dist, {});
  }

  // Fills the list up to `range` from the pool, in order.
  method Saturate(location: nat, pool: seq<Neighbor>, range: nat, pruned0: seq<nat>) returns (pruned: seq<nat>)
    requires PruneResult(location, pool, range, pruned0)
    ensures PruneResult(location, pool, range, pruned) && pruned == FillUp(location, Ids(pool), range, pruned0)
    ensures |pruned| < range ==> forall x :: x in Ids(pool) && x != location ==> x in pruned
  {
    pruned := pruned0;
    ghost var ids := Ids(pool);
    for i := 0 to |pool|
      invariant PruneResult(location, pool, range, pruned) && pruned == FillUp(location, ids[..i], range, pruned0)
      invariant forall k :: 0 <= k < i && pool[k].id != location ==> pool[k].id in pruned
    {
      if |pruned| >= range {
        FillUpFull(location, ids, range, pruned0, i);
        return;
      }
      assert ids[..i + 1][..i] == ids[..i];
      if pool[i].id !in pruned && pool[i].id != location {
        assert Ids(pool)[i] == pool[i].id;
        pruned := pruned + [pool[i].id];
      }
    }
    assert ids[..|pool|] == ids;
  }

  lemma PoolShape(pool0: seq<Neighbor>, sorted: seq<Neighbor>, pool: seq<Neighbor>, maxc: nat)
    requires SameEntries(sorted, pool0) && pool == (if |sorted| > maxc then sorted[..maxc] else sorted)
    requires Sorted(sorted)
    ensures |sorted| == |pool0| && Sorted(pool) && (Distinct(Ids(pool0)) ==> Distinct(Ids(pool)))
    ensures Elems(Ids(pool)) <= Elems(Ids(pool0))
    ensures forall x :: x in Ids(sorted) ==> x in Ids(pool0)
    ensures forall x :: x in Ids(pool) ==> x in Ids(pool0)
  {
    assert |multiset(sorted)| == |multiset(pool0)|;
    assert forall i :: 0 <= i < |pool| ==> Ids(pool)[i] == Ids(sorted)[i];
    forall x | x in Ids(pool) ensures x in Ids(pool0) {
      var i :| 0 <= i < |pool| && Ids(pool)[i] == x;
      assert Ids(sorted)[i] == x && x in Elems(Ids(sorted));
    }
    forall x | x in Ids(sorted) ensures x in Ids(pool0) {
      assert x in Elems(Ids(sorted));
    }
  }

  /** search_for_point_and_prune: search from the starting points, drop the point itself, prune; never
      empty. Every id returned is reachable from the starting points, and the point itself is returned
      only through the last fallback, when it is the starting point. */
  method SearchForPointAndPrune(q: NeighborPriorityQueue, location: nat, L: nat, init: seq<nat>, graph: Graph,
                                start: nat, range: nat, maxc: nat, alpha: real, saturate: bool,
                                metric: Metric, dist: PairDistance)
    returns (ok: bool, pruned: seq<nat>)
    requires L > 0 && Closed(graph) && start in init
    requires !metric.InnerProduct? ==> forall a, b :: dist(a, b) >= 0.0
    requires q.size == 0 && q.cur == 0 && q.seen == {} && q.popped == {}
    modifies q, q.data
    ensures ok <==> forall v :: v in init ==> v < |graph|
    ensures ok ==> 0 < |pruned| <= (if range > 0 then range else 1) && Distinct(pruned)
    ensures ok ==> forall x :: x in pruned ==> x < |graph| && Reachable(graph, init, x)
    ensures ok ==> location !in pruned || pruned == [start]
    ensures ok ==> FoundFor(graph, location, L, start, Params(range, maxc, alpha, metric, dist), saturate, pruned)
  {
    pruned := [];
    var pool;
    ok, pool := SearchCandidates(q, location, L, init, graph, dist);
    if !ok {
      return;
    }
    ghost var sorted;
    var sortedPool;
    sortedPool, pruned, sorted := PruneNeighbors(location, pool, range, maxc, alpha, saturate, metric, dist);
    CandidatesSorted(pool, sorted, DistancesTo(dist, location));
    if |pruned| == 0 {
      if |sortedPool| != 0 {
        assert Ids(sortedPool)[0] in Elems(Ids(pool));
        pruned := [sortedPool[0].id];
      } else {
        StartReachable(graph, init, start);
        pruned := [start];
      }
    }
    ghost var p := Params(range, maxc, alpha, metric, dist);
    assert FoundFrom(graph, location, L, start, p, saturate, pruned, q.Contents(), q.popped, sorted);
  }

  // The expanded nodes other than the point itself.
  method SearchCandidates(q: NeighborPriorityQueue, location: nat, L: nat, init: seq<nat>, graph: Graph,
                          dist: PairDistance)
    returns (ok: bool, pool: seq<Neighbor>)
    requires L > 0 && Closed(graph)
    requires q.size == 0 && q.cur == 0 && q.seen == {} && q.popped == {}
    modifies q, q.data
    ensures ok <==> forall v :: v in init ==> v < |graph|
    ensures ok ==> Distinct(Ids(pool)) && location !in Ids(pool)
    ensures ok ==> forall x :: x in Ids(pool) ==> x < |graph| && Reachable(graph, init, x)
    ensures ok ==> forall i :: 0 <= i < |pool| ==> pool[i].distance == DistancesTo(dist, location)(pool[i].id)
    ensures q.size <= q.data.Length
    ensures ok ==> FixedPoint(DistancesTo(dist, location), graph, q.Contents(), L) && Elems(q.Contents()) <= q.popped
    ensures ok ==> Elems(Ids(pool)) == q.popped - {location} && forall v :: v in q.popped ==> v < |graph|
  {
    pool := [];
    var d := DistancesTo(dist, location);
    var expanded;
    ok, expanded := IterateToFixedPoint(q, L, init, graph, d, false);
    if ok {
      pool := WithoutLocation(expanded, location);
      CandidatesReachable(graph, init, d, q.seen, q.popped, expanded, location, pool);
    }
  }

  lemma CandidatesReachable(graph: Graph, init: seq<nat>, d: Distance, seen: set<nat>, popped: set<nat>,
                            expanded: seq<Neighbor>, location: nat, pool: seq<Neighbor>)
    requires Closed(graph) && SearchInv(graph, init, seen, popped) && popped <= seen && Expansion(d, expanded, popped)
    requires forall x :: x in pool <==> x in expanded && x.id != location
    requires forall x :: x in Ids(pool) <==> x in Ids(expanded) && x != location
    ensures location !in Ids(pool) && Elems(Ids(pool)) == popped - {location} && forall v :: v in popped ==> v < |graph|
    ensures forall x :: x in Ids(pool) ==> x < |graph| && Reachable(graph, init, x)
    ensures forall i :: 0 <= i < |pool| ==> pool[i].distance == d(pool[i].id)
  {
    forall x | x in Ids(pool) ensures x in popped && x < |graph| && Reachable(graph, init, x) {
      assert x in Elems(Ids(expanded));
    }
    assert forall i :: 0 <= i < |pool| ==> pool[i] in expanded;
  }

  method WithoutLocation(expanded: seq<Neighbor>, location: nat) returns (pool: seq<Neighbor>)
    ensures forall x :: x in pool <==> x in expanded && x.id != location
    ensures Distinct(Ids(expanded)) ==> Distinct(Ids(pool))
    ensures forall x :: x in Ids(pool) <==> x in Ids(expanded) && x != location
  {
    pool := [];
    for i := 0 to |expanded|
      invariant forall x :: x in pool <==> x in expanded[..i] && x.id != location
      invariant Distinct(Ids(expanded)) ==> Distinct(Ids(pool))
      invariant forall x :: x in Ids(pool) <==> x in Ids(expanded)[..i] && x != location
    {
      assert expanded[..i + 1] == expanded[..i] + [expanded[i]];
      assert Ids(expanded)[..i + 1] == Ids(expanded)[..i] + [expanded[i].id];
      if expanded[i].id != location {
        assert Ids(pool + [expanded[i]]) == Ids(pool) + [expanded[i].id];
        pool := pool + [expanded[i]];
      }
    }
    assert expanded[..|expanded|] == expanded && Ids(expanded)[..|expanded|] == Ids(expanded);
  }
}
