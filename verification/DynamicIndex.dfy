/** The mutable index (src/index.cpp): one object whose slot tables, tag maps, adjacency lists and rows must agree.
    The starting point is the first frozen point, as the constructor sets it. Searches and inserts run
    to completion before the next operation starts; the interleaved slot steps are in SlotAccounting. */
module DynamicIndex {
  import opened NeighborOrder
  import opened NeighborQueue
  import opened GreedySearch
  import opened Occlusion
  import opened RobustPrune
  import opened Pruning
  import opened RowSpace
  import opened NaturalNumbers
  import opened Renumbering
  import opened Reposition
  import opened SlotAccounting
  import opened Stores
  import opened Consolidation
  import opened LinkBuild
  import opened Compaction
  import GraphFile
  import opened Wrappers

  // Distances between stored rows.
  function RowDistance(rows: seq<Vector>, vd: VectorDistance): PairDistance {
    (a: nat, b: nat) => if a < |rows| && b < |rows| then vd(rows[a], rows[b]) else 0.0
  }

  // No allocated or frozen location has an edge to an empty slot.
  ghost predicate NoDangling(G: Graph, empty: set<nat>) {
    forall v, w :: 0 <= v < |G| && v !in empty && w in G[v] ==> w !in empty
  }

  // The slots from nd on have no list.
  ghost predicate BlankPast(G: Graph, nd: nat, maxPoints: nat) {
    forall u :: nd <= u < maxPoints && u < |G| ==> G[u] == []
  }

  // What an insert at l does to the lists: l gets the pruned result of a search, its neighbours their back edges, and
  // no other list changes.
  ghost predicate Connected(G: Graph, H: Graph, l: nat, start: nat, wp: WriteParams, p: Params) {
    && |H| == |G| && l < |H|
    && H[l] != [] && l !in H[l]
    && FoundFor(G, l, wp.searchListSize, start, p, wp.saturate, H[l])
    && (forall v :: v in H[l] ==> v < |H| && BackEdge(G[v], l, v, p, wp.saturate, H[v]))
    && (forall v :: 0 <= v < |H| && v != l && v !in H[l] ==> H[v] == G[v])
  }

  /** The same in the distances between the stored rows, with the write's own bounds: in some distance between ids that
      is the rows', and what that means for the new list. */
  ghost predicate ConnectedInRows(G: Graph, H: Graph, l: nat, start: nat, wp: WriteParams, metric: Metric,
                                  rows: seq<Vector>, vd: VectorDistance)
  {
    && l < |H|
    && (exists dist ::
          && Gauges(dist, rows, vd) && Connected(G, H, l, start, wp, WithDistance(wp, metric, dist))
          && Searched(G, l, wp.searchListSize, start, WithDistance(wp, metric, dist), wp.saturate, H[l])
          && BackEdgesChosen(G, H, l, WithDistance(wp, metric, dist), wp.saturate))
    && InsertedNear(G, H[l], l, wp, metric, rows, vd)
  }

  // Full lists among the neighbours': chosen among exactly their entries and l.
  ghost predicate BackEdgesChosen(G: Graph, H: Graph, l: nat, p: Params, saturate: bool) {
    l < |H| && forall v :: v in H[l] ==> v < |G| && v < |H| && FullChosen(G[v], l, v, p, saturate, H[v])
  }

  lemma ConnectedMeaning(G: Graph, H: Graph, l: nat, start: nat, wp: WriteParams, p: Params, rows: seq<Vector>,
                         vd: VectorDistance)
    requires Connected(G, H, l, start, wp, p) && p.Metrized() && Gauges(p.dist, rows, vd)
    requires p.range == wp.range && p.maxc == wp.maxc && p.alpha == wp.alpha
    requires Closed(G) && |G| == |rows| && start < |G|
    ensures ConnectedInRows(G, H, l, start, wp, p.metric, rows, vd)
  {
    InsertedMeaning(G, H[l], l, start, wp, p, rows, vd);
    FoundMeaning(G, l, wp.searchListSize, start, p, wp.saturate, H[l]);
    forall v | v in H[l] ensures FullChosen(G[v], l, v, p, wp.saturate, H[v]) {
      BackEdgeMeaning(G[v], l, v, p, wp.saturate, H[v]);
    }
    assert WithDistance(wp, p.metric, p.dist) == p;
  }

  lemma ConnectedByRows(G: Graph, H: Graph, l: nat, start: nat, wp: WriteParams, metric: Metric, rows: seq<Vector>,
                        vd: VectorDistance)
    requires Connected(G, H, l, start, wp, Params(wp.range, wp.maxc, wp.alpha, metric, RowDistance(rows, vd)))
    requires !metric.InnerProduct? ==> forall u, v :: vd(u, v) >= 0.0
    requires Closed(G) && |G| == |rows| && start < |G|
    ensures ConnectedInRows(G, H, l, start, wp, metric, rows, vd)
  {
    ConnectedMeaning(G, H, l, start, wp, Params(wp.range, wp.maxc, wp.alpha, metric, RowDistance(rows, vd)), rows, vd);
  }

  // Starting points of every search.
  function InitIds(maxPoints: nat, numFrozen: nat): (r: seq<nat>)
    ensures |r| == numFrozen && forall i :: 0 <= i < numFrozen ==> r[i] == maxPoints + i
  {
    seq(numFrozen, i => maxPoints + i)
  }

  // Reachable locations are occupied; an empty slot just taken is not reachable yet.
  lemma ReachableOccupied(G: Graph, empty: set<nat>, init: seq<nat>, v: nat)
    requires Closed(G) && NoDangling(G, empty) && Reachable(G, init, v)
    requires forall x :: x in init ==> x !in empty && x < |G|
    ensures v < |G| && v !in empty
  {
    var p :| ReachableBy(G, init, v, p);
    var occupied := Below(|G|) - empty;
    assert forall x, y :: x in occupied && y in G[x] ==> y in occupied by {
      forall x, y | x in occupied && y in G[x] ensures y in occupied {
        var i :| 0 <= i < |G[x]| && G[x][i] == y;
      }
    }
    ReachableInClosed(G, init, v, p, occupied);
  }

  // Setting the new node's list and adding back edges to it keep the property, with l now occupied.
  lemma InsertNoDangling(G: Graph, H: Graph, empty: set<nat>, l: nat, pruned: seq<nat>)
    requires NoDangling(G, empty + {l}) && |G| == |H| && l < |G| && l !in empty && l !in pruned
    requires forall x :: x in pruned ==> x !in empty
    requires forall w :: w in H[l] ==> w in pruned || w == l
    requires forall v, w :: 0 <= v < |H| && v != l && w in H[v] ==> w in G[v] || w == l
    ensures NoDangling(H, empty)
  {
  }

  lemma ConsolidateNoDangling(G: Graph, H: Graph, empty: set<nat>, D: set<nat>, done: set<nat>, p: Params)
    requires Closed(G) && NoDangling(G, empty) && GraphPass(G, H, D, done, p) && p.Metrized() && D !! empty
    requires forall v :: 0 <= v < |G| && v !in D && v !in empty ==> v in done
    ensures NoDangling(H, empty + D)
  {
    forall v, w | 0 <= v < |H| && v !in empty + D && w in H[v] ensures w !in empty + D {
      ProcessedListClean(G, D, v, p, H[v]);
      if w !in G[v] {
        var x :| x in G[v] && x in D && x < |G| && w in G[x];
      }
    }
  }

  // With no dangling edge the count compact_data reports is zero.
  lemma {:induction false} NoneDangling(G: Graph, newLocation: seq<nat>, live: set<nat>, maxPoints: nat, n: nat)
    requires Closed(G) && |newLocation| == |G| && n <= |G| && live <= Below(maxPoints)
    requires NoDangling(G, Below(maxPoints) - live)
    ensures Dangling(G, newLocation, live, maxPoints, n) == 0
  {
    if n > 0 {
      NoneDangling(G, newLocation, live, maxPoints, n - 1);
      if Survives(live, maxPoints, n - 1) {
        NoneDanglingIn(G[n - 1], Below(maxPoints) - live);
      }
    }
  }

  lemma {:induction false} NoneDanglingIn(list: seq<nat>, dropped: set<nat>)
    requires forall w :: w in list ==> w !in dropped
    ensures DanglingIn(list, dropped) == 0
  {
    if list != [] {
      NoneDanglingIn(list[..|list| - 1], dropped);
    }
  }

  // The two sections of an insert, seen as one.
  lemma TagSection(s: Slots, tag: Tag)
    requires Inv(s) && s.reserved.None?
    ensures s.nd >= s.maxPoints ==> Reserve(s).0 == s
    ensures Elems(s.empty) <= Below(s.maxPoints)
    ensures s.nd < s.maxPoints ==>
              && Reserve(s).0.nd > 0 && s.empty != [] && var l := s.empty[|s.empty| - 1];
              && Reserve(s).0.reserved == Some(l) && l < s.maxPoints && l in Elems(s.empty)
              && Tagged(s, Commit(Reserve(s).0, tag).0, tag, l)
  {
    ReserveOutcome(s);
    ReserveInv(s);
    PartitionSets(s);
    if s.nd < s.maxPoints {
      var l, rest := s.empty[|s.empty| - 1], s.empty[..|s.empty| - 1];
      SplitLast(s.empty);
      assert Uses(s, l) <= 1;
      TagCommitted(s, Reserve(s).0, tag, l, rest);
    }
  }

  ghost predicate Tagged(s: Slots, s': Slots, tag: Tag, l: nat) {
    && Inv(s') && s'.deleted == s.deleted && s'.compacted == s.compacted
    && s'.tagToLocation == (if tag in s.tagToLocation then s.tagToLocation else s.tagToLocation[tag := l])
    && Elems(s'.empty) <= Below(s.maxPoints)
    && (forall t :: t in s.tagToLocation ==> s.tagToLocation[t] != l)
    && Elems(s'.empty) == (if tag in s.tagToLocation then Elems(s.empty) else Elems(s.empty) - {l})
  }

  lemma SplitLast(s: seq<nat>)
    requires s != []
    ensures Elems(s) == Elems(s[..|s| - 1]) + {s[|s| - 1]}
  {
    assert s == s[..|s| - 1] + [s[|s| - 1]];
  }

  lemma TagCommitted(s: Slots, s1: Slots, tag: Tag, l: nat, rest: seq<nat>)
    requires Inv(s1) && s1.reserved == Some(l) && s1.nd > 0
    requires s1.empty == rest && s1.deleted == s.deleted && s1.compacted == s.compacted && s1.maxPoints == s.maxPoints
    requires s1.tagToLocation == s.tagToLocation && Elems(s.empty) == Elems(rest) + {l} && l !in Elems(rest)
    requires Elems(s.empty) <= Below(s.maxPoints)
    ensures Tagged(s, Commit(s1, tag).0, tag, l)
  {
    CommitOutcome(s1, tag);
    CommitInv(s1, tag);
    ElemsConcat(rest, [l]);
  }

  lemma SetStep(done: set<nat>, D: set<nat>, empty: set<nat>, x: nat)
    ensures done + {x} - D - empty == (done - D - empty) + if x in D || x in empty then {} else {x}
  {
  }

  lemma InFlightFits(s: Slots)
    requires Inv(s)
    ensures |s.inFlight| <= s.nd && s.inFlight !! Elems(s.empty)
  {
    NdIsSum(s);
    PartitionSets(s);
  }

  lemma ReleaseSection(s: Slots, list: seq<nat>)
    requires Inv(s) && Lists(list, s.inFlight)
    ensures |list| == |s.inFlight| && |list| <= s.nd
    ensures Release(s, list) == (Released(s, list), Done) && Inv(Released(s, list))
    ensures Elems(s.empty + list) == Elems(s.empty) + s.inFlight
  {
    DistinctCard(list);
    ReleaseOutcome(s, list);
    ReleaseInv(s, list);
    ElemsConcat(s.empty, list);
  }

  lemma DeletedApart(s: Slots)
    requires Inv(s)
    ensures s.deleted !! Elems(s.empty) && s.deleted <= Below(s.maxPoints) && Elems(s.empty) <= Below(s.maxPoints)
  {
    PartitionSets(s);
  }

  // With nothing deleted or in flight, the empty slots are the locations without a tag.
  lemma EmptyIsRest(s: Slots)
    requires Inv(s) && s.reserved.None? && !s.consolidating && s.deleted == {}
    ensures Elems(s.empty) == Below(s.maxPoints) - s.Live() && s.Live() <= Below(s.maxPoints) && s.nd == |s.Live()|
  {
    NdIsSum(s);
    PartitionSets(s);
  }

  // The isomorphism a compaction promises.
  ghost predicate SameAdjacency(G: Graph, H: Graph, live: set<nat>, maxPoints: nat) {
    && |G| == |H|
    && (forall v: nat, w: nat ::
          Survives(live, maxPoints, v) && Survives(live, maxPoints, w) && v != w && v < |G| && w < |G| ==>
            Target(live, maxPoints, v) != Target(live, maxPoints, w))
    && (forall v :: 0 <= v < |G| && Survives(live, maxPoints, v) ==>
          && Target(live, maxPoints, v) < |G|
          && |H[Target(live, maxPoints, v)]| == |G[v]|
          && forall i :: 0 <= i < |G[v]| ==> H[Target(live, maxPoints, v)][i] == Target(live, maxPoints, G[v][i]))
  }

  // A whole consolidation, nothing in between: the delete set is released in some order.
  ghost predicate Consolidated(s: Slots, s': Slots, list: seq<nat>) {
    Lists(list, s.deleted) && |list| <= s.nd && s' == Released(Swap(s), list)
  }

  ghost predicate ConsolidatedInSomeOrder(s: Slots, s': Slots) {
    exists list :: Consolidated(s, s', list)
  }

  lemma ConsolidateSlots(s: Slots)
    requires Inv(s) && s.reserved.None? && !s.consolidating
    ensures EntryCheck(s) == Done && Inv(Swap(s))
    ensures s.deleted !! Elems(s.empty) && s.deleted <= Below(s.maxPoints) && Elems(s.empty) <= Below(s.maxPoints)
  {
    EntryCheckOutcome(s);
    SwapInv(s);
    DeletedApart(s);
  }

  lemma NothingPending(s: Slots)
    requires Inv(s) && s.reserved.None? && !s.consolidating && s.deleted == {}
    ensures s.nd == |s.tagToLocation|
  {
    NdIsSum(s);
    InjectiveCard(s.tagToLocation, s.locationToTag);
  }

  // The frozen points' rows are where they were.
  ghost predicate FrozenKept(rows: seq<Vector>, rows': seq<Vector>, maxPoints: nat) {
    |rows'| == |rows| && forall x {:trigger rows'[x]} :: maxPoints <= x < |rows| ==> rows'[x] == rows[x]
  }

  // What the in-place moves leave, seen from the slots now occupied: [0, |live|) and the frozen points.
  lemma CompactResult(G: Graph, H: Graph, rows: seq<Vector>, rows': seq<Vector>, newLocation: seq<nat>,
                      live: set<nat>, maxPoints: nat)
    requires Closed(G) && |newLocation| == |G| && Compacting(G, H, rows, rows', newLocation, live, maxPoints, |G|)
    requires NoDangling(G, Below(maxPoints) - live)
    ensures Closed(H) && NoDangling(H, Below(maxPoints) - Below(|live|)) && SameAdjacency(G, H, live, maxPoints)
    ensures |live| <= maxPoints && BlankPast(H, |live|, maxPoints)
    ensures forall v :: v in live ==> NewLocation(live, v) < |G| && v < |G| && rows'[NewLocation(live, v)] == rows[v]
    ensures FrozenKept(rows, rows', maxPoints)
  {
    NewLocationAll(live, maxPoints);
    NewLocationBounds(live, maxPoints);
    SurvivorsClosed(G, live, maxPoints);
    CompactedIsomorphic(G, H, rows, rows', newLocation, live, maxPoints);
    NewLocationAll(live, |G|);
    forall v | v in live ensures v < maxPoints && Target(live, maxPoints, v) == NewLocation(live, v) {
      assert v in Below(maxPoints);
    }
    forall u: nat, w: nat | u < |H| && w in H[u] ensures w < |H| {
      var v := SlotSource(live, maxPoints, u);
      CompactedEntry(G[v], H[u], live, maxPoints, |G|, w);
    }
    AllBelowClosed(H);
    forall u: nat, w: nat | u < |H| && w in H[u] ensures w !in Below(maxPoints) - Below(|live|) {
      var v := SlotSource(live, maxPoints, u);
      CompactedEntry(G[v], H[u], live, maxPoints, |G|, w);
    }
  }

  // The survivor that moved to an occupied slot.
  lemma SlotSource(live: set<nat>, maxPoints: nat, u: nat) returns (v: nat)
    requires live <= Below(maxPoints) && (u < |live| || u >= maxPoints)
    ensures Survives(live, maxPoints, v) && Target(live, maxPoints, v) == u
  {
    v := u;
    if u < |live| {
      NewLocationAll(live, maxPoints);
      v := NewLocationOnto(live, u, maxPoints);
    }
  }

  // One entry of a compacted list names an occupied slot.
  lemma CompactedEntry(from: seq<nat>, to: seq<nat>, live: set<nat>, maxPoints: nat, n: nat, w: nat)
    requires live <= Below(maxPoints) && |live| <= maxPoints <= n && |from| == |to| && w in to
    requires forall x :: x in from ==> x < n && Survives(live, maxPoints, x)
    requires forall i :: 0 <= i < |from| ==> to[i] == Target(live, maxPoints, from[i])
    ensures w < n && w !in Below(maxPoints) - Below(|live|)
  {
    var i :| 0 <= i < |to| && to[i] == w;
    assert from[i] in from;
    NewLocationBounds(live, from[i]);
  }

  lemma AllBelowClosed(H: Graph)
    requires forall u: nat, w: nat :: u < |H| && w in H[u] ==> w < |H|
    ensures Closed(H)
  {
    forall u, i | 0 <= u < |H| && 0 <= i < |H[u]| ensures H[u][i] < |H| {
      assert H[u][i] in H[u];
    }
  }

  lemma SurvivorsClosed(G: Graph, live: set<nat>, maxPoints: nat)
    requires Closed(G) && live <= Below(maxPoints) && NoDangling(G, Below(maxPoints) - live)
    ensures forall v: nat, w: nat :: v < |G| && Survives(live, maxPoints, v) && w in G[v] ==>
              w < |G| && Survives(live, maxPoints, w)
  {
    forall v: nat, w: nat | v < |G| && Survives(live, maxPoints, v) && w in G[v]
      ensures w < |G| && Survives(live, maxPoints, w)
    {
      var i :| 0 <= i < |G[v]| && G[v][i] == w;
      assert v !in Below(maxPoints) - live;
      assert w !in Below(maxPoints) - live && (w in Below(maxPoints) <==> w < maxPoints);
    }
  }

  function ResolveIn(tags: map<Tag, nat>, rows: seq<Vector>, tag: Tag): Option<Vector> {
    if tag in tags && tags[tag] < |rows| then Some(rows[tags[tag]]) else None
  }

  // Every tag resolves to the row it resolved to before.
  ghost predicate KeepsRows(tags: map<Tag, nat>, rows: seq<Vector>, tags': map<Tag, nat>, rows': seq<Vector>) {
    forall t :: t in tags ==> t in tags' && ResolveIn(tags', rows', t) == ResolveIn(tags, rows, t)
  }

  lemma TagsNumbered(tags: map<Tag, nat>, locations: map<nat, Tag>, tags': map<Tag, nat>, newLocation: seq<nat>,
                     live: set<nat>, maxPoints: nat)
    requires Inverse(tags, locations) && live == locations.Keys && IsNumbering(newLocation, live, maxPoints)
    requires tags'.Keys == tags.Keys
    requires forall t :: t in tags ==> tags[t] < |newLocation| && tags'[t] == newLocation[tags[t]]
    ensures TagsMoved(tags, tags', live)
    ensures forall t, u :: t in tags' && u in tags' && tags'[t] == tags'[u] ==> t == u
  {
    forall t, u | t in tags' && u in tags' && tags'[t] == tags'[u] ensures t == u {
      NewLocationInjective(live, tags[t], tags[u]);
    }
  }

  // Every tag at the new number of its location.
  ghost predicate TagsMoved(tags: map<Tag, nat>, tags': map<Tag, nat>, live: set<nat>) {
    tags' == map t | t in tags :: NewLocation(live, tags[t])
  }

  // Every live row at the new number of its location.
  ghost predicate RowsMoved(rows: seq<Vector>, rows': seq<Vector>, live: set<nat>) {
    |rows'| == |rows| && forall v :: v in live ==>
      NewLocation(live, v) < |rows| && v < |rows| && rows'[NewLocation(live, v)] == rows[v]
  }

  // The graph and the rows after the moves: survivors connected as before, nothing past nd but the frozen points.
  ghost predicate SurvivorsMoved(G: Graph, H: Graph, rows: seq<Vector>, rows': seq<Vector>, live: set<nat>, nd: nat,
                                 maxPoints: nat)
  {
    && NoDangling(H, Below(maxPoints) - Below(nd))
    && SameAdjacency(G, H, live, maxPoints)
    && BlankPast(H, nd, maxPoints)
    && FrozenKept(rows, rows', maxPoints)
    && RowsMoved(rows, rows', live)
  }

  lemma ResolveKept(tags: map<Tag, nat>, tags': map<Tag, nat>, G: Graph, H: Graph, rows: seq<Vector>,
                    rows': seq<Vector>, locations: map<nat, Tag>, live: set<nat>, nd: nat, maxPoints: nat)
    requires Inverse(tags, locations) && live == locations.Keys && TagsMoved(tags, tags', live)
    requires SurvivorsMoved(G, H, rows, rows', live, nd, maxPoints)
    ensures KeepsRows(tags, rows, tags', rows')
  {
  }

  lemma ResolveAfterInsert(tags: map<Tag, nat>, rows: seq<Vector>, tag: Tag, l: nat, row: Vector)
    requires l < |rows| && tag !in tags && forall t :: t in tags ==> tags[t] != l
    ensures ResolveIn(tags[tag := l], rows[l := row], tag) == Some(row)
    ensures KeepsRows(tags, rows, tags[tag := l], rows[l := row])
  {
  }

  lemma CompactDone(s: Slots, s': Slots)
    requires Inv(s) && s.reserved.None? && !s.consolidating && s.deleted == {} && !s.compacted && s.nd <= s.maxPoints
    requires s' == s.(empty := Range(s.nd, s.maxPoints), compacted := true, tagToLocation := s'.tagToLocation,
                      locationToTag := s'.locationToTag)
    requires TagsMoved(s.tagToLocation, s'.tagToLocation, s.Live())
    requires Inverse(s'.tagToLocation, s'.locationToTag)
    ensures SlotAccounting.Compact(s, s', Done) && Inv(s')
  {
    CompactInv(s, s', Done);
  }

  // ---- loading ----

  // The tags of a saved index: those of its live locations are distinct.
  ghost predicate SavedTags(tags: seq<Tag>, deleted: set<nat>) {
    && deleted <= Below(|tags|)
    && forall i, j :: 0 <= i < j < |tags| && i !in deleted && j !in deleted ==> tags[i] != tags[j]
  }

  // _empty_slots with lo, lo + 1, ..., hi - 1 inserted.
  method FillSlots(lo: nat, hi: nat) returns (slots: NaturalNumberSet)
    requires lo <= hi
    ensures fresh(slots) && slots.Valid() && slots.values == Range(lo, hi)
    ensures |slots.bits| == if lo < hi then hi else 0
  {
    slots := new NaturalNumberSet();
    for slot := lo to hi
      invariant fresh(slots) && slots.Valid() && slots.values == Range(lo, slot)
      invariant |slots.bits| == if lo < slot then slot else 0
    {
      assert slot !in slots.Contents();
      slots.Insert(slot);
      assert Range(lo, slot + 1) == Range(lo, slot) + [slot];
    }
  }

  ghost function LiveTags(tags: seq<Tag>, deleted: set<nat>, n: nat): map<nat, Tag>
    requires n <= |tags|
  {
    map i: nat | i < n && i !in deleted :: tags[i]
  }

  lemma LiveTagsNext(tags: seq<Tag>, deleted: set<nat>, n: nat, m: map<Tag, nat>)
    requires n < |tags| && SavedTags(tags, deleted) && Inverse(m, LiveTags(tags, deleted, n))
    ensures LiveTags(tags, deleted, n + 1) ==
              if n in deleted then LiveTags(tags, deleted, n) else LiveTags(tags, deleted, n)[n := tags[n]]
    ensures n !in deleted ==> Inverse(m[tags[n] := n], LiveTags(tags, deleted, n)[n := tags[n]])
  {
    if n !in deleted {
      assert forall t :: t in m ==> t == LiveTags(tags, deleted, n)[m[t]] == tags[m[t]] != tags[n];
    }
  }

  // load_tags: the tags of the locations not in the delete list.
  method LoadTags(tags: seq<Tag>, deleted: set<nat>) returns (locations: NaturalNumberMap, tagToLocation: map<Tag, nat>)
    requires SavedTags(tags, deleted)
    ensures fresh(locations) && locations.Valid() && Inverse(tagToLocation, locations.Contents())
    ensures locations.Contents() == LiveTags(tags, deleted, |tags|)
  {
    locations := new NaturalNumberMap();
    tagToLocation := map[];
    for i := 0 to |tags|
      invariant fresh(locations) && locations.Valid() && Inverse(tagToLocation, locations.Contents())
      invariant locations.Contents() == LiveTags(tags, deleted, i)
    {
      LiveTagsNext(tags, deleted, i, tagToLocation);
      if i !in deleted {
        locations.Set(i, tags[i]);
        tagToLocation := tagToLocation[tags[i] := i];
      }
    }
  }

  // load_graph: the lists from 0 on, the others empty.
  method LoadLists(total: nat, expected: nat, file: seq<nat>, ghost lists: seq<seq<nat>>, ghost width: nat,
                   ghost start: nat, ghost frozen: nat)
    returns (g: GraphStore)
    requires |lists| <= total && expected <= total && file == GraphFile.Encoded(lists, width, start, frozen)
    requires GraphFile.DegreesWithin(lists, width)
    ensures fresh(g) && g.Valid() && |g.graph| == total
    ensures forall v :: 0 <= v < total ==> g.graph[v] == if v < |lists| then lists[v] else []
  {
    g := new GraphStore(total);
    var _ := GraphFile.LoadGraph(g, file, expected, lists);
    RestoredLists(g.graph, lists);
  }

  lemma RestoredLists(H: Graph, lists: seq<seq<nat>>)
    requires |lists| <= |H| && H[..|lists|] == lists
    ensures forall v :: 0 <= v < |lists| ==> H[v] == lists[v]
  {
    assert forall v :: 0 <= v < |lists| ==> H[v] == H[..|lists|][v];
  }

  method LoadRows(c: Config, vectors: seq<Vector>) returns (ds: DataStore)
    requires c.Usable() && |vectors| <= c.maxPoints + c.numFrozen
    requires forall i :: 0 <= i < |vectors| ==> |vectors[i]| == c.dim
    ensures fresh(ds) && fresh(ds.data) && ds.Valid() && ds.data.Length == c.maxPoints + c.numFrozen
    ensures ds.dim == c.dim && ds.alignedDim == c.alignedDim && ds.prepare == c.prepare
    ensures forall i :: 0 <= i < |vectors| ==> ds.data[..][i] == vectors[i] + ZeroVector(c.alignedDim - c.dim)
  {
    ds := new DataStore(c.maxPoints + c.numFrozen, c.dim, c.alignedDim, c.prepare);
    ds.Load(vectors);
  }

  // Lists and vectors as loaded, the frozen points then moved to the end.
  method LoadStores(c: Config, nd: nat, graphFile: seq<nat>, vectors: seq<Vector>, ghost lists: seq<seq<nat>>,
                    ghost width: nat)
    returns (g: GraphStore, ds: DataStore)
    requires c.Usable() && nd <= c.maxPoints
    requires |lists| == |vectors| == nd + c.numFrozen && Closed(lists)
    requires graphFile == GraphFile.Encoded(lists, width, nd, c.numFrozen) && GraphFile.DegreesWithin(lists, width)
    requires forall i :: 0 <= i < |vectors| ==> |vectors[i]| == c.dim
    ensures fresh(g) && fresh(ds) && fresh(ds.data) && g.Valid() && ds.Valid()
    ensures ds.dim == c.dim && ds.alignedDim == c.alignedDim && ds.prepare == c.prepare
    ensures |g.graph| == ds.data.Length == c.maxPoints + c.numFrozen
    ensures Closed(g.graph) && NoDangling(g.graph, Below(c.maxPoints) - Below(nd))
    ensures ListsLoaded(lists, g.graph, nd, c.maxPoints, c.numFrozen)
    ensures BlankPast(g.graph, nd, c.maxPoints)
    ensures VectorsLoaded(vectors, ds.data[..], nd, c.maxPoints, c.numFrozen, ZeroVector(c.alignedDim - c.dim))
  {
    g := LoadLists(c.maxPoints + c.numFrozen, |vectors|, graphFile, lists, width, nd, c.numFrozen);
    ds := LoadRows(c, vectors);
    ghost var G, rows := g.graph, ds.data[..];
    RepositionPoints(g, ds, nd, c.maxPoints, c.numFrozen);
    LoadedGraph(lists, G, g.graph, nd, c.maxPoints, c.numFrozen);
    LoadedVectors(vectors, rows, ds.data[..], nd, c.maxPoints, c.numFrozen, ZeroVector(c.alignedDim - c.dim),
                  ZeroVector(c.alignedDim));
  }

  lemma LoadedVectors(vectors: seq<Vector>, rows: seq<Vector>, rows': seq<Vector>, nd: nat, maxPoints: nat,
                      numFrozen: nat, padding: Vector, blank: Vector)
    requires |vectors| == nd + numFrozen && nd <= maxPoints && |rows| == maxPoints + numFrozen
    requires forall v :: 0 <= v < |vectors| ==> rows[v] == vectors[v] + padding
    requires rows' == MovedAndCleared(rows, nd, maxPoints, numFrozen, blank)
    ensures VectorsLoaded(vectors, rows', nd, maxPoints, numFrozen, padding)
  {
  }

  ghost predicate ListsLoaded(lists: seq<seq<nat>>, H: Graph, nd: nat, maxPoints: nat, numFrozen: nat) {
    forall v :: 0 <= v < |lists| ==>
      && Renamed(v, nd, maxPoints, numFrozen) < |H|
      && H[Renamed(v, nd, maxPoints, numFrozen)] == RenamedList(lists[v], nd, maxPoints, numFrozen)
  }

  ghost predicate VectorsLoaded(vectors: seq<Vector>, rows: seq<Vector>, nd: nat, maxPoints: nat, numFrozen: nat,
                                padding: Vector)
  {
    forall v :: 0 <= v < |vectors| ==>
      && Renamed(v, nd, maxPoints, numFrozen) < |rows|
      && rows[Renamed(v, nd, maxPoints, numFrozen)] == vectors[v] + padding
  }

  // After the frozen points have moved to the end, nothing names the empty slots between.
  lemma LoadedGraph(lists: seq<seq<nat>>, G: Graph, H: Graph, nd: nat, maxPoints: nat, numFrozen: nat)
    requires Closed(lists) && |lists| == nd + numFrozen && nd <= maxPoints && |G| == maxPoints + numFrozen
    requires forall v :: 0 <= v < |G| ==> G[v] == if v < |lists| then lists[v] else []
    requires Relabelled(G, H, nd, maxPoints, numFrozen)
    ensures Closed(H) && NoDangling(H, Below(maxPoints) - Below(nd))
    ensures ListsLoaded(lists, H, nd, maxPoints, numFrozen) && BlankPast(H, nd, maxPoints)
  {
    RelabelledIsomorphic(G, H, nd, maxPoints, numFrozen);
    forall u | nd <= u < maxPoints ensures H[u] == [] {
      assert !InBlock(u, nd, numFrozen) ==> G[u] == [] && H[u] == RenamedList(G[u], nd, maxPoints, numFrozen);
    }
    forall u: nat, w: nat | u < |H| && w in H[u] ensures w < nd || maxPoints <= w < |H| {
      LoadedEntry(lists, G, H, nd, maxPoints, numFrozen, u, w);
    }
    AllBelowClosed(H);
  }

  lemma LoadedEntry(lists: seq<seq<nat>>, G: Graph, H: Graph, nd: nat, maxPoints: nat, numFrozen: nat, u: nat, w: nat)
    requires Closed(lists) && |lists| == nd + numFrozen && nd <= maxPoints && |G| == maxPoints + numFrozen
    requires forall v :: 0 <= v < |G| ==> G[v] == if v < |lists| then lists[v] else []
    requires Relabelled(G, H, nd, maxPoints, numFrozen) && u < |H| && w in H[u]
    ensures w < nd || maxPoints <= w < |H|
  {
    var i :| 0 <= i < |H[u]| && H[u][i] == w;
    var v := if u >= maxPoints then u - maxPoints + nd else u;
    assert H[u] == RenamedList(G[v], nd, maxPoints, numFrozen);
    assert G[v] == lists[v] && lists[v][i] < |lists|;
  }

  // How an index is set up. The L2 and cosine distances are never negative.
  datatype Config = Config(maxPoints: nat, numFrozen: nat, dim: nat, alignedDim: nat, metric: Metric,
                           vectorDistance: VectorDistance, prepare: Preparation)
  {
    ghost predicate Usable() {
      && 0 < maxPoints && 0 < numFrozen && maxPoints + numFrozen <= UINT32_MAX && dim <= alignedDim
      && (!metric.InnerProduct? ==> forall u, v :: vectorDistance(u, v) >= 0.0)
    }
  }

  class Index {
    const maxPoints: nat
    const numFrozen: nat
    const metric: Metric
    const vectorDistance: VectorDistance
    const emptySlots: NaturalNumberSet
    const locationToTag: NaturalNumberMap
    const graphStore: GraphStore
    const dataStore: DataStore
    var nd: nat
    var tagToLocation: map<Tag, nat>
    var deleteSet: set<nat>
    var dataCompacted: bool

    ghost predicate SlotsValid()
      reads emptySlots, locationToTag
    {
      emptySlots.Valid() && locationToTag.Valid()
    }

    // The accounting state, given what other threads hold.
    ghost function View(reserved: Option<nat>, inFlight: set<nat>, consolidating: bool): Slots
      reads this, emptySlots, locationToTag
      requires SlotsValid()
    {
      Slots(maxPoints, nd, emptySlots.values, deleteSet, inFlight, reserved, tagToLocation, locationToTag.Contents(),
            dataCompacted, consolidating)
    }

    ghost function Quiet(): Slots
      reads this, emptySlots, locationToTag
      requires SlotsValid()
    {
      View(None, {}, false)
    }

    ghost predicate StoresValid()
      reads this, graphStore, dataStore, dataStore.data
    {
      && graphStore.Valid() && dataStore.Valid()
      && |graphStore.graph| == maxPoints + numFrozen == dataStore.data.Length <= UINT32_MAX
      && maxPoints > 0 && numFrozen > 0
      && Closed(graphStore.graph)
      && (!metric.InnerProduct? ==> forall u, v :: vectorDistance(u, v) >= 0.0)
    }

    // Slots accounted for, maps inverse, and no edge into an empty slot.
    ghost predicate Valid()
      reads this, emptySlots, locationToTag, graphStore, dataStore, dataStore.data
    {
      && SlotsValid() && StoresValid()
      && Inv(Quiet()) && Reaches()
      && NoDangling(graphStore.graph, emptySlots.Contents())
    }

    // The bitset of the empty slots covers every location, or has no length and no slot is empty.
    predicate Reaches()
      reads this, emptySlots
    {
      maxPoints <= |emptySlots.bits| || (nd == maxPoints && emptySlots.bits == [])
    }

    // The row a tag resolves to, as get_vector_by_tag reads it.
    function Resolve(tag: Tag): Option<Vector>
      reads this, dataStore.data
    {
      ResolveIn(tagToLocation, dataStore.data[..], tag)
    }

    // What a constructor has made of its configuration.
    ghost predicate Built(c: Config)
      reads this, dataStore
    {
      && maxPoints == c.maxPoints && numFrozen == c.numFrozen
      && dataStore.dim == c.dim && dataStore.alignedDim == c.alignedDim && dataStore.prepare == c.prepare
    }

    // The constructor of a dynamic index: enable_delete makes every location an empty slot.
    constructor (c: Config)
      requires c.Usable()
      ensures Valid() && Loaded(Quiet(), []) && deleteSet == {} && |emptySlots.bits| == maxPoints && Built(c)
      ensures fresh(emptySlots) && fresh(locationToTag) && fresh(graphStore) && fresh(dataStore)
      ensures fresh(dataStore.data)
      ensures forall i :: 0 <= i < dataStore.data.Length ==> dataStore.data[i] == ZeroVector(c.alignedDim)
    {
      maxPoints, numFrozen, metric, vectorDistance := c.maxPoints, c.numFrozen, c.metric, c.vectorDistance;
      var slots := FillSlots(0, c.maxPoints);
      emptySlots := slots;
      locationToTag := new NaturalNumberMap();
      graphStore := new GraphStore(c.maxPoints + c.numFrozen);
      dataStore := new DataStore(c.maxPoints + c.numFrozen, c.dim, c.alignedDim, c.prepare);
      nd, tagToLocation, deleteSet, dataCompacted := 0, map[], {}, true;
      new;
      LoadedInv(Quiet(), []);
    }

    /** load of a saved dynamic index into a new one: its vectors and the lists in its graph file with the frozen points
        behind the others, its tags and its delete list. The frozen points move to the end, and the slots between are
        empty; the bitset of the empty slots has no length when there are none. */
    constructor Load(c: Config, tags: seq<Tag>, deleted: set<nat>, graphFile: seq<nat>, vectors: seq<Vector>,
                     ghost lists: seq<seq<nat>>, ghost width: nat)
      requires c.Usable() && |tags| <= c.maxPoints && |lists| == |vectors| == |tags| + c.numFrozen
      requires graphFile == GraphFile.Encoded(lists, width, |tags|, c.numFrozen)
      requires GraphFile.DegreesWithin(lists, width)
      requires SavedTags(tags, deleted) && Closed(lists) && forall i :: 0 <= i < |vectors| ==> |vectors[i]| == c.dim
      ensures Valid() && Loaded(Quiet(), tags) && deleteSet == deleted && Built(c)
      ensures |emptySlots.bits| == if |tags| < maxPoints then maxPoints else 0
      ensures fresh(emptySlots) && fresh(locationToTag) && fresh(graphStore) && fresh(dataStore)
      ensures fresh(dataStore.data)
      ensures ListsLoaded(lists, graphStore.graph, |tags|, maxPoints, numFrozen)
      ensures BlankPast(graphStore.graph, |tags|, maxPoints)
      ensures VectorsLoaded(vectors, dataStore.data[..], |tags|, maxPoints, numFrozen,
                            ZeroVector(c.alignedDim - c.dim))
    {
      maxPoints, numFrozen, metric, vectorDistance := c.maxPoints, c.numFrozen, c.metric, c.vectorDistance;
      var locations, tagMap := LoadTags(tags, deleted);
      locationToTag, tagToLocation := locations, tagMap;
      var slots := FillSlots(|tags|, c.maxPoints);
      emptySlots := slots;
      var g, ds := LoadStores(c, |tags|, graphFile, vectors, lists, width);
      graphStore, dataStore := g, ds;
      nd, deleteSet, dataCompacted := |tags|, deleted, true;
      new;
      LoadedInv(Quiet(), tags);
      RangeElems(|tags|, maxPoints);
    }

    // ---- slot operations, each one critical section ----

    method ReserveLocation(ghost inFlight: set<nat>, ghost consolidating: bool) returns (location: Option<nat>)
      requires SlotsValid() && Inv(View(None, inFlight, consolidating))
      modifies this`nd, this`deleteSet, emptySlots
      ensures SlotsValid() && |emptySlots.bits| == |old(emptySlots.bits)|
      ensures View(location, inFlight, consolidating) == Reserve(old(View(None, inFlight, consolidating))).0
      ensures location.Some? <==> old(nd) < maxPoints
      ensures location.Some? ==> location.value < |emptySlots.bits|
    {
      ReserveOutcome(View(None, inFlight, consolidating));
      if nd >= maxPoints {
        return None;
      }
      if dataCompacted && emptySlots.IsEmpty() {
        location := Some(nd);
      } else {
        location := emptySlots.PopAny();
        deleteSet := deleteSet - {location.value};
      }
      nd := nd + 1;
    }

    // The tag section of insert_point after the reservation; false is the -1 for a tag already present.
    method CommitTag(location: nat, tag: Tag, ghost inFlight: set<nat>, ghost consolidating: bool) returns (ok: bool)
      requires SlotsValid() && Inv(View(Some(location), inFlight, consolidating)) && location < |emptySlots.bits|
      modifies this`nd, this`tagToLocation, emptySlots, locationToTag
      ensures SlotsValid() && |emptySlots.bits| == |old(emptySlots.bits)|
      ensures old(nd) > 0 &&
              View(None, inFlight, consolidating) == Commit(old(View(Some(location), inFlight, consolidating)), tag).0
      ensures ok <==> tag !in old(tagToLocation)
    {
      CommitOutcome(View(Some(location), inFlight, consolidating), tag);
      if tag in tagToLocation {
        assert location in View(Some(location), inFlight, consolidating).Taken();
        var released := ReleaseLocation(location);
        assert released;
        return false;
      }
      tagToLocation := tagToLocation[tag := location];
      locationToTag.Set(location, tag);
      ok := true;
    }

    // release_location; false is the error for a slot that is empty already. Its test reads the bitset, which must
    // reach the location.
    method ReleaseLocation(location: nat) returns (ok: bool)
      requires emptySlots.Valid() && location < |emptySlots.bits| && nd > 0
      modifies this`nd, emptySlots
      ensures emptySlots.Valid() && |emptySlots.bits| == |old(emptySlots.bits)|
      ensures ok <==> location !in old(emptySlots.Contents())
      ensures emptySlots.values == old(emptySlots.values) + (if ok then [location] else [])
      ensures nd == old(nd) - (if ok then 1 else 0)
    {
      if emptySlots.IsInSet(location) {
        return false;
      }
      emptySlots.Insert(location);
      nd := nd - 1;
      ok := true;
    }

    method LazyDeletePoint(tag: Tag, ghost inFlight: set<nat>, ghost consolidating: bool) returns (ok: bool)
      requires SlotsValid() && Inv(View(None, inFlight, consolidating))
      modifies this`tagToLocation, this`deleteSet, this`dataCompacted, locationToTag
      ensures SlotsValid()
      ensures View(None, inFlight, consolidating) == LazyDelete(old(View(None, inFlight, consolidating)), tag).0
      ensures ok <==> tag in old(tagToLocation)
    {
      dataCompacted := false;
      if tag !in tagToLocation {
        return false;
      }
      var location := tagToLocation[tag];
      deleteSet := deleteSet + {location};
      locationToTag.Erase(location);
      tagToLocation := tagToLocation - {tag};
      ok := true;
    }

    method EntryChecks() returns (o: Outcome)
      requires SlotsValid()
      ensures o == EntryCheck(Quiet())
    {
      assert locationToTag.Contents().Keys == locationToTag.Keys();
      if |emptySlots.values| + nd != maxPoints {
        return Error;
      }
      if locationToTag.size + |deleteSet| != nd {
        return Refused;
      }
      if locationToTag.size != |tagToLocation| {
        return Error;
      }
      o := Done;
    }

    method SwapDeleteSet() returns (oldDeleteSet: set<nat>)
      requires SlotsValid()
      modifies this`deleteSet
      ensures forall r :: View(r, oldDeleteSet, true) == Swap(old(View(r, {}, false)))
      ensures oldDeleteSet == old(deleteSet)
    {
      oldDeleteSet := deleteSet;
      deleteSet := {};
    }

    // The loop of release_locations, the set being iterated in any order.
    method ReleaseEach(locations: set<nat>) returns (ghost list: seq<nat>)
      requires emptySlots.Valid() && locations !! emptySlots.Contents() && |locations| <= nd
      requires locations <= Below(|emptySlots.bits|)
      modifies this`nd, emptySlots
      ensures emptySlots.Valid() && |emptySlots.bits| == |old(emptySlots.bits)|
      ensures Lists(list, locations) && emptySlots.values == old(emptySlots.values) + list
      ensures nd == old(nd) - |locations|
    {
      var rest := locations;
      list := [];
      while rest != {}
        invariant emptySlots.Valid() && |emptySlots.bits| == |old(emptySlots.bits)|
        invariant rest <= locations && Lists(list, locations - rest) && rest !! emptySlots.Contents()
        invariant emptySlots.values == old(emptySlots.values) + list && nd == old(nd) - |locations| + |rest|
        invariant |rest| <= nd
        decreases rest
      {
        var location :| location in rest;
        assert location !in Elems(list);
        var ok := ReleaseLocation(location);
        assert ok;
        rest := rest - {location};
        list := list + [location];
      }
      assert locations - rest == locations;
    }

    method ReleaseAll(locations: set<nat>, ghost consolidating: bool) returns (ghost list: seq<nat>)
      requires SlotsValid() && locations !! emptySlots.Contents() && |locations| <= nd
      requires locations <= Below(|emptySlots.bits|)
      modifies this`nd, emptySlots
      ensures SlotsValid() && |emptySlots.bits| == |old(emptySlots.bits)| && Lists(list, locations) && |list| <= old(nd)
      ensures Quiet() == Released(old(View(None, locations, consolidating)), list)
    {
      list := ReleaseEach(locations);
      DistinctCard(list);
    }

    // release_locations after a consolidation: neither of its checks throws. ok is the check on the sizes at its end.
    method ReleaseLocations(locations: set<nat>, ghost consolidating: bool) returns (ok: bool, ghost list: seq<nat>)
      requires SlotsValid() && Inv(View(None, locations, consolidating)) && locations <= Below(|emptySlots.bits|)
      modifies this`nd, emptySlots
      ensures SlotsValid() && Inv(Quiet()) && |emptySlots.bits| == |old(emptySlots.bits)|
      ensures ok && Lists(list, locations) && |list| <= old(nd)
      ensures Quiet() == Released(old(View(None, locations, consolidating)), list)
      ensures emptySlots.Contents() == old(emptySlots.Contents()) + locations
    {
      ghost var s := View(None, locations, consolidating);
      InFlightFits(s);
      list := ReleaseAll(locations, consolidating);
      ReleaseSection(s, list);
      ok := |emptySlots.values| + nd == maxPoints;
    }

    // ---- whole operations ----

    // insert_point on an unfiltered index; Error for tag 0, Refused for a full index or a tag already present.
    method InsertPoint(point: Vector, tag: Tag, wp: WriteParams) returns (o: Outcome)
      requires Valid() && |point| == dataStore.dim && wp.searchListSize > 0
      modifies this, emptySlots, locationToTag, graphStore, dataStore.data
      ensures Valid() && |emptySlots.bits| == |old(emptySlots.bits)|
      ensures Quiet() == InsertSlots(old(Quiet()), tag)
      ensures o == (
                if tag == 0 then Error
                else if old(nd) < maxPoints && tag !in old(tagToLocation) then Done
                else Refused
              )
      ensures o != Done ==> tagToLocation == old(tagToLocation) && graphStore.graph == old(graphStore.graph)
      ensures deleteSet == old(deleteSet) && dataCompacted == old(dataCompacted)
      ensures o == Done ==> tagToLocation.Keys == old(tagToLocation.Keys) + {tag}
      ensures o == Done ==>
                && tag in tagToLocation
                && Connected(old(graphStore.graph), graphStore.graph, tagToLocation[tag], maxPoints, wp, ParamsOf(wp))
                && ConnectedInRows(old(graphStore.graph), graphStore.graph, tagToLocation[tag], maxPoints, wp, metric,
                                   dataStore.data[..], vectorDistance)
      ensures o == Done ==> Resolve(tag) == Some(dataStore.prepare(dataStore.Padded(point)))
      ensures forall t :: t in old(tagToLocation) ==> t in tagToLocation && Resolve(t) == old(Resolve(t))
    {
      ghost var G := graphStore.graph;
      assert Closed(G) && |G| == dataStore.data.Length;
      o := InsertTagged(point, tag, wp);
      if o == Done {
        ConnectedByRows(G, graphStore.graph, tagToLocation[tag], maxPoints, wp, metric, dataStore.data[..],
                        vectorDistance);
      }
    }

    // The insertion itself.
    method InsertTagged(point: Vector, tag: Tag, wp: WriteParams) returns (o: Outcome)
      requires Valid() && |point| == dataStore.dim && wp.searchListSize > 0
      modifies this, emptySlots, locationToTag, graphStore, dataStore.data
      ensures Valid() && |emptySlots.bits| == |old(emptySlots.bits)|
      ensures Quiet() == InsertSlots(old(Quiet()), tag)
      ensures o == (
                if tag == 0 then Error
                else if old(nd) < maxPoints && tag !in old(tagToLocation) then Done
                else Refused
              )
      ensures o != Done ==> tagToLocation == old(tagToLocation) && graphStore.graph == old(graphStore.graph)
      ensures deleteSet == old(deleteSet) && dataCompacted == old(dataCompacted)
      ensures o == Done ==> tagToLocation.Keys == old(tagToLocation.Keys) + {tag}
      ensures o == Done ==>
                && tag in tagToLocation
                && Connected(old(graphStore.graph), graphStore.graph, tagToLocation[tag], maxPoints, wp, ParamsOf(wp))
      ensures o == Done ==> Resolve(tag) == Some(dataStore.prepare(dataStore.Padded(point)))
      ensures forall t :: t in old(tagToLocation) ==> t in tagToLocation && Resolve(t) == old(Resolve(t))
    {
      if tag == 0 {
        return Error;
      }
      var location := InsertNew(point, tag, wp);
      o := if location.Some? then Done else Refused;
    }

    method InsertNew(point: Vector, tag: Tag, wp: WriteParams) returns (location: Option<nat>)
      requires Valid() && |point| == dataStore.dim && wp.searchListSize > 0 && tag != 0
      modifies this, emptySlots, locationToTag, graphStore, dataStore.data
      ensures Valid() && |emptySlots.bits| == |old(emptySlots.bits)|
      ensures Quiet() == InsertSlots(old(Quiet()), tag)
      ensures location.Some? <==> old(nd) < maxPoints && tag !in old(tagToLocation)
      ensures location.None? ==> tagToLocation == old(tagToLocation) && graphStore.graph == old(graphStore.graph)
      ensures location.None? ==> dataStore.data[..] == old(dataStore.data[..])
      ensures deleteSet == old(deleteSet) && dataCompacted == old(dataCompacted)
      ensures location.Some? ==>
                && tagToLocation == old(tagToLocation)[tag := location.value]
                && Connected(old(graphStore.graph), graphStore.graph, location.value, maxPoints, wp, ParamsOf(wp))
                && Resolve(tag) == Some(dataStore.prepare(dataStore.Padded(point)))
      ensures KeepsRows(old(tagToLocation), old(dataStore.data[..]), tagToLocation, dataStore.data[..])
    {
      ghost var tags, rows := tagToLocation, dataStore.data[..];
      location := TagNewPoint(tag);
      if location.Some? {
        StorePoint(location.value, point, wp);
        ResolveAfterInsert(tags, rows, tag, location.value, dataStore.prepare(dataStore.Padded(point)));
      }
    }

    // A location has its tag but not yet its row and its edges.
    ghost predicate Tagged(location: nat)
      reads this, emptySlots, locationToTag, graphStore, dataStore, dataStore.data
    {
      && SlotsValid() && StoresValid() && Inv(Quiet()) && Reaches()
      && location < maxPoints && location !in emptySlots.Contents() && emptySlots.Contents() <= Below(maxPoints)
      && NoDangling(graphStore.graph, emptySlots.Contents() + {location})
    }

    // The row first, then the edges: the search measures distances to the new row.
    method StorePoint(location: nat, point: Vector, wp: WriteParams)
      requires Tagged(location) && wp.searchListSize > 0 && |point| == dataStore.dim
      modifies graphStore, dataStore.data
      ensures Valid()
      ensures Connected(old(graphStore.graph), graphStore.graph, location, maxPoints, wp, ParamsOf(wp))
      ensures dataStore.data[..] == old(dataStore.data[..])[location := dataStore.prepare(dataStore.Padded(point))]
    {
      dataStore.SetVector(location, point);
      ConnectPoint(location, wp);
    }

    // The tag section: reserve a location and tag it, or give it back.
    method TagNewPoint(tag: Tag) returns (location: Option<nat>)
      requires Valid() && tag != 0
      modifies this, emptySlots, locationToTag
      ensures |emptySlots.bits| == |old(emptySlots.bits)|
      ensures if location.Some? then Tagged(location.value) else Valid()
      ensures Quiet() == InsertSlots(old(Quiet()), tag)
      ensures location.Some? <==> old(nd) < maxPoints && tag !in old(tagToLocation)
      ensures location.None? ==> tagToLocation == old(tagToLocation)
      ensures location.Some? ==>
                && tagToLocation == old(tagToLocation)[tag := location.value]
                && (forall t :: t in old(tagToLocation) ==> old(tagToLocation)[t] != location.value)
      ensures deleteSet == old(deleteSet) && dataCompacted == old(dataCompacted)
    {
      ghost var s := Quiet();
      ReserveInv(s);
      TagSection(s, tag);
      var reserved := ReserveLocation({}, false);
      if reserved.None? {
        return None;
      }
      var ok := CommitTag(reserved.value, tag, {}, false);
      location := if ok then reserved else None;
    }

    method LazyDeleteTag(tag: Tag) returns (o: Outcome)
      requires Valid()
      modifies this, locationToTag
      ensures Valid() && !dataCompacted && Quiet() == LazyDelete(old(Quiet()), tag).0
      ensures o == if tag in old(tagToLocation) then Done else Refused
      ensures tagToLocation == old(tagToLocation) - {tag}
      ensures deleteSet == old(deleteSet) + (if tag in old(tagToLocation) then {old(tagToLocation)[tag]} else {})
    {
      LazyDeleteInv(Quiet(), tag);
      var ok := LazyDeletePoint(tag, {}, false);
      o := if ok then Done else Refused;
    }

    // One location: processed unless deleted or empty.
    method ProcessLocation(D: set<nat>, loc: nat, p: Params, ghost G: Graph, ghost done: set<nat>)
      requires SlotsValid() && StoresValid() && p.Metrized() && maxPoints <= |emptySlots.bits|
      requires loc < maxPoints + numFrozen && loc !in done && D <= Below(maxPoints)
      requires emptySlots.Contents() <= Below(maxPoints)
      requires GraphPass(G, graphStore.graph, D, done - D - emptySlots.Contents(), p)
      modifies graphStore
      ensures StoresValid()
      ensures GraphPass(G, graphStore.graph, D, done + {loc} - D - emptySlots.Contents(), p)
    {
      ghost var H, empty := graphStore.graph, emptySlots.Contents();
      if loc >= maxPoints || (loc !in D && !emptySlots.IsInSet(loc)) {
        ProcessDelete(graphStore, D, loc, p);
        ReadsOwnAndDeleted(G, H, D, loc, p, graphStore.graph[loc]);
      }
      SetStep(done, D, empty, loc);
    }

    // The loop over all locations, scheduled in any order: every one that is neither deleted nor empty is processed.
    method ProcessSurvivors(D: set<nat>, order: seq<nat>, p: Params)
      requires SlotsValid() && StoresValid() && p.Metrized() && maxPoints <= |emptySlots.bits|
      requires Lists(order, Below(maxPoints + numFrozen)) && D <= Below(maxPoints)
      requires emptySlots.Contents() <= Below(maxPoints)
      modifies graphStore
      ensures StoresValid()
      ensures GraphPass(old(graphStore.graph), graphStore.graph, D,
                        Below(maxPoints + numFrozen) - D - emptySlots.Contents(), p)
    {
      ghost var G, empty := graphStore.graph, emptySlots.Contents();
      assert Elems(order[..0]) - D - empty == {};
      for i := 0 to |order|
        invariant StoresValid() && emptySlots.Valid() && emptySlots.Contents() == empty
        invariant maxPoints <= |emptySlots.bits|
        invariant GraphPass(G, graphStore.graph, D, Elems(order[..i]) - D - empty, p)
      {
        NextInOrder(order, i, Below(maxPoints + numFrozen));
        ProcessLocation(D, order[i], p, G, Elems(order[..i]));
      }
      assert order[..|order|] == order;
    }

    // The loop and what it does for the edges.
    method ConsolidateGraph(D: set<nat>, order: seq<nat>, p: Params)
      requires SlotsValid() && StoresValid() && p.Metrized() && maxPoints <= |emptySlots.bits|
      requires Lists(order, Below(maxPoints + numFrozen)) && D <= Below(maxPoints) && D !! emptySlots.Contents()
      requires emptySlots.Contents() <= Below(maxPoints) && NoDangling(graphStore.graph, emptySlots.Contents())
      modifies graphStore
      ensures StoresValid() && NoDangling(graphStore.graph, emptySlots.Contents() + D)
      ensures View(None, D, true) == old(View(None, D, true))
      ensures GraphPass(old(graphStore.graph), graphStore.graph, D,
                        Below(maxPoints + numFrozen) - D - emptySlots.Contents(), p)
    {
      ghost var G, empty := graphStore.graph, emptySlots.Contents();
      ProcessSurvivors(D, order, p);
      ConsolidateNoDangling(G, graphStore.graph, empty, D, Below(maxPoints + numFrozen) - D - empty, p);
    }

    /** consolidate_deletes without concurrent operations. The bitset must cover every location: is_in_set is undefined
        beyond it, and otherwise the bitset has no length, so that each location is asked for beyond it, one not deleted
        by the loop and a deleted one by its release. The starting point is frozen, hence never in the deleted set. */
    method ConsolidateDeletes(order: seq<nat>, wp: WriteParams) returns (o: Outcome)
      requires Valid() && maxPoints <= |emptySlots.bits|
      requires Lists(order, Below(maxPoints + numFrozen))
      modifies this`nd, this`deleteSet, emptySlots, graphStore
      ensures Valid() && o == Done && maxPoints <= |emptySlots.bits|
      ensures deleteSet == {} && nd == |tagToLocation|
      ensures ConsolidatedInSomeOrder(old(Quiet()), Quiet())
      ensures emptySlots.Contents() == old(emptySlots.Contents()) + old(deleteSet)
      ensures GraphPass(old(graphStore.graph), graphStore.graph, old(deleteSet),
                        Below(maxPoints + numFrozen) - old(deleteSet) - old(emptySlots.Contents()), old(ParamsOf(wp)))
      ensures SurvivorsRepaired(old(graphStore.graph), graphStore.graph, old(deleteSet),
                                Below(maxPoints + numFrozen) - old(deleteSet) - old(emptySlots.Contents()), wp, metric,
                                dataStore.data[..], vectorDistance)
    {
      ghost var s, G, empty := Quiet(), graphStore.graph, emptySlots.Contents();
      var p := ParamsOf(wp);
      var D;
      o, D := TakeDeleteSet();
      ConsolidateGraph(D, order, p);
      PassRepairs(G, graphStore.graph, D, Below(maxPoints + numFrozen) - D - empty, p, wp, dataStore.data[..],
                  vectorDistance);
      ReleaseDeleted(D, s);
    }

    // The entry checks, which all pass, and the delete set taken over.
    method TakeDeleteSet() returns (o: Outcome, D: set<nat>)
      requires SlotsValid() && Inv(Quiet())
      modifies this`deleteSet
      ensures SlotsValid() && o == Done && D == old(deleteSet) && deleteSet == {}
      ensures View(None, D, true) == Swap(old(Quiet())) && Inv(Swap(old(Quiet())))
      ensures D !! emptySlots.Contents() && D <= Below(maxPoints) && emptySlots.Contents() <= Below(maxPoints)
    {
      ConsolidateSlots(Quiet());
      o := EntryChecks();
      D := SwapDeleteSet();
    }

    // The slots of the old delete set given back: s is the state before the consolidation.
    method ReleaseDeleted(D: set<nat>, ghost s: Slots)
      requires SlotsValid() && D == s.deleted && deleteSet == {} && D <= Below(|emptySlots.bits|)
      requires View(None, D, true) == Swap(s) && Inv(Swap(s)) && s.reserved.None? && !s.consolidating
      modifies this`nd, emptySlots
      ensures SlotsValid() && Inv(Quiet()) && |emptySlots.bits| == |old(emptySlots.bits)|
      ensures nd == |tagToLocation| && ConsolidatedInSomeOrder(s, Quiet())
      ensures emptySlots.Contents() == old(emptySlots.Contents()) + D
    {
      var ok;
      ghost var list;
      ok, list := ReleaseLocations(D, true);
      assert ok;
      NothingPending(Quiet());
      assert Consolidated(s, Quiet(), list);
    }

    /** compact_data and what it promises: the numbering, zero dangling references, every tag resolving to the row it
        resolved to before, and the adjacency of survivors carried over isomorphically. */
    method CompactData() returns (o: Outcome, numDangling: nat)
      requires Valid()
      modifies this`tagToLocation, this`dataCompacted, emptySlots, locationToTag, graphStore, dataStore.data
      ensures Valid() && SlotAccounting.Compact(old(Quiet()), Quiet(), o)
      ensures o == if old(dataCompacted) then Refused else if old(deleteSet) != {} then Error else Done
      ensures numDangling == 0
      ensures KeepsRows(old(tagToLocation), old(dataStore.data[..]), tagToLocation, dataStore.data[..])
      ensures o == Done ==>
                && SameAdjacency(old(graphStore.graph), graphStore.graph, old(locationToTag.Keys()), maxPoints)
                && BlankPast(graphStore.graph, nd, maxPoints)
      ensures FrozenKept(old(dataStore.data[..]), dataStore.data[..], maxPoints)
      ensures o != Done ==>
                graphStore.graph == old(graphStore.graph) && dataStore.data[..] == old(dataStore.data[..])
      ensures |emptySlots.bits| == if o != Done then |old(emptySlots.bits)| else if nd < maxPoints then maxPoints else 0
      ensures nd <= maxPoints
    {
      numDangling := 0;
      if dataCompacted {
        return Refused, 0;
      }
      if |deleteSet| > 0 {
        return Error, 0;
      }
      numDangling := CompactAll();
      o := Done;
    }

    method CompactAll() returns (numDangling: nat)
      requires Valid() && !dataCompacted && deleteSet == {}
      modifies this`tagToLocation, this`dataCompacted, emptySlots, locationToTag, graphStore, dataStore.data
      ensures Valid() && SlotAccounting.Compact(old(Quiet()), Quiet(), Done)
      ensures numDangling == 0
      ensures KeepsRows(old(tagToLocation), old(dataStore.data[..]), tagToLocation, dataStore.data[..])
      ensures SameAdjacency(old(graphStore.graph), graphStore.graph, old(locationToTag.Keys()), maxPoints)
      ensures BlankPast(graphStore.graph, nd, maxPoints)
      ensures FrozenKept(old(dataStore.data[..]), dataStore.data[..], maxPoints)
      ensures |emptySlots.bits| == if nd < maxPoints then maxPoints else 0
    {
      ghost var s := Quiet();
      EmptyIsRest(s);
      assert s.Live() == locationToTag.Keys();
      numDangling := MoveAll();
      FinishCompaction(s);
    }

    // The slot list is refilled once the tag maps are renumbered.
    method FinishCompaction(ghost s: Slots)
      requires SlotsValid() && Inv(s) && s.reserved.None? && !s.consolidating && s.deleted == {} && !s.compacted
      requires Quiet() == s.(tagToLocation := tagToLocation, locationToTag := locationToTag.Contents())
      requires nd <= maxPoints && Inverse(tagToLocation, locationToTag.Contents())
      requires TagsMoved(s.tagToLocation, tagToLocation, s.Live())
      modifies this`dataCompacted, emptySlots
      ensures SlotsValid() && SlotAccounting.Compact(s, Quiet(), Done) && Inv(Quiet())
      ensures emptySlots.Contents() == Below(maxPoints) - Below(nd)
      ensures |emptySlots.bits| == if nd < maxPoints then maxPoints else 0
    {
      RefillSlots();
      dataCompacted := true;
      CompactDone(s, Quiet());
    }

    // Everything but the slot list.
    method MoveAll() returns (numDangling: nat)
      requires SlotsValid() && StoresValid() && Inverse(tagToLocation, locationToTag.Contents())
      requires locationToTag.Keys() <= Below(maxPoints) && nd == |locationToTag.Keys()| <= maxPoints
      requires NoDangling(graphStore.graph, Below(maxPoints) - locationToTag.Keys())
      modifies this`tagToLocation, locationToTag, graphStore, dataStore.data
      ensures SlotsValid() && StoresValid() && numDangling == 0
      ensures TagsMoved(old(tagToLocation), tagToLocation, old(locationToTag.Keys()))
      ensures Inverse(tagToLocation, locationToTag.Contents())
      ensures SurvivorsMoved(old(graphStore.graph), graphStore.graph, old(dataStore.data[..]), dataStore.data[..],
                             old(locationToTag.Keys()), nd, maxPoints)
      ensures KeepsRows(old(tagToLocation), old(dataStore.data[..]), tagToLocation, dataStore.data[..])
    {
      ghost var live, tags, locations := locationToTag.Keys(), tagToLocation, locationToTag.Contents();
      ghost var G, rows := graphStore.graph, dataStore.data[..];
      assert live == locations.Keys;
      var newLocation;
      newLocation, numDangling := NumberAndMove();
      CompactTags(newLocation, live);
      ResolveKept(tags, tagToLocation, G, graphStore.graph, rows, dataStore.data[..], locations, live, nd, maxPoints);
    }

    // The numbering, and the graph and the rows by it.
    method NumberAndMove() returns (newLocation: seq<nat>, numDangling: nat)
      requires SlotsValid() && StoresValid() && locationToTag.Keys() <= Below(maxPoints)
      requires nd == |locationToTag.Keys()| <= maxPoints && Inverse(tagToLocation, locationToTag.Contents())
      requires NoDangling(graphStore.graph, Below(maxPoints) - locationToTag.Keys())
      modifies graphStore, dataStore.data
      ensures SlotsValid() && StoresValid() && numDangling == 0
      ensures Inverse(tagToLocation, locationToTag.Contents())
      ensures IsNumbering(newLocation, locationToTag.Keys(), maxPoints)
      ensures SurvivorsMoved(old(graphStore.graph), graphStore.graph, old(dataStore.data[..]), dataStore.data[..],
                             locationToTag.Keys(), nd, maxPoints)
    {
      ghost var live := locationToTag.Keys();
      var emptyLocations;
      newLocation, emptyLocations := NumberLocations(locationToTag, maxPoints, numFrozen);
      numDangling := MoveRows(newLocation, emptyLocations, live);
      ClearTail();
    }

    // Lists and rows of all survivors to their new locations.
    method MoveRows(newLocation: seq<nat>, emptyLocations: set<nat>, ghost live: set<nat>) returns (numDangling: nat)
      requires StoresValid() && IsNumbering(newLocation, live, maxPoints) && |newLocation| == maxPoints + numFrozen
      requires emptyLocations == Below(maxPoints) - live && NoDangling(graphStore.graph, emptyLocations)
      modifies graphStore, dataStore.data
      ensures StoresValid() && numDangling == 0 && |live| <= maxPoints
      ensures NoDangling(graphStore.graph, Below(maxPoints) - Below(|live|))
      ensures SameAdjacency(old(graphStore.graph), graphStore.graph, live, maxPoints)
      ensures BlankPast(graphStore.graph, |live|, maxPoints)
      ensures FrozenKept(old(dataStore.data[..]), dataStore.data[..], maxPoints)
      ensures RowsMoved(old(dataStore.data[..]), dataStore.data[..], live)
    {
      ghost var G, rows := graphStore.graph, dataStore.data[..];
      numDangling := CompactGraph(graphStore, dataStore, newLocation, emptyLocations, maxPoints, live);
      NoneDangling(G, newLocation, live, maxPoints, |G|);
      CompactResult(G, graphStore.graph, rows, dataStore.data[..], newLocation, live, maxPoints);
    }

    method CompactTags(newLocation: seq<nat>, ghost live: set<nat>)
      requires SlotsValid() && Inverse(tagToLocation, locationToTag.Contents()) && live == locationToTag.Keys()
      requires IsNumbering(newLocation, live, maxPoints) && StoresValid()
      modifies this`tagToLocation, locationToTag
      ensures SlotsValid() && Inverse(tagToLocation, locationToTag.Contents()) && StoresValid()
      ensures TagsMoved(old(tagToLocation), tagToLocation, live)
    {
      ghost var before, locations := tagToLocation, locationToTag.Contents();
      assert live == locations.Keys;
      tagToLocation := RebuildTagToLocation(locationToTag, newLocation, before);
      TagsNumbered(before, locations, tagToLocation, newLocation, live, maxPoints);
      RebuildLocationToTag(locationToTag, tagToLocation);
    }

    // The lists past nd; the moves left them empty already.
    method ClearTail()
      requires graphStore.Valid() && nd <= maxPoints <= |graphStore.graph|
      requires BlankPast(graphStore.graph, nd, maxPoints)
      modifies graphStore
      ensures graphStore.Valid() && graphStore.graph == old(graphStore.graph)
    {
      for u := nd to maxPoints
        invariant graphStore.Valid() && graphStore.graph == old(graphStore.graph)
      {
        graphStore.ClearNeighbours(u);
      }
    }

    method RefillSlots()
      requires nd <= maxPoints
      modifies emptySlots
      ensures emptySlots.Valid() && emptySlots.values == Range(nd, maxPoints)
      ensures emptySlots.Contents() == Below(maxPoints) - Below(nd)
      ensures |emptySlots.bits| == if nd < maxPoints then maxPoints else 0
    {
      emptySlots.Clear();
      for i := nd to maxPoints
        invariant emptySlots.Valid() && emptySlots.values == Range(nd, i)
        invariant |emptySlots.bits| == if nd < i then i else 0
      {
        assert i !in emptySlots.Contents();
        emptySlots.Insert(i);
        assert Range(nd, i + 1) == Range(nd, i) + [i];
      }
      RangeElems(nd, maxPoints);
    }

    function ParamsOf(wp: WriteParams): Params
      reads dataStore.data
    {
      Params(wp.range, wp.maxc, wp.alpha, metric, RowDistance(dataStore.data[..], vectorDistance))
    }

    // search_for_point_and_prune from the frozen points: everything it returns is occupied.
    method SearchNeighbours(location: nat, wp: WriteParams) returns (pruned: seq<nat>)
      requires SlotsValid() && StoresValid() && location < maxPoints && location !in emptySlots.Contents()
      requires emptySlots.Contents() <= Below(maxPoints) && wp.searchListSize > 0
      requires NoDangling(graphStore.graph, emptySlots.Contents() + {location})
      ensures NewList(graphStore.graph, emptySlots.Contents(), location, maxPoints, wp, ParamsOf(wp), pruned)
    {
      var p := ParamsOf(wp);
      var init := InitIds(maxPoints, numFrozen);
      assert init[0] == maxPoints;
      var q := new NeighborPriorityQueue(wp.searchListSize);
      var ok;
      ok, pruned := SearchForPointAndPrune(q, location, wp.searchListSize, init, graphStore.graph, maxPoints,
                                           p.range, p.maxc, p.alpha, wp.saturate, p.metric, p.dist);
      ghost var empty := emptySlots.Contents() + {location};
      forall x | x in pruned ensures x < |graphStore.graph| && x !in empty {
        ReachableOccupied(graphStore.graph, empty, init, x);
      }
    }

    // The graph part of insert_point: search, prune, set the list, add back edges.
    method ConnectPoint(location: nat, wp: WriteParams)
      requires SlotsValid() && StoresValid() && location < maxPoints && location !in emptySlots.Contents()
      requires emptySlots.Contents() <= Below(maxPoints) && wp.searchListSize > 0
      requires NoDangling(graphStore.graph, emptySlots.Contents() + {location})
      modifies graphStore
      ensures StoresValid() && NoDangling(graphStore.graph, emptySlots.Contents())
      ensures Connected(old(graphStore.graph), graphStore.graph, location, maxPoints, wp, ParamsOf(wp))
    {
      ghost var G := graphStore.graph;
      var p := ParamsOf(wp);
      var pruned := SearchNeighbours(location, wp);
      assert Distinct(pruned) && forall x :: x in pruned ==> x < |graphStore.graph|;
      LinkLists(graphStore, location, pruned, p, wp.saturate);
      InsertConnected(G, graphStore.graph, emptySlots.Contents(), location, pruned, maxPoints, wp, p);
    }
  }

  lemma NextInOrder(order: seq<nat>, i: nat, all: set<nat>)
    requires Lists(order, all) && i < |order|
    ensures order[i] in all && order[i] !in Elems(order[..i])
    ensures Elems(order[..i + 1]) == Elems(order[..i]) + {order[i]}
  {
    SplitLast(order[..i + 1]);
    assert order[..i + 1][..i] == order[..i];
    assert order[i] in Elems(order);
  }

  // A list for l: found by a search, off the empty slots and l.
  ghost predicate NewList(G: Graph, empty: set<nat>, l: nat, start: nat, wp: WriteParams, p: Params, pruned: seq<nat>) {
    && pruned != [] && Distinct(pruned)
    && (forall x :: x in pruned ==> x < |G| && x !in empty && x != l)
    && FoundFor(G, l, wp.searchListSize, start, p, wp.saturate, pruned)
  }

  // l has the list, its entries their back edges, and the others are as before.
  ghost predicate ListsLinked(G: Graph, H: Graph, l: nat, pruned: seq<nat>, p: Params, saturate: bool) {
    && l < |G| == |H|
    && (forall v :: 0 <= v < |H| && v !in pruned ==> H[v] == G[l := pruned][v])
    && (forall v :: v in pruned ==> v < |H| && BackEdge(G[l := pruned][v], l, v, p, saturate, H[v]))
  }

  // The new node's list, then its back edges.
  method LinkLists(g: GraphStore, l: nat, pruned: seq<nat>, p: Params, saturate: bool)
    requires g.Valid() && l < |g.graph| && p.Metrized() && Distinct(pruned)
    requires forall x :: x in pruned ==> x < |g.graph|
    modifies g
    ensures g.Valid() && ListsLinked(old(g.graph), g.graph, l, pruned, p, saturate)
  {
    ghost var G := g.graph;
    g.ClearNeighbours(l);
    g.SetNeighbours(l, pruned);
    assert g.graph == G[l := pruned];
    assert forall i :: 0 <= i < |pruned| ==> pruned[i] in pruned;
    InterInsert(g, l, pruned, p, saturate);
  }

  // After the list of l is set and the back edges are added.
  lemma InsertConnected(G: Graph, H: Graph, empty: set<nat>, l: nat, pruned: seq<nat>, start: nat, wp: WriteParams,
                        p: Params)
    requires l < |G| && Closed(G) && NoDangling(G, empty + {l}) && l !in empty
    requires NewList(G, empty, l, start, wp, p, pruned) && ListsLinked(G, H, l, pruned, p, wp.saturate)
    ensures Connected(G, H, l, start, wp, p) && Closed(H) && NoDangling(H, empty)
  {
    assert H[l] == pruned;
    forall v, w | 0 <= v < |H| && v != l && w in H[v] ensures w in G[v] || w == l {
      if v in pruned {
        BackEdgeOrigin(G[v], l, v, p, wp.saturate, H[v]);
      }
    }
    ClosedAfterInsert(G, H, l, pruned);
    InsertNoDangling(G, H, empty, l, pruned);
  }

  lemma ClosedAfterInsert(G: Graph, H: Graph, l: nat, pruned: seq<nat>)
    requires Closed(G) && |G| == |H| && l < |G| && forall x :: x in pruned ==> x < |G|
    requires forall w :: w in H[l] ==> w in pruned || w == l
    requires forall v, w :: 0 <= v < |H| && v != l && w in H[v] ==> w in G[v] || w == l
    ensures Closed(H)
  {
    forall v, i | 0 <= v < |H| && 0 <= i < |H[v]| ensures H[v][i] < |H| {
      assert H[v][i] in H[v];
    }
  }
}
