/** process_delete and the graph pass of consolidate_deletes (src/index.cpp): every surviving node replaces
    its deleted neighbours by their neighbours. */
module Consolidation {
  import opened NeighborOrder
  import opened GreedySearch
  import opened Occlusion
  import opened RobustPrune
  import opened Pruning
  import opened Stores

  // (N(v) minus D) union (the out-neighbours of v's deleted neighbours, minus D and v).
  ghost function Expanded(G: Graph, D: set<nat>, v: nat): set<nat>
    requires v < |G|
  {
    set w: nat | w < |G| && w !in D && (w in G[v] || (w != v && ViaDeleted(G, D, v, w)))
  }

  ghost predicate ViaDeleted(G: Graph, D: set<nat>, v: nat, w: nat)
    requires v < |G|
  {
    exists x :: x in G[v] && x in D && x < |G| && w in G[x]
  }

  ghost predicate TouchesDeleted(G: Graph, D: set<nat>, v: nat)
    requires v < |G|
  {
    exists x :: x in G[v] && x in D
  }

  // The candidates of v in (distance, id) order: determined by the set.
  ghost predicate IsPool(pool: seq<Neighbor>, s: set<nat>, v: nat, dist: PairDistance) {
    && Elems(Ids(pool)) == s
    && Ranked(DistancesFrom(dist, v), Ids(pool))
    && (forall i :: 0 <= i < |pool| ==> pool[i] == Neighbor(pool[i].id, dist(v, pool[i].id), false))
  }

  function LargeJob(v: nat, pool: seq<Neighbor>, D: set<nat>, p: Params): Job {
    Job(v, Truncated(pool, p.maxc), p.alpha, p.range, p.metric, p.dist, D)
  }

  /** What process_delete(v) leaves as v's list, given the graph before the pass. */
  ghost predicate ProcessedList(G: Graph, D: set<nat>, v: nat, p: Params, list: seq<nat>)
    requires v < |G|
  {
    if !TouchesDeleted(G, D, v) then list == G[v]
    else if |Expanded(G, D, v)| <= p.range then Distinct(list) && Elems(list) == Expanded(G, D, v)
    else exists pool :: IsPool(pool, Expanded(G, D, v), v, p.dist) && list == OccludedList(LargeJob(v, pool, D, p))
  }

  /** A large expanded set, by ids and distances alone: what is left is its α-pruning with the caller's bounds. */
  ghost predicate LargeSetPruned(G: Graph, D: set<nat>, v: nat, p: Params, list: seq<nat>)
    requires v < |G|
  {
    (exists x :: x in G[v] && x in D) && |Expanded(G, D, v)| > p.range ==>
      AlphaPruned(p, Expanded(G, D, v), v, D, DistancesFrom(p.dist, v), list)
  }

  lemma LargeListPruned(G: Graph, D: set<nat>, v: nat, p: Params, list: seq<nat>)
    requires v < |G| && ProcessedList(G, D, v, p, list) && p.Metrized()
    ensures LargeSetPruned(G, D, v, p, list)
  {
    var s := Expanded(G, D, v);
    if TouchesDeleted(G, D, v) && |s| > p.range {
      var pool :| IsPool(pool, s, v, p.dist) && list == OccludedList(LargeJob(v, pool, D, p));
      OccludedAlpha(p, v, pool, s, DistancesFrom(p.dist, v), D);
    }
  }

  /** The closest member of a large expanded set stays, and the kept ones are spread out. */
  lemma LargeListFacts(G: Graph, D: set<nat>, v: nat, p: Params, list: seq<nat>)
    requires v < |G| && LargeSetPruned(G, D, v, p, list) && p.Metrized()
    requires (exists x :: x in G[v] && x in D) && |Expanded(G, D, v)| > p.range
    ensures Distinct(list) && |list| <= p.range && forall x :: x in list ==> x in Expanded(G, D, v)
    ensures !p.metric.InnerProduct? ==> Spread(list, DistancesFrom(p.dist, v), p.dist, p.alpha)
    ensures p.alpha >= 1.0 && p.range > 0 && p.maxc > 0 ==>
              forall x :: x != v && IsLeast(DistancesFrom(p.dist, v), Expanded(G, D, v), x) ==> x in list
  {
    PrunedList(p, Expanded(G, D, v), v, D, DistancesFrom(p.dist, v), list);
  }

  lemma PoolUnique(pool: seq<Neighbor>, pool': seq<Neighbor>, s: set<nat>, v: nat, dist: PairDistance)
    requires IsPool(pool, s, v, dist) && IsPool(pool', s, v, dist)
    ensures pool == pool'
  {
    RankedUnique(DistancesFrom(dist, v), Ids(pool), Ids(pool'));
    assert forall i :: 0 <= i < |pool| ==> Ids(pool)[i] == Ids(pool')[i];
  }

  /** Schedule independence of one node: the neighbour set is determined, and outside the case where the
      expanded set is copied in hash order so is the list. */
  lemma ProcessedListDetermined(G: Graph, D: set<nat>, v: nat, p: Params, l: seq<nat>, l': seq<nat>)
    requires v < |G| && ProcessedList(G, D, v, p, l) && ProcessedList(G, D, v, p, l')
    ensures Elems(l) == Elems(l')
    ensures !TouchesDeleted(G, D, v) || |Expanded(G, D, v)| > p.range ==> l == l'
  {
    var s := Expanded(G, D, v);
    if TouchesDeleted(G, D, v) && |s| > p.range {
      var pool :| IsPool(pool, s, v, p.dist) && l == OccludedList(LargeJob(v, pool, D, p));
      var pool' :| IsPool(pool', s, v, p.dist) && l' == OccludedList(LargeJob(v, pool', D, p));
      PoolUnique(pool, pool', s, v, p.dist);
    }
  }

  // No edge into the deleted set is left, and every edge is an old one or goes through a deleted neighbour.
  lemma ProcessedListClean(G: Graph, D: set<nat>, v: nat, p: Params, list: seq<nat>)
    requires v < |G| && ProcessedList(G, D, v, p, list) && p.Metrized()
    ensures forall w :: w in list ==> w !in D && (w in G[v] || (w != v && ViaDeleted(G, D, v, w)))
    ensures TouchesDeleted(G, D, v) ==> |list| <= p.range && Distinct(list)
  {
    var s := Expanded(G, D, v);
    if TouchesDeleted(G, D, v) {
      if |s| <= p.range {
        assert forall w :: w in list ==> w in Elems(list);
        DistinctCard(list);
      } else {
        var pool :| IsPool(pool, s, v, p.dist) && list == OccludedList(LargeJob(v, pool, D, p));
        OccludedListShape(v, pool, p.alpha, p.range, p.maxc, p.metric, p.dist, D);
        assert forall w :: w in list ==> w in Elems(Ids(pool));
      }
    }
  }

  // Processing v looks only at v's own list and at the lists of deleted nodes.
  lemma ReadsOwnAndDeleted(G: Graph, H: Graph, D: set<nat>, v: nat, p: Params, list: seq<nat>)
    requires v < |G| == |H| && G[v] == H[v] && forall x :: x in D && x < |G| ==> G[x] == H[x]
    ensures ProcessedList(G, D, v, p, list) <==> ProcessedList(H, D, v, p, list)
  {
    forall w ensures ViaDeleted(G, D, v, w) <==> ViaDeleted(H, D, v, w) {
      if ViaDeleted(G, D, v, w) {
        var x :| x in G[v] && x in D && x < |G| && w in G[x];
        assert x in H[v] && w in H[x];
      }
      if ViaDeleted(H, D, v, w) {
        var x :| x in H[v] && x in D && x < |H| && w in H[x];
        assert x in G[v] && w in G[x];
      }
    }
    assert Expanded(G, D, v) == Expanded(H, D, v);
  }

  // The loop that fills expanded_nodes_set.
  method Expand(G: Graph, D: set<nat>, v: nat) returns (expanded: set<nat>, touched: bool)
    requires v < |G| && Closed(G)
    ensures touched <==> TouchesDeleted(G, D, v)
    ensures expanded == Expanded(G, D, v)
  {
    expanded, touched := {}, false;
    var adj := G[v];
    for i := 0 to |adj|
      invariant touched <==> exists k :: 0 <= k < i && adj[k] in D
      invariant forall w :: w in expanded <==> w !in D && FoundBy(G, D, v, i, w)
    {
      var ngh := adj[i];
      if ngh !in D {
        expanded := expanded + {ngh};
      } else {
        touched := true;
        var nbrs := G[ngh];
        expanded := expanded + set w | w in nbrs && w != v && w !in D;
      }
    }
    assert forall w :: FoundBy(G, D, v, |adj|, w) && w !in D ==> w in Expanded(G, D, v);
    forall w | w in Expanded(G, D, v) ensures w in expanded {
      if w in G[v] {
        var k :| 0 <= k < |adj| && adj[k] == w;
        assert FoundBy(G, D, v, |adj|, w);
      } else {
        var x :| x in G[v] && x in D && x < |G| && w in G[x];
        var k :| 0 <= k < |adj| && adj[k] == x;
        assert FoundBy(G, D, v, |adj|, w);
      }
    }
  }

  ghost predicate FoundBy(G: Graph, D: set<nat>, v: nat, n: nat, w: nat)
    requires v < |G| && n <= |G[v]| && Closed(G)
  {
    exists k :: 0 <= k < n && if G[v][k] in D then w != v && w in G[G[v][k]] else w == G[v][k]
  }

  // The candidates with their distances, sorted; the set is listed in any order first.
  method SortedCandidates(s: set<nat>, v: nat, dist: PairDistance) returns (pool: seq<Neighbor>)
    ensures IsPool(pool, s, v, dist)
  {
    var rest, list := s, [];
    while rest != {}
      invariant rest <= s && Distinct(Ids(list)) && Elems(Ids(list)) == s - rest
      invariant forall i :: 0 <= i < |list| ==> list[i] == Neighbor(list[i].id, dist(v, list[i].id), false)
      decreases rest
    {
      var x :| x in rest;
      ghost var ids := Ids(list);
      assert Ids(list + [Neighbor(x, dist(v, x), false)]) == ids + [x];
      assert forall i :: 0 <= i < |ids| ==> ids[i] in Elems(ids);
      list := list + [Neighbor(x, dist(v, x), false)];
      rest := rest - {x};
    }
    pool := SortPool(list);
    assert forall i :: 0 <= i < |pool| ==> pool[i] in list;
    SortedRanked(DistancesFrom(dist, v), pool);
  }

  // clear_neighbours, then one add_neighbour per element in the set's iteration order.
  method CopySet(g: GraphStore, v: nat, s: set<nat>)
    requires g.Valid() && v < |g.graph|
    modifies g
    ensures g.Valid() && |g.graph| == |old(g.graph)| && g.graph == old(g.graph)[v := g.graph[v]]
    ensures Distinct(g.graph[v]) && Elems(g.graph[v]) == s
  {
    g.ClearNeighbours(v);
    var rest := s;
    while rest != {}
      invariant g.Valid() && rest <= s && |g.graph| == |old(g.graph)| && g.graph == old(g.graph)[v := g.graph[v]]
      invariant Distinct(g.graph[v]) && Elems(g.graph[v]) == s - rest
      decreases rest
    {
      var x :| x in rest;
      ghost var list := g.graph[v];
      assert forall i :: 0 <= i < |list| ==> list[i] in Elems(list);
      g.AddNeighbour(v, x);
      rest := rest - {x};
    }
  }

  /** process_delete: writes v's list only. */
  method ProcessDelete(g: GraphStore, D: set<nat>, v: nat, p: Params)
    requires g.Valid() && v < |g.graph| && v !in D && Closed(g.graph) && p.Metrized()
    modifies g
    ensures g.Valid() && |g.graph| == |old(g.graph)| && g.graph == old(g.graph)[v := g.graph[v]]
    ensures ProcessedList(old(g.graph), D, v, p, g.graph[v])
    ensures LargeSetPruned(old(g.graph), D, v, p, g.graph[v])
    ensures Closed(g.graph)
  {
    ghost var G := g.graph;
    var expanded, touched := Expand(g.graph, D, v);
    if touched {
      if |expanded| <= p.range {
        CopySet(g, v, expanded);
      } else {
        var pool := SortedCandidates(expanded, v, p.dist);
        var _, list := OccludeList(v, pool, p.alpha, p.range, p.maxc, p.metric, p.dist, D);
        g.SetNeighbours(v, list);
      }
    }
    ClosedAfter(G, g.graph, D, v, p);
    LargeListPruned(G, D, v, p, g.graph[v]);
  }

  lemma ClosedAfter(G: Graph, H: Graph, D: set<nat>, v: nat, p: Params)
    requires v < |G| == |H| && H == G[v := H[v]] && Closed(G) && ProcessedList(G, D, v, p, H[v]) && p.Metrized()
    ensures Closed(H)
  {
    ProcessedListClean(G, D, v, p, H[v]);
    forall i | 0 <= i < |H[v]| ensures H[v][i] < |H| {
      var w := H[v][i];
      assert w in H[v];
      if w !in G[v] {
        var x :| x in G[v] && x in D && x < |G| && w in G[x];
      }
    }
  }

  // H is G after the locations in `done` were processed, in whatever order.
  ghost predicate GraphPass(G: Graph, H: Graph, D: set<nat>, done: set<nat>, p: Params) {
    && |H| == |G|
    && (forall v :: 0 <= v < |G| && v !in done ==> H[v] == G[v])
    && (forall v :: 0 <= v < |G| && v in done ==> v !in D && ProcessedList(G, D, v, p, H[v]))
  }

  /** Schedule independence and completeness of the whole pass. */
  lemma GraphPassDetermined(G: Graph, H: Graph, H': Graph, D: set<nat>, done: set<nat>, p: Params)
    requires GraphPass(G, H, D, done, p) && GraphPass(G, H', D, done, p)
    ensures forall v :: 0 <= v < |G| ==> Elems(H[v]) == Elems(H'[v])
  {
    forall v | 0 <= v < |G| && v in done ensures Elems(H[v]) == Elems(H'[v]) {
      ProcessedListDetermined(G, D, v, p, H[v], H'[v]);
    }
  }

  lemma GraphPassComplete(G: Graph, H: Graph, D: set<nat>, done: set<nat>, p: Params)
    requires GraphPass(G, H, D, done, p) && p.Metrized()
    ensures forall v, w :: 0 <= v < |G| && v in done && w in H[v] ==> w !in D
    ensures forall v :: 0 <= v < |G| && v in done && TouchesDeleted(G, D, v) && |Expanded(G, D, v)| <= p.range ==>
              Elems(H[v]) == Expanded(G, D, v)
  {
    forall v | 0 <= v < |G| && v in done ensures forall w :: w in H[v] ==> w !in D {
      ProcessedListClean(G, D, v, p, H[v]);
    }
  }
}
