/** What inserts and consolidations leave, in the distances between stored rows (get_distance compares two rows,
    src/in_mem_data_store.cpp:216-220). */
module RowSpace {
  import opened NeighborOrder
  import opened GreedySearch
  import opened RobustPrune
  import opened Pruning
  import opened Consolidation
  import opened Stores

  type VectorDistance = (Vector, Vector) -> real

  datatype WriteParams = WriteParams(searchListSize: nat, range: nat, maxc: nat, alpha: real, saturate: bool)

  // A distance between ids is the one between their rows.
  ghost predicate Gauges(dist: PairDistance, rows: seq<Vector>, vd: VectorDistance) {
    forall a: nat, b: nat :: a < |rows| && b < |rows| ==> dist(a, b) == vd(rows[a], rows[b])
  }

  // The bounds of a write, with a distance between ids.
  function WithDistance(wp: WriteParams, metric: Metric, dist: PairDistance): (p: Params)
    ensures p.range == wp.range && p.maxc == wp.maxc && p.alpha == wp.alpha && p.metric == metric && p.dist == dist
  {
    Params(wp.range, wp.maxc, wp.alpha, metric, dist)
  }

  // Row y is closer to row l than row w is, the smaller id first if they are as close.
  ghost predicate Nearer(rows: seq<Vector>, vd: VectorDistance, l: nat, y: nat, w: nat) {
    && l < |rows| && y < |rows| && w < |rows|
    && (vd(rows[y], rows[l]) < vd(rows[w], rows[l]) || (vd(rows[y], rows[l]) == vd(rows[w], rows[l]) && y < w))
  }

  /** The new list of an insert at l: within range, and of two entries the farther is at most alpha times as far from l
      as from the closer one listed before it. */
  ghost predicate ListNear(list: seq<nat>, l: nat, wp: WriteParams, metric: Metric, rows: seq<Vector>,
                           vd: VectorDistance)
  {
    && l < |rows| && |list| <= (if wp.range > 0 then wp.range else 1)
    && (forall i :: 0 <= i < |list| ==> list[i] < |rows|)
    && (!metric.InnerProduct? && !wp.saturate ==>
          forall i, k :: 0 <= i < k < |list| && vd(rows[list[i]], rows[l]) < vd(rows[list[k]], rows[l]) ==>
            && 0.0 < vd(rows[list[k]], rows[list[i]])
            && vd(rows[list[k]], rows[l]) <= wp.alpha * vd(rows[list[k]], rows[list[i]]))
  }

  /** The search behind it: it came to rest at ids, which are among the expanded nodes, and the expanded node closest to
      l is in the list. */
  ghost predicate SearchNear(G: Graph, list: seq<nat>, l: nat, wp: WriteParams, rows: seq<Vector>, vd: VectorDistance,
                             ids: seq<nat>, expanded: set<nat>)
  {
    && Elems(ids) <= expanded && (forall v :: v in expanded ==> v < |rows| && v < |G|)
    && (forall v, w :: v in ids && v < |G| && w in G[v] ==>
          w in ids || (|ids| == wp.searchListSize && forall y :: y in ids ==> Nearer(rows, vd, l, y, w)))
    && (wp.maxc > 0 ==> forall m :: m in expanded && NearestOf(expanded, l, rows, vd, m) ==> m in list)
  }

  ghost predicate NearestOf(expanded: set<nat>, l: nat, rows: seq<Vector>, vd: VectorDistance, m: nat) {
    m in expanded && m != l && forall y :: y in expanded && y != l && y != m ==> Nearer(rows, vd, l, m, y)
  }

  ghost predicate InsertedNear(G: Graph, list: seq<nat>, l: nat, wp: WriteParams, metric: Metric, rows: seq<Vector>,
                               vd: VectorDistance)
  {
    && ListNear(list, l, wp, metric, rows, vd)
    && exists ids, expanded :: SearchNear(G, list, l, wp, rows, vd, ids, expanded)
  }

  // Order by a distance to l between ids is order by the rows.
  lemma BeforeIsNearer(dist: PairDistance, rows: seq<Vector>, vd: VectorDistance, l: nat, y: nat, w: nat)
    requires Gauges(dist, rows, vd) && l < |rows| && y < |rows| && w < |rows|
    ensures Before(DistancesTo(dist, l), y, w) <==> Nearer(rows, vd, l, y, w)
  {
  }

  lemma ListIsNear(list: seq<nat>, l: nat, wp: WriteParams, p: Params, rows: seq<Vector>, vd: VectorDistance)
    requires Gauges(p.dist, rows, vd) && l < |rows| && forall i :: 0 <= i < |list| ==> list[i] < |rows|
    requires |list| <= (if wp.range > 0 then wp.range else 1) && p.alpha == wp.alpha
    requires !p.metric.InnerProduct? && !wp.saturate ==> Spread(list, DistancesTo(p.dist, l), p.dist, p.alpha)
    ensures ListNear(list, l, wp, p.metric, rows, vd)
  {
    if !p.metric.InnerProduct? && !wp.saturate {
      forall i, k | 0 <= i < k < |list| && vd(rows[list[i]], rows[l]) < vd(rows[list[k]], rows[l])
        ensures 0.0 < vd(rows[list[k]], rows[list[i]])
        ensures vd(rows[list[k]], rows[l]) <= wp.alpha * vd(rows[list[k]], rows[list[i]])
      {
        BeforeIsNearer(p.dist, rows, vd, l, list[i], list[k]);
        assert p.dist(list[k], list[i]) == vd(rows[list[k]], rows[list[i]]);
        assert DistancesTo(p.dist, l)(list[k]) == vd(rows[list[k]], rows[l]);
      }
    }
  }

  // The closest expanded node is in the list, chosen or as the fallback.
  lemma ClosestListed(G: Graph, l: nat, start: nat, p: Params, saturate: bool, list: seq<nat>, L: nat, ids: seq<nat>,
                      popped: set<nat>, chosen: seq<nat>, m: nat)
    requires SearchedFor(G, l, L, start, p, saturate, list, ids, popped, chosen) && p.Metrized() && p.maxc > 0
    requires m != l && IsLeast(DistancesTo(p.dist, l), popped - {l}, m)
    ensures m in list
  {
    var d, s := DistancesTo(p.dist, l), popped - {l};
    ChosenList(p, saturate, s, l, d, chosen);
    if p.alpha < 1.0 {
      NoneChosen(p, saturate, s, l, d, chosen);
    }
  }

  // Below 1 no round is run.
  lemma NoneChosen(p: Params, saturate: bool, s: set<nat>, location: nat, d: Distance, list: seq<nat>)
    requires ChosenFrom(p, saturate, s, location, d, list) && p.alpha < 1.0
    ensures list == []
  {
    var base: seq<nat> :| AlphaPruned(p, s, location, {}, d, base) && ToppedUp(p, saturate, s, location, d, base, list);
    var considered: seq<nat>, rounds: seq<real>, a: real :|
      AlphaPrunedBy(p, s, location, {}, d, base, considered, rounds, a);
    NoRound(rounds, p.alpha);
  }

  function FirstOr(rounds: seq<real>, x: real): real {
    if rounds == [] then x else rounds[0]
  }

  lemma NoRound(rounds: seq<real>, alpha: real)
    requires alpha < 1.0 && forall k :: 0 <= k < |rounds| ==> 1.0 <= rounds[k] <= alpha
    ensures rounds == []
  {
    var x := FirstOr(rounds, alpha);
  }

  /** The list an insert finds, in row distances. */
  lemma InsertedMeaning(G: Graph, list: seq<nat>, l: nat, start: nat, wp: WriteParams, p: Params, rows: seq<Vector>,
                        vd: VectorDistance)
    requires FoundFor(G, l, wp.searchListSize, start, p, wp.saturate, list) && Gauges(p.dist, rows, vd) && p.Metrized()
    requires p.range == wp.range && p.maxc == wp.maxc && p.alpha == wp.alpha
    requires Closed(G) && |G| == |rows| && l < |G| && start < |G| && forall x :: x in list ==> x < |G|
    ensures InsertedNear(G, list, l, wp, p.metric, rows, vd)
  {
    FoundMeaning(G, l, wp.searchListSize, start, p, wp.saturate, list);
    var ids: seq<nat>, popped: set<nat>, chosen: seq<nat> :|
      SearchedFor(G, l, wp.searchListSize, start, p, wp.saturate, list, ids, popped, chosen);
    FoundIsNear(G, list, l, start, wp, p, rows, vd, ids, popped, chosen);
  }

  lemma FoundIsNear(G: Graph, list: seq<nat>, l: nat, start: nat, wp: WriteParams, p: Params, rows: seq<Vector>,
                    vd: VectorDistance, ids: seq<nat>, popped: set<nat>, chosen: seq<nat>)
    requires SearchedFor(G, l, wp.searchListSize, start, p, wp.saturate, list, ids, popped, chosen)
    requires Gauges(p.dist, rows, vd) && p.Metrized()
    requires p.range == wp.range && p.maxc == wp.maxc && p.alpha == wp.alpha
    requires Closed(G) && |G| == |rows| && l < |G| && start < |G| && forall x :: x in list ==> x < |G|
    ensures InsertedNear(G, list, l, wp, p.metric, rows, vd)
  {
    var d, s := DistancesTo(p.dist, l), popped - {l};
    ChosenList(p, wp.saturate, s, l, d, chosen);
    assert chosen == [] ==> |list| == 1;
    assert forall i :: 0 <= i < |list| ==> list[i] in list;
    ListIsNear(list, l, wp, p, rows, vd);
    RestIsNear(G, l, wp, p, rows, vd, ids);
    if wp.maxc > 0 {
      forall m | m in popped && NearestOf(popped, l, rows, vd, m) ensures m in list
      {
        forall y | y in s ensures y == m || Before(d, m, y) {
          BeforeIsNearer(p.dist, rows, vd, l, m, y);
        }
        ClosestListed(G, l, start, p, wp.saturate, list, wp.searchListSize, ids, popped, chosen, m);
      }
    }
    assert SearchNear(G, list, l, wp, rows, vd, ids, popped);
  }

  lemma RestIsNear(G: Graph, l: nat, wp: WriteParams, p: Params, rows: seq<Vector>, vd: VectorDistance, ids: seq<nat>)
    requires FixedPoint(DistancesTo(p.dist, l), G, ids, wp.searchListSize) && Gauges(p.dist, rows, vd)
    requires Closed(G) && |G| == |rows| && l < |G| && forall v :: v in ids ==> v < |G|
    ensures forall v, w :: v in ids && v < |G| && w in G[v] ==>
              w in ids || (|ids| == wp.searchListSize && forall y :: y in ids ==> Nearer(rows, vd, l, y, w))
  {
    forall v, w | v in ids && v < |G| && w in G[v] && w !in ids
      ensures |ids| == wp.searchListSize && forall y :: y in ids ==> Nearer(rows, vd, l, y, w)
    {
      var i :| 0 <= i < |G[v]| && G[v][i] == w;
      forall y | y in ids ensures Nearer(rows, vd, l, y, w) {
        BeforeIsNearer(p.dist, rows, vd, l, y, w);
      }
    }
  }

  // ---- consolidation ----

  /** What is left of a large expanded set s of v: within range, the member closest to v kept, and of two entries the
      farther at most alpha times as far from v as from the closer one listed before it. */
  ghost predicate RepairedNear(list: seq<nat>, s: set<nat>, v: nat, wp: WriteParams, metric: Metric, rows: seq<Vector>,
                               vd: VectorDistance)
  {
    && v < |rows| && Distinct(list) && |list| <= wp.range
    && (forall x :: x in s ==> x < |rows|) && (forall x :: x in list ==> x in s)
    && (wp.alpha >= 1.0 && wp.range > 0 && wp.maxc > 0 ==>
          forall m :: m in s && NearestFrom(s, v, rows, vd, m) ==> m in list)
    && (!metric.InnerProduct? ==>
          forall i, k :: 0 <= i < k < |list| && list[i] < |rows| && list[k] < |rows|
                         && vd(rows[v], rows[list[i]]) < vd(rows[v], rows[list[k]]) ==>
            && 0.0 < vd(rows[list[k]], rows[list[i]])
            && vd(rows[v], rows[list[k]]) <= wp.alpha * vd(rows[list[k]], rows[list[i]]))
  }

  ghost predicate NearestFrom(s: set<nat>, v: nat, rows: seq<Vector>, vd: VectorDistance, m: nat) {
    m in s && m != v && forall y :: y in s && y != m ==> NearerFrom(rows, vd, v, m, y)
  }

  ghost predicate NearerFrom(rows: seq<Vector>, vd: VectorDistance, v: nat, y: nat, w: nat) {
    && v < |rows| && y < |rows| && w < |rows|
    && (vd(rows[v], rows[y]) < vd(rows[v], rows[w]) || (vd(rows[v], rows[y]) == vd(rows[v], rows[w]) && y < w))
  }

  lemma BeforeIsNearerFrom(dist: PairDistance, rows: seq<Vector>, vd: VectorDistance, v: nat, y: nat, w: nat)
    requires Gauges(dist, rows, vd) && v < |rows| && y < |rows| && w < |rows|
    ensures Before(DistancesFrom(dist, v), y, w) <==> NearerFrom(rows, vd, v, y, w)
  {
  }

  lemma RepairedMeaning(G: Graph, D: set<nat>, v: nat, p: Params, list: seq<nat>, wp: WriteParams, rows: seq<Vector>,
                        vd: VectorDistance)
    requires v < |G| == |rows| && LargeSetPruned(G, D, v, p, list) && p.Metrized() && Gauges(p.dist, rows, vd)
    requires (exists x :: x in G[v] && x in D) && |Expanded(G, D, v)| > p.range
    requires p.range == wp.range && p.maxc == wp.maxc && p.alpha == wp.alpha
    ensures RepairedNear(list, Expanded(G, D, v), v, wp, p.metric, rows, vd)
  {
    var s, d := Expanded(G, D, v), DistancesFrom(p.dist, v);
    LargeListFacts(G, D, v, p, list);
    forall m | wp.alpha >= 1.0 && wp.range > 0 && wp.maxc > 0 && m in s && NearestFrom(s, v, rows, vd, m)
      ensures m in list
    {
      forall y | y in s ensures y == m || Before(d, m, y) {
        BeforeIsNearerFrom(p.dist, rows, vd, v, m, y);
      }
      assert IsLeast(d, s, m);
    }
    if !p.metric.InnerProduct? {
      SpreadFrom(list, v, p, wp, rows, vd);
    }
  }

  lemma SpreadFrom(list: seq<nat>, v: nat, p: Params, wp: WriteParams, rows: seq<Vector>, vd: VectorDistance)
    requires Gauges(p.dist, rows, vd) && v < |rows| && p.alpha == wp.alpha
    requires Spread(list, DistancesFrom(p.dist, v), p.dist, p.alpha)
    ensures forall i, k :: 0 <= i < k < |list| && list[i] < |rows| && list[k] < |rows|
                           && vd(rows[v], rows[list[i]]) < vd(rows[v], rows[list[k]]) ==>
              && 0.0 < vd(rows[list[k]], rows[list[i]])
              && vd(rows[v], rows[list[k]]) <= wp.alpha * vd(rows[list[k]], rows[list[i]])
  {
    forall i, k | 0 <= i < k < |list| && list[i] < |rows| && list[k] < |rows|
                  && vd(rows[v], rows[list[i]]) < vd(rows[v], rows[list[k]])
      ensures 0.0 < vd(rows[list[k]], rows[list[i]])
      ensures vd(rows[v], rows[list[k]]) <= wp.alpha * vd(rows[list[k]], rows[list[i]])
    {
      BeforeIsNearerFrom(p.dist, rows, vd, v, list[i], list[k]);
      assert p.dist(list[k], list[i]) == vd(rows[list[k]], rows[list[i]]);
      assert DistancesFrom(p.dist, v)(list[k]) == vd(rows[v], rows[list[k]]);
    }
  }

  /** Every surviving location with a deleted neighbour and a large expanded set, after the pass: pruned with the
      write's own bounds in a distance that is the rows', and what that means. */
  ghost predicate SurvivorsRepaired(G: Graph, H: Graph, D: set<nat>, done: set<nat>, wp: WriteParams, metric: Metric,
                                    rows: seq<Vector>, vd: VectorDistance)
  {
    && |H| == |G|
    && (exists dist :: Gauges(dist, rows, vd) && PrunedBy(G, H, D, done, WithDistance(wp, metric, dist)))
    && forall v :: v in done && v < |G| && (exists x :: x in G[v] && x in D) && |Expanded(G, D, v)| > wp.range ==>
         RepairedNear(H[v], Expanded(G, D, v), v, wp, metric, rows, vd)
  }

  ghost predicate PrunedBy(G: Graph, H: Graph, D: set<nat>, done: set<nat>, p: Params)
    requires |H| == |G|
  {
    forall v :: v in done && v < |G| ==> LargeSetPruned(G, D, v, p, H[v])
  }

  lemma PassRepairs(G: Graph, H: Graph, D: set<nat>, done: set<nat>, p: Params, wp: WriteParams, rows: seq<Vector>,
                    vd: VectorDistance)
    requires GraphPass(G, H, D, done, p) && p.Metrized() && Gauges(p.dist, rows, vd) && |G| == |rows|
    requires p.range == wp.range && p.maxc == wp.maxc && p.alpha == wp.alpha
    ensures SurvivorsRepaired(G, H, D, done, wp, p.metric, rows, vd)
  {
    forall v | v in done && v < |G| ensures LargeSetPruned(G, D, v, p, H[v]) {
      LargeListPruned(G, D, v, p, H[v]);
    }
    assert WithDistance(wp, p.metric, p.dist) == p;
    assert PrunedBy(G, H, D, done, WithDistance(wp, p.metric, p.dist));
    forall v | v in done && v < |G| && (exists x :: x in G[v] && x in D) && |Expanded(G, D, v)| > wp.range
      ensures RepairedNear(H[v], Expanded(G, D, v), v, wp, p.metric, rows, vd)
    {
      RepairedMeaning(G, D, v, p, H[v], wp, rows, vd);
    }
  }
}
