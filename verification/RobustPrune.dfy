/** What α-pruning promises, said of ids and distances alone: occlude_list, and prune_neighbors with its saturation
    (src/index.cpp:1089-1308). */
module RobustPrune {
  import opened NeighborOrder

  datatype Metric = L2 | Cosine | InnerProduct

  // Distance between two stored points, by their ids.
  type PairDistance = (nat, nat) -> real

  datatype Params = Params(range: nat, maxc: nat, alpha: real, metric: Metric, dist: PairDistance) {
    // L2 and cosine distances are never negative; inner-product ones may be.
    ghost predicate Metrized() {
      !metric.InnerProduct? ==> forall a, b :: dist(a, b) >= 0.0
    }
  }

  ghost predicate Measurable(metric: Metric, dist: PairDistance, pool: seq<Neighbor>) {
    !metric.InnerProduct? ==>
      (forall a, b :: dist(a, b) >= 0.0) && forall t :: 0 <= t < |pool| ==> pool[t].distance >= 0.0
  }

  // c occludes t, which is dt away from the location, at threshold a.
  ghost predicate Occludes(metric: Metric, dist: PairDistance, c: nat, t: nat, dt: real, a: real) {
    if metric.InnerProduct? then -dist(t, c) > a * -dt else dist(t, c) == 0.0 || dt > a * dist(t, c)
  }

  function Without(s: seq<nat>, out: set<nat>): (r: seq<nat>)
    ensures forall x :: x in r <==> x in s && x !in out
  {
    if s == [] then []
    else
      var n := |s| - 1;
      Without(s[..n], out) + if s[n] in out then [] else [s[n]]
  }

  lemma WithoutLast(s: seq<nat>, out: set<nat>)
    requires s != []
    ensures Without(s, out) == Without(s[..|s| - 1], out) + if s[|s| - 1] in out then [] else [s[|s| - 1]]
  {
  }

  // Two entries of what is left stem from two entries in the same order.
  lemma {:induction false} WithoutOrder(s: seq<nat>, out: set<nat>, u: nat, v: nat) returns (a: nat, b: nat)
    requires u < v < |Without(s, out)|
    ensures a < b < |s| && s[a] == Without(s, out)[u] && s[b] == Without(s, out)[v]
  {
    var n := |s| - 1;
    var init := Without(s[..n], out);
    if v < |init| {
      a, b := WithoutOrder(s[..n], out, u, v);
    } else {
      b := n;
      assert init[u] in init && init[u] in s[..n];
      var k :| 0 <= k < n && s[..n][k] == init[u];
      a := k;
    }
  }

  lemma {:induction false} WithoutDistinct(s: seq<nat>, out: set<nat>)
    requires Distinct(s)
    ensures Distinct(Without(s, out))
  {
    if s != [] {
      var n := |s| - 1;
      WithoutDistinct(s[..n], out);
      assert s[n] !in s[..n] && s[n] !in Without(s[..n], out);
    }
  }

  // ---- by position in a sorted pool ----

  function IdsAt(pool: seq<Neighbor>, order: seq<nat>): (r: seq<nat>)
    requires forall k :: 0 <= k < |order| ==> order[k] < |pool|
    ensures |r| == |order| && forall k :: 0 <= k < |order| ==> r[k] == pool[order[k]].id
  {
    seq(|order|, k requires 0 <= k < |order| => pool[order[k]].id)
  }

  // No candidate considered earlier, and closer, occludes one considered later at the later one's threshold; for inner
  // products, within a round.
  ghost predicate PoolSeparated(pool: seq<Neighbor>, metric: Metric, dist: PairDistance, order: seq<nat>,
                                rounds: seq<real>)
    requires |rounds| == |order| && forall k :: 0 <= k < |order| ==> order[k] < |pool|
  {
    forall i, k :: 0 <= i < k < |order| && order[i] < order[k] && (metric.InnerProduct? ==> rounds[i] == rounds[k]) ==>
      !Occludes(metric, dist, pool[order[i]].id, pool[order[k]].id, pool[order[k]].distance, rounds[k])
  }

  // Every candidate never considered is occluded by a closer considered one.
  ghost predicate PoolCovered(pool: seq<Neighbor>, metric: Metric, dist: PairDistance, order: seq<nat>, a: real) {
    forall t :: 0 <= t < |pool| && t !in order ==> CoveredAt(pool, metric, dist, order, t, a)
  }

  ghost predicate CoveredAt(pool: seq<Neighbor>, metric: Metric, dist: PairDistance, order: seq<nat>, t: nat, a: real)
    requires t < |pool|
  {
    exists c :: c in order && c < t && Occludes(metric, dist, pool[c].id, pool[t].id, pool[t].distance, a)
  }

  /** `order` lists the positions considered, oldest first, and rounds[k] the threshold at which order[k] was. The first
      is position 0; the list is the ids considered, without the removed ones and the location. With room left the
      others are covered at threshold a, the last that fits within alpha. */
  ghost predicate PoolPruned(location: nat, pool: seq<Neighbor>, removed: set<nat>, degree: nat, alpha: real,
                             metric: Metric, dist: PairDistance, list: seq<nat>, order: seq<nat>, rounds: seq<real>,
                             a: real)
  {
    && |rounds| == |order| && Distinct(order)
    && (forall k :: 0 <= k < |order| ==> order[k] < |pool| && 1.0 <= rounds[k] <= alpha)
    && list == Without(IdsAt(pool, order), removed + {location})
    && |list| <= degree
    && (alpha >= 1.0 && degree > 0 && pool != [] ==> order != [] && order[0] == 0)
    && PoolSeparated(pool, metric, dist, order, rounds)
    && (alpha >= 1.0 && |list| < degree ==> 1.0 <= a <= alpha < a * 1.2 && PoolCovered(pool, metric, dist, order, a))
  }

  // Of two entries of the list at pool positions p < q, the one at p first: the farther is at most alpha times as far
  // from the location as from the closer, and they do not coincide.
  ghost predicate PoolSpread(pool: seq<Neighbor>, dist: PairDistance, alpha: real, list: seq<nat>) {
    forall u, v, p, q ::
      0 <= u < v < |list| && 0 <= p < q < |pool| && list[u] == pool[p].id && list[v] == pool[q].id ==>
        WithinFactor(pool[q].distance, alpha, dist(list[v], list[u]))
  }

  // x is at most alpha times g, and g is positive.
  ghost predicate WithinFactor(x: real, alpha: real, g: real) {
    0.0 < g && x <= alpha * g
  }

  lemma AtAlpha(x: real, g: real, a: real, alpha: real)
    requires x <= a * g && a <= alpha && 0.0 <= g
    ensures x <= alpha * g
  {
  }

  // Where two entries of the list were considered.
  lemma ConsideredAt(pool: seq<Neighbor>, order: seq<nat>, out: set<nat>, u: nat, v: nat, p: nat, q: nat)
    returns (a: nat, b: nat)
    requires Distinct(Ids(pool)) && forall k :: 0 <= k < |order| ==> order[k] < |pool|
    requires var list := Without(IdsAt(pool, order), out);
             u < v < |list| && p < |pool| && q < |pool| && list[u] == pool[p].id && list[v] == pool[q].id
    ensures a < b < |order| && order[a] == p && order[b] == q
  {
    a, b := WithoutOrder(IdsAt(pool, order), out, u, v);
    assert Ids(pool)[order[a]] == Ids(pool)[p] && Ids(pool)[order[b]] == Ids(pool)[q];
  }

  lemma SpreadByPosition(pool: seq<Neighbor>, out: set<nat>, alpha: real, metric: Metric, dist: PairDistance,
                         list: seq<nat>, order: seq<nat>, rounds: seq<real>)
    requires |rounds| == |order| && (forall k :: 0 <= k < |order| ==> order[k] < |pool| && rounds[k] <= alpha)
    requires list == Without(IdsAt(pool, order), out) && PoolSeparated(pool, metric, dist, order, rounds)
    requires Measurable(metric, dist, pool) && !metric.InnerProduct? && Distinct(Ids(pool))
    ensures PoolSpread(pool, dist, alpha, list)
  {
    forall u, v, p, q | 0 <= u < v < |list| && 0 <= p < q < |pool| && list[u] == pool[p].id && list[v] == pool[q].id
      ensures WithinFactor(pool[q].distance, alpha, dist(list[v], list[u]))
    {
      PairSpread(pool, out, alpha, metric, dist, list, order, rounds, u, v, p, q);
    }
  }

  lemma PairSpread(pool: seq<Neighbor>, out: set<nat>, alpha: real, metric: Metric, dist: PairDistance,
                   list: seq<nat>, order: seq<nat>, rounds: seq<real>, u: nat, v: nat, p: nat, q: nat)
    requires |rounds| == |order| && (forall k :: 0 <= k < |order| ==> order[k] < |pool| && rounds[k] <= alpha)
    requires list == Without(IdsAt(pool, order), out) && PoolSeparated(pool, metric, dist, order, rounds)
    requires Measurable(metric, dist, pool) && !metric.InnerProduct? && Distinct(Ids(pool))
    requires u < v < |list| && p < q < |pool| && list[u] == pool[p].id && list[v] == pool[q].id
    ensures WithinFactor(pool[q].distance, alpha, dist(list[v], list[u]))
  {
    var i, k := ConsideredAt(pool, order, out, u, v, p, q);
    SeparatedPair(pool, metric, dist, order, rounds, i, k, alpha);
  }

  lemma SeparatedPair(pool: seq<Neighbor>, metric: Metric, dist: PairDistance, order: seq<nat>, rounds: seq<real>,
                      i: nat, k: nat, alpha: real)
    requires |rounds| == |order| && forall k :: 0 <= k < |order| ==> order[k] < |pool|
    requires PoolSeparated(pool, metric, dist, order, rounds) && i < k < |order| && order[i] < order[k]
    requires rounds[k] <= alpha && !metric.InnerProduct? && Measurable(metric, dist, pool)
    ensures var c, t := pool[order[i]], pool[order[k]];
            WithinFactor(t.distance, alpha, dist(t.id, c.id))
  {
    var c, t := pool[order[i]], pool[order[k]];
    assert !Occludes(metric, dist, c.id, t.id, t.distance, rounds[k]);
    AtAlpha(t.distance, dist(t.id, c.id), rounds[k], alpha);
  }

  lemma NoneCovers(pool: seq<Neighbor>, metric: Metric, dist: PairDistance, a: real)
    requires pool != []
    ensures !PoolCovered(pool, metric, dist, [], a)
  {
    assert !CoveredAt(pool, metric, dist, [], 0, a);
  }

  // ---- by id ----

  ghost function Ahead(d: Distance, s: set<nat>, x: nat): set<nat> {
    set y | y in s && Before(d, y, x)
  }

  // The k closest members of s.
  ghost function Foremost(d: Distance, s: set<nat>, k: nat): set<nat> {
    set x | x in s && |Ahead(d, s, x)| < k
  }

  ghost predicate IsLeast(d: Distance, s: set<nat>, x: nat) {
    x in s && forall y :: y in s ==> y == x || Before(d, x, y)
  }

  /** list is what α-pruning leaves of the candidates s, at distances d from the location: the same said of ids, the
      candidates being the maxc closest. */
  ghost predicate AlphaPruned(p: Params, s: set<nat>, location: nat, removed: set<nat>, d: Distance, list: seq<nat>) {
    exists considered, rounds, a :: AlphaPrunedBy(p, s, location, removed, d, list, considered, rounds, a)
  }

  ghost predicate AlphaPrunedBy(p: Params, s: set<nat>, location: nat, removed: set<nat>, d: Distance, list: seq<nat>,
                                considered: seq<nat>, rounds: seq<real>, a: real)
  {
    && |rounds| == |considered| && Distinct(considered) && Elems(considered) <= Foremost(d, s, p.maxc)
    && (forall k :: 0 <= k < |rounds| ==> 1.0 <= rounds[k] <= p.alpha)
    && list == Without(considered, removed + {location})
    && |list| <= p.range
    && (p.alpha >= 1.0 && p.range > 0 && p.maxc > 0 && s != {} ==> considered != [] && IsLeast(d, s, considered[0]))
    && IdsSeparated(p, d, considered, rounds)
    && (p.alpha >= 1.0 && |list| < p.range ==>
          && 1.0 <= a <= p.alpha < a * 1.2
          && forall t :: t in Foremost(d, s, p.maxc) && t !in considered ==> CoveredBy(p, d, considered, t, a))
  }

  // A closer considered candidate occludes t.
  ghost predicate CoveredBy(p: Params, d: Distance, considered: seq<nat>, t: nat, a: real) {
    exists c :: c in considered && Before(d, c, t) && Occludes(p.metric, p.dist, c, t, d(t), a)
  }

  // A later entry that is farther away is at most alpha times as far from the location as from the earlier one.
  ghost predicate Spread(list: seq<nat>, d: Distance, dist: PairDistance, alpha: real) {
    forall i, k :: 0 <= i < k < |list| && Before(d, list[i], list[k]) ==>
      WithinFactor(d(list[k]), alpha, dist(list[k], list[i]))
  }

  // No candidate considered earlier, and closer, occludes one considered later.
  ghost predicate IdsSeparated(p: Params, d: Distance, considered: seq<nat>, rounds: seq<real>)
    requires |rounds| == |considered|
  {
    forall i, k :: 0 <= i < k < |considered| && Before(d, considered[i], considered[k])
                   && (p.metric.InnerProduct? ==> rounds[i] == rounds[k])
      ==> !Occludes(p.metric, p.dist, considered[i], considered[k], d(considered[k]), rounds[k])
  }

  lemma SpreadById(p: Params, d: Distance, considered: seq<nat>, rounds: seq<real>, out: set<nat>)
    requires |rounds| == |considered| && IdsSeparated(p, d, considered, rounds)
    requires (forall k :: 0 <= k < |rounds| ==> rounds[k] <= p.alpha) && !p.metric.InnerProduct? && p.Metrized()
    ensures Spread(Without(considered, out), d, p.dist, p.alpha)
  {
    var list := Without(considered, out);
    forall i, k | 0 <= i < k < |list| && Before(d, list[i], list[k])
      ensures WithinFactor(d(list[k]), p.alpha, p.dist(list[k], list[i]))
    {
      var u, v := WithoutOrder(considered, out, i, k);
      SeparatedIdPair(p, d, considered, rounds, u, v);
    }
  }

  lemma SeparatedIdPair(p: Params, d: Distance, considered: seq<nat>, rounds: seq<real>, u: nat, v: nat)
    requires |rounds| == |considered| && IdsSeparated(p, d, considered, rounds) && u < v < |considered|
    requires rounds[v] <= p.alpha && !p.metric.InnerProduct? && p.Metrized() && Before(d, considered[u], considered[v])
    ensures WithinFactor(d(considered[v]), p.alpha, p.dist(considered[v], considered[u]))
  {
    assert !Occludes(p.metric, p.dist, considered[u], considered[v], d(considered[v]), rounds[v]);
    AtAlpha(d(considered[v]), p.dist(considered[v], considered[u]), rounds[v], p.alpha);
  }

  /** What follows for the list itself. */
  lemma PrunedList(p: Params, s: set<nat>, location: nat, removed: set<nat>, d: Distance, list: seq<nat>)
    requires AlphaPruned(p, s, location, removed, d, list) && p.Metrized()
    ensures Distinct(list) && |list| <= p.range
    ensures forall x :: x in list ==> x in s && x != location && x !in removed
    ensures !p.metric.InnerProduct? ==> Spread(list, d, p.dist, p.alpha)
    ensures p.alpha >= 1.0 && p.range > 0 && p.maxc > 0 ==>
              forall x :: IsLeast(d, s, x) && x != location && x !in removed ==> x in list
  {
    var considered: seq<nat>, rounds: seq<real>, a: real :|
      AlphaPrunedBy(p, s, location, removed, d, list, considered, rounds, a);
    WithoutDistinct(considered, removed + {location});
    forall x | x in list ensures x in s {
      assert x in Elems(considered);
    }
    if !p.metric.InnerProduct? {
      SpreadById(p, d, considered, rounds, removed + {location});
    }
    forall x | p.alpha >= 1.0 && p.range > 0 && p.maxc > 0 && IsLeast(d, s, x) && x != location && x !in removed
      ensures x in list
    {
      assert x == considered[0] && considered[0] in considered;
    }
  }

  /** The saturation: with alpha above 1 the list is filled up, closest candidates first. */
  ghost predicate ToppedUp(p: Params, saturate: bool, s: set<nat>, location: nat, d: Distance, base: seq<nat>,
                           list: seq<nat>)
  {
    if saturate && p.alpha > 1.0 then
      && base <= list && Distinct(list) && |list| <= p.range
      && Ranked(d, list[|base|..])
      && (forall x :: x in list && x !in base ==>
            && x in Foremost(d, s, p.maxc) && x != location
            && forall y :: y in Foremost(d, s, p.maxc) && y != location && Before(d, y, x) ==> y in list)
      && (|list| < p.range ==> forall x :: x in Foremost(d, s, p.maxc) && x != location ==> x in list)
    else list == base
  }

  ghost predicate ChosenFrom(p: Params, saturate: bool, s: set<nat>, location: nat, d: Distance, list: seq<nat>) {
    exists base :: AlphaPruned(p, s, location, {}, d, base) && ToppedUp(p, saturate, s, location, d, base, list)
  }

  lemma ChosenList(p: Params, saturate: bool, s: set<nat>, location: nat, d: Distance, list: seq<nat>)
    requires ChosenFrom(p, saturate, s, location, d, list) && p.Metrized()
    ensures Distinct(list) && |list| <= p.range
    ensures !p.metric.InnerProduct? && (!saturate || p.alpha <= 1.0) ==> Spread(list, d, p.dist, p.alpha)
    ensures p.alpha >= 1.0 && p.range > 0 && p.maxc > 0 ==>
              forall x :: IsLeast(d, s, x) && x != location ==> x in list
  {
    var base: seq<nat> :| AlphaPruned(p, s, location, {}, d, base) && ToppedUp(p, saturate, s, location, d, base, list);
    PrunedList(p, s, location, {}, d, base);
    assert forall x :: x in base ==> x in list;
  }

  // ---- from positions to ids ----

  // Position i of a ranked listing has i members ahead of it.
  lemma AheadOf(d: Distance, ids: seq<nat>, i: nat)
    requires Ranked(d, ids) && i < |ids|
    ensures |Ahead(d, Elems(ids), ids[i])| == i
  {
    var before := ids[..i];
    assert Ahead(d, Elems(ids), ids[i]) == Elems(before) by {
      forall y | y in Ahead(d, Elems(ids), ids[i]) ensures y in before {
        var k :| 0 <= k < |ids| && ids[k] == y;
        assert k < i;
        assert before[k] == y;
      }
    }
    DistinctCard(before);
  }

  lemma ForemostAt(d: Distance, ids: seq<nat>, k: nat)
    requires Ranked(d, ids)
    ensures forall i :: 0 <= i < |ids| ==> (ids[i] in Foremost(d, Elems(ids), k) <==> i < k)
  {
    forall i | 0 <= i < |ids| ensures ids[i] in Foremost(d, Elems(ids), k) <==> i < k {
      AheadOf(d, ids, i);
    }
  }

  // A ranked pool of s cut to the maxc closest, pruned by position, is pruned by id.
  lemma PoolPrunedIds(p: Params, location: nat, full: seq<Neighbor>, pool: seq<Neighbor>, s: set<nat>, d: Distance,
                      removed: set<nat>, list: seq<nat>, order: seq<nat>, rounds: seq<real>, a: real)
    requires Elems(Ids(full)) == s && Ranked(d, Ids(full))
    requires forall i :: 0 <= i < |full| ==> full[i].distance == d(full[i].id)
    requires |pool| == (if |full| > p.maxc then p.maxc else |full|) && pool == full[..|pool|]
    requires PoolPruned(location, pool, removed, p.range, p.alpha, p.metric, p.dist, list, order, rounds, a)
    ensures AlphaPruned(p, s, location, removed, d, list)
  {
    var considered := IdsAt(pool, order);
    ForemostAt(d, Ids(full), p.maxc);
    ConsideredIds(p, full, pool, s, d, order);
    FirstIsLeast(d, Ids(full), s);
    SeparatedIds(p, full, pool, d, order, rounds);
    if p.alpha >= 1.0 && |list| < p.range {
      forall t | t in Foremost(d, s, p.maxc) && t !in considered ensures CoveredBy(p, d, considered, t, a) {
        CoveredId(p, full, pool, s, d, order, t, a);
      }
    }
    assert AlphaPrunedBy(p, s, location, removed, d, list, considered, rounds, a);
  }

  lemma FirstIsLeast(d: Distance, ids: seq<nat>, s: set<nat>)
    requires Ranked(d, ids) && Elems(ids) == s
    ensures s == {} <==> ids == []
    ensures ids != [] ==> IsLeast(d, s, ids[0])
  {
    if ids != [] {
      assert ids[0] in Elems(ids);
      forall y | y in s ensures y == ids[0] || Before(d, ids[0], y) {
        var k :| 0 <= k < |ids| && ids[k] == y;
      }
    }
  }

  lemma ConsideredIds(p: Params, full: seq<Neighbor>, pool: seq<Neighbor>, s: set<nat>, d: Distance, order: seq<nat>)
    requires Elems(Ids(full)) == s && Ranked(d, Ids(full))
    requires |pool| == (if |full| > p.maxc then p.maxc else |full|) && pool == full[..|pool|]
    requires Distinct(order) && forall k :: 0 <= k < |order| ==> order[k] < |pool|
    ensures Distinct(IdsAt(pool, order)) && Elems(IdsAt(pool, order)) <= Foremost(d, s, p.maxc)
    ensures forall k :: 0 <= k < |order| ==> IdsAt(pool, order)[k] == Ids(full)[order[k]]
  {
    ForemostAt(d, Ids(full), p.maxc);
    var considered := IdsAt(pool, order);
    assert forall k :: 0 <= k < |order| ==> considered[k] == Ids(full)[order[k]];
    forall i, k | 0 <= i < k < |order| ensures considered[i] != considered[k] {
      assert order[i] != order[k];
      assert order[i] < order[k] ==> Before(d, Ids(full)[order[i]], Ids(full)[order[k]]);
      assert order[k] < order[i] ==> Before(d, Ids(full)[order[k]], Ids(full)[order[i]]);
    }
    forall x | x in Elems(considered) ensures x in Foremost(d, s, p.maxc) {
      var k :| 0 <= k < |order| && considered[k] == x;
      assert Ids(full)[order[k]] in Foremost(d, s, p.maxc);
    }
  }

  // Ranked positions and ids agree on who is closer.
  lemma BeforeIsEarlier(d: Distance, ids: seq<nat>, i: nat, k: nat)
    requires Ranked(d, ids) && i < |ids| && k < |ids|
    ensures Before(d, ids[i], ids[k]) <==> i < k
  {
  }

  lemma SeparatedIds(p: Params, full: seq<Neighbor>, pool: seq<Neighbor>, d: Distance, order: seq<nat>,
                     rounds: seq<real>)
    requires Ranked(d, Ids(full)) && |pool| <= |full| && pool == full[..|pool|] && |rounds| == |order|
    requires forall i :: 0 <= i < |full| ==> full[i].distance == d(full[i].id)
    requires forall k :: 0 <= k < |order| ==> order[k] < |pool|
    requires PoolSeparated(pool, p.metric, p.dist, order, rounds)
    ensures IdsSeparated(p, d, IdsAt(pool, order), rounds)
  {
    var considered := IdsAt(pool, order);
    forall i, k | 0 <= i < k < |considered| && Before(d, considered[i], considered[k])
                  && (p.metric.InnerProduct? ==> rounds[i] == rounds[k])
      ensures !Occludes(p.metric, p.dist, considered[i], considered[k], d(considered[k]), rounds[k])
    {
      assert considered[i] == Ids(full)[order[i]] && considered[k] == Ids(full)[order[k]];
      assert considered[i] == pool[order[i]].id && considered[k] == pool[order[k]].id;
      BeforeIsEarlier(d, Ids(full), order[i], order[k]);
      assert pool[order[k]].distance == d(considered[k]);
    }
  }

  lemma CoveredId(p: Params, full: seq<Neighbor>, pool: seq<Neighbor>, s: set<nat>, d: Distance, order: seq<nat>,
                  t: nat, a: real)
    requires Elems(Ids(full)) == s && Ranked(d, Ids(full))
    requires forall i :: 0 <= i < |full| ==> full[i].distance == d(full[i].id)
    requires |pool| == (if |full| > p.maxc then p.maxc else |full|) && pool == full[..|pool|]
    requires forall k :: 0 <= k < |order| ==> order[k] < |pool|
    requires PoolCovered(pool, p.metric, p.dist, order, a)
    requires t in Foremost(d, s, p.maxc) && t !in IdsAt(pool, order)
    ensures CoveredBy(p, d, IdsAt(pool, order), t, a)
  {
    ForemostAt(d, Ids(full), p.maxc);
    assert t in Elems(Ids(full));
    var i :| 0 <= i < |full| && Ids(full)[i] == t;
    assert i < |pool| && pool[i].id == t;
    assert forall k :: 0 <= k < |order| ==> IdsAt(pool, order)[k] != t;
    assert i !in order;
    assert CoveredAt(pool, p.metric, p.dist, order, i, a);
    var c :| c in order && c < i && Occludes(p.metric, p.dist, pool[c].id, pool[i].id, pool[i].distance, a);
    var k :| 0 <= k < |order| && order[k] == c;
    assert IdsAt(pool, order)[k] == pool[c].id == Ids(full)[c];
    BeforeIsEarlier(d, Ids(full), c, i);
  }
}
