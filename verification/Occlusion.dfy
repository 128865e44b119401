/** Robust pruning (occlude_list, src/index.cpp) on an unfiltered pool, in exact arithmetic. */
module Occlusion {
  import opened NeighborOrder
  import opened RobustPrune

  // Max stands for numeric_limits<float>::max(): above every threshold.
  datatype Factor = Finite(v: real) | Max {
    predicate Exceeds(a: real) {
      Max? || v > a
    }

    function AtLeast(x: real): Factor {
      if Max? || v >= x then this else Finite(x)
    }
  }

  // The arguments that stay fixed during one call. Candidates are named by their position in the pool.
  datatype Job = Job(location: nat, pool: seq<Neighbor>, alpha: real, degree: nat, metric: Metric, dist: PairDistance,
                     deleted: set<nat>)
  {
    ghost predicate Metrized() {
      Measurable(metric, dist, pool)
    }

    // Distance between two candidates, as the code asks for it.
    function Gap(c: nat, t: nat): real
      requires c < |pool| && t < |pool|
    {
      dist(pool[t].id, pool[c].id)
    }

    // Candidate c occludes candidate t at threshold a.
    ghost predicate Occludes(c: nat, t: nat, a: real)
      requires c < |pool| && t < |pool|
    {
      if metric.InnerProduct? then -Gap(c, t) > a * -pool[t].distance
      else Gap(c, t) == 0.0 || pool[t].distance > a * Gap(c, t)
    }

    // The factor of t after c, closer to location, was considered at threshold curAlpha.
    function Occlude(f: Factor, c: nat, t: nat, curAlpha: real): Factor
      requires c < |pool| && t < |pool|
    {
      if f.Exceeds(alpha) then f
      else if metric.InnerProduct? then
        if -Gap(c, t) > curAlpha * -pool[t].distance then f.AtLeast(curAlpha + 0.01) else f
      else if Gap(c, t) == 0.0 then Max
      else f.AtLeast(pool[t].distance / Gap(c, t))
    }

    function Keep(i: nat, result: seq<nat>): seq<nat>
      requires i < |pool|
    {
      if pool[i].id in deleted || pool[i].id == location then result else result + [pool[i].id]
    }
  }

  // What the loops update: the factors and the ids kept so far.
  datatype State = State(factor: seq<Factor>, result: seq<nat>)

  /** The loops as functions, so that the list kept is determined by the arguments. */
  function Considered(j: Job, factor: seq<Factor>, i: nat, curAlpha: real): (r: seq<Factor>)
    requires i < |j.pool| == |factor|
    ensures |r| == |j.pool|
  {
    seq(|j.pool|, t requires 0 <= t < |j.pool| =>
      if t < i then factor[t] else if t == i then Max else j.Occlude(factor[t], i, t, curAlpha))
  }

  function PassStep(j: Job, s: State, i: nat, curAlpha: real): (r: State)
    requires i < |j.pool| == |s.factor|
    ensures |r.factor| == |j.pool|
  {
    if |s.result| >= j.degree || s.factor[i].Exceeds(curAlpha) then s
    else State(Considered(j, s.factor, i, curAlpha), j.Keep(i, s.result))
  }

  function Pass(j: Job, s: State, i: nat, curAlpha: real): (r: State)
    requires i <= |j.pool| == |s.factor|
    ensures |r.factor| == |j.pool|
    decreases |j.pool| - i
  {
    if i == |j.pool| then s else Pass(j, PassStep(j, s, i, curAlpha), i + 1, curAlpha)
  }

  function Rounds(j: Job, s: State, curAlpha: real): State
    requires |s.factor| == |j.pool| && curAlpha >= 1.0
    decreases (j.alpha - curAlpha) * 5.0
  {
    if curAlpha <= j.alpha && |s.result| < j.degree then Rounds(j, Pass(j, s, 0, curAlpha), curAlpha * 1.2) else s
  }

  function Zeros(n: nat): (r: seq<Factor>)
    ensures |r| == n && forall t :: 0 <= t < n ==> r[t] == Finite(0.0)
  {
    seq(n, _ => Finite(0.0))
  }

  function Truncated(pool: seq<Neighbor>, maxc: nat): seq<Neighbor> {
    if |pool| > maxc then pool[..maxc] else pool
  }

  function OccludedList(j: Job): seq<nat> {
    Rounds(j, State(Zeros(|j.pool|), []), 1.0).result
  }

  // ---- what the trace of a run means ----

  /** `order` lists the positions considered, oldest first, and rounds[k] is the value of cur_alpha when
      order[k] was considered; position 0 first, each at most once, at a threshold within [1, curAlpha]. */
  ghost predicate IsTrace(n: nat, order: seq<nat>, rounds: seq<real>, curAlpha: real) {
    && |rounds| == |order|
    && Distinct(order)
    && (order != [] ==> order[0] == 0)
    && (forall k :: 0 <= k < |order| ==> order[k] < n && 1.0 <= rounds[k] <= curAlpha)
  }

  ghost predicate InPool(j: Job, order: seq<nat>) {
    forall k :: 0 <= k < |order| ==> order[k] < |j.pool|
  }

  // The ids kept: those considered, in order, without the deleted ones and `location`.
  function Kept(j: Job, order: seq<nat>): (r: seq<nat>)
    requires InPool(j, order)
    ensures forall x :: x in r ==>
              && x != j.location && x !in j.deleted
              && exists k :: 0 <= k < |order| && j.pool[order[k]].id == x
  {
    if order == [] then []
    else
      var n := |order| - 1;
      assert forall k :: 0 <= k < n ==> order[..n][k] == order[k];
      j.Keep(order[n], Kept(j, order[..n]))
  }

  // Separation: a candidate considered earlier, and closer, does not occlude one considered later at the
  // later one's threshold. For inner products the factors restart, so this binds within a round only.
  ghost predicate Separated(j: Job, order: seq<nat>, rounds: seq<real>)
    requires |rounds| == |order| && InPool(j, order)
  {
    forall a, b :: 0 <= a < b < |order| && order[a] < order[b] && (j.metric.InnerProduct? ==> rounds[a] == rounds[b])
      ==> !j.Occludes(order[a], order[b], rounds[b])
  }

  // Coverage: a candidate never considered is occluded, at the last threshold, by a closer considered one.
  ghost predicate AllCovered(j: Job, order: seq<nat>, a: real) {
    forall t :: 0 <= t < |j.pool| && t !in order ==> Covered(j, order, t, a)
  }

  ghost predicate Covered(j: Job, order: seq<nat>, t: nat, a: real)
    requires t < |j.pool|
  {
    exists c :: c in order && c < t && j.Occludes(c, t, a)
  }

  // The guarantee of occlude_list, with a the last threshold used, never above alpha: with room left, no further round
  // fits within alpha.
  ghost predicate PruneOutcome(j: Job, result: seq<nat>, order: seq<nat>, rounds: seq<real>, a: real) {
    && IsTrace(|j.pool|, order, rounds, a)
    && result == Kept(j, order)
    && |result| <= j.degree
    && Separated(j, order, rounds)
    && (order != [] ==> a <= j.alpha)
    && (j.alpha >= 1.0 && |result| < j.degree ==> 1.0 <= a <= j.alpha < a * 1.2 && AllCovered(j, order, a))
  }

  // ---- the meaning of the factors ----

  ghost function Ratio(j: Job, c: nat, t: nat): real
    requires c < |j.pool| && t < |j.pool|
  {
    if j.Gap(c, t) == 0.0 then 0.0 else j.pool[t].distance / j.Gap(c, t)
  }

  lemma RatioMeaning(j: Job, c: nat, t: nat, a: real)
    requires c < |j.pool| && t < |j.pool| && j.Gap(c, t) > 0.0
    ensures Ratio(j, c, t) <= a <==> j.pool[t].distance <= a * j.Gap(c, t)
  {
    var g, r := j.Gap(c, t), Ratio(j, c, t);
    assert r * g == j.pool[t].distance;
    if r <= a { Scale(r, a, g); }
    if a < r { ScaleStrict(a, r, g); }
  }

  lemma Scale(x: real, y: real, g: real)
    requires x <= y && 0.0 <= g
    ensures x * g <= y * g
  {
  }

  lemma ScaleStrict(x: real, y: real, g: real)
    requires x < y && 0.0 < g
    ensures x * g < y * g
  {
  }

  /** While threshold curAlpha is in force, for a position t not considered: if its factor does not exceed the
      threshold then no relevant closer position occludes it, and if it does then some closer one does. */
  ghost predicate Justified(j: Job, f: Factor, order: seq<nat>, rounds: seq<real>, t: nat, curAlpha: real)
    requires t < |j.pool| && |rounds| == |order| && InPool(j, order)
  {
    if j.metric.InnerProduct? then JustifiedIp(j, f, order, rounds, t, curAlpha) else JustifiedL2(j, f, order, t)
  }

  ghost predicate JustifiedL2(j: Job, f: Factor, order: seq<nat>, t: nat)
    requires t < |j.pool| && InPool(j, order)
  {
    && (f.Finite? ==> f.v >= 0.0)
    && (!f.Exceeds(j.alpha) ==> forall k :: 0 <= k < |order| && order[k] < t ==>
          j.Gap(order[k], t) > 0.0 && Ratio(j, order[k], t) <= f.v)
    && (f.Max? ==> exists k :: 0 <= k < |order| && order[k] < t && j.Gap(order[k], t) == 0.0)
    && (f.Finite? && f.v > 0.0 ==>
          exists k :: 0 <= k < |order| && order[k] < t && j.Gap(order[k], t) > 0.0 && Ratio(j, order[k], t) == f.v)
  }

  ghost predicate JustifiedIp(j: Job, f: Factor, order: seq<nat>, rounds: seq<real>, t: nat, curAlpha: real)
    requires t < |j.pool| && |rounds| == |order| && InPool(j, order)
  {
    && f.Finite? && f.v <= curAlpha + 0.01
    && (!f.Exceeds(curAlpha) ==> forall k :: 0 <= k < |order| && order[k] < t && rounds[k] == curAlpha ==>
          !j.Occludes(order[k], t, curAlpha))
    && (f.Exceeds(curAlpha) ==>
          exists k :: 0 <= k < |order| && order[k] < t && rounds[k] == curAlpha && j.Occludes(order[k], t, curAlpha))
  }

  // The part that does not depend on how far the pass has come.
  ghost predicate Tracing(j: Job, s: State, curAlpha: real, order: seq<nat>, rounds: seq<real>) {
    && |s.factor| == |j.pool|
    && IsTrace(|j.pool|, order, rounds, curAlpha)
    && Separated(j, order, rounds)
    && (forall k :: 0 <= k < |order| ==> s.factor[order[k]].Max?)
    && (forall t :: 0 <= t < |j.pool| && t !in order ==> Justified(j, s.factor[t], order, rounds, t, curAlpha))
    && s.result == Kept(j, order)
    && |s.result| <= j.degree
  }

  // Everything before i was decided, unless the list is full.
  ghost predicate Decided(j: Job, s: State, i: nat, curAlpha: real, order: seq<nat>) {
    |s.result| < j.degree ==> forall t :: 0 <= t < i && t < |s.factor| && t !in order ==> s.factor[t].Exceeds(curAlpha)
  }

  // During a pass that has reached position i.
  ghost predicate InPass(j: Job, s: State, i: nat, curAlpha: real, order: seq<nat>, rounds: seq<real>) {
    Tracing(j, s, curAlpha, order, rounds) && Decided(j, s, i, curAlpha, order)
  }

  // Considering position i keeps the meaning of the factor of another position.
  lemma ConsiderJustified(j: Job, f: Factor, order: seq<nat>, rounds: seq<real>, i: nat, t: nat, curAlpha: real)
    requires i < |j.pool| && t < |j.pool| && t != i && |rounds| == |order| && InPool(j, order) && j.Metrized()
    requires Justified(j, f, order, rounds, t, curAlpha) && curAlpha <= j.alpha
    ensures InPool(j, order + [i])
    ensures var f' := if t < i then f else j.Occlude(f, i, t, curAlpha);
            Justified(j, f', order + [i], rounds + [curAlpha], t, curAlpha)
  {
    var order', rounds' := order + [i], rounds + [curAlpha];
    assert order'[|order|] == i && rounds'[|order|] == curAlpha;
    assert forall k :: 0 <= k < |order| ==> order'[k] == order[k] && rounds'[k] == rounds[k];
    if j.metric.InnerProduct? {
      ConsiderIp(j, f, order, rounds, i, t, curAlpha);
    } else {
      ConsiderL2(j, f, order, i, t, curAlpha);
    }
  }

  lemma ConsiderL2(j: Job, f: Factor, order: seq<nat>, i: nat, t: nat, curAlpha: real)
    requires i < |j.pool| && t < |j.pool| && t != i && InPool(j, order) && j.Metrized() && !j.metric.InnerProduct?
    requires JustifiedL2(j, f, order, t)
    ensures InPool(j, order + [i])
    ensures JustifiedL2(j, if t < i then f else j.Occlude(f, i, t, curAlpha), order + [i], t)
  {
    var order' := order + [i];
    assert order'[|order|] == i && forall k :: 0 <= k < |order| ==> order'[k] == order[k];
  }

  lemma ConsiderIp(j: Job, f: Factor, order: seq<nat>, rounds: seq<real>, i: nat, t: nat, curAlpha: real)
    requires i < |j.pool| && t < |j.pool| && t != i && |rounds| == |order| && InPool(j, order) && j.metric.InnerProduct?
    requires JustifiedIp(j, f, order, rounds, t, curAlpha) && curAlpha <= j.alpha
    ensures InPool(j, order + [i])
    ensures var f' := if t < i then f else j.Occlude(f, i, t, curAlpha);
            JustifiedIp(j, f', order + [i], rounds + [curAlpha], t, curAlpha)
  {
    var order', rounds' := order + [i], rounds + [curAlpha];
    assert order'[|order|] == i && rounds'[|order|] == curAlpha;
    assert forall k :: 0 <= k < |order| ==> order'[k] == order[k] && rounds'[k] == rounds[k];
  }

  // A factor within the threshold: no relevant considered position occludes i.
  lemma NotOccluded(j: Job, f: Factor, order: seq<nat>, rounds: seq<real>, i: nat, curAlpha: real)
    requires i < |j.pool| && |rounds| == |order| && InPool(j, order) && curAlpha <= j.alpha
    requires Justified(j, f, order, rounds, i, curAlpha) && !f.Exceeds(curAlpha)
    ensures forall k :: 0 <= k < |order| && order[k] < i && (j.metric.InnerProduct? ==> rounds[k] == curAlpha) ==>
              !j.Occludes(order[k], i, curAlpha)
  {
    if !j.metric.InnerProduct? {
      forall k | 0 <= k < |order| && order[k] < i ensures !j.Occludes(order[k], i, curAlpha) {
        RatioMeaning(j, order[k], i, curAlpha);
      }
    }
  }

  lemma PickSeparated(j: Job, f: Factor, order: seq<nat>, rounds: seq<real>, i: nat, curAlpha: real)
    requires IsTrace(|j.pool|, order, rounds, curAlpha) && 1.0 <= curAlpha <= j.alpha && Separated(j, order, rounds)
    requires i < |j.pool| && i !in order && Justified(j, f, order, rounds, i, curAlpha) && !f.Exceeds(curAlpha)
    requires order == [] ==> i == 0
    ensures IsTrace(|j.pool|, order + [i], rounds + [curAlpha], curAlpha)
    ensures Separated(j, order + [i], rounds + [curAlpha])
  {
    var order', rounds' := order + [i], rounds + [curAlpha];
    assert order'[|order|] == i && rounds'[|order|] == curAlpha;
    assert forall k :: 0 <= k < |order| ==> order'[k] == order[k] && rounds'[k] == rounds[k];
    NotOccluded(j, f, order, rounds, i, curAlpha);
  }

  // A factor above the threshold names an occluder.
  lemma ExceedsCovered(j: Job, f: Factor, order: seq<nat>, rounds: seq<real>, t: nat, curAlpha: real)
    requires t < |j.pool| && |rounds| == |order| && InPool(j, order) && 1.0 <= curAlpha <= j.alpha
    requires Justified(j, f, order, rounds, t, curAlpha) && f.Exceeds(curAlpha)
    ensures Covered(j, order, t, curAlpha)
  {
    if j.metric.InnerProduct? {
      var k :| 0 <= k < |order| && order[k] < t && j.Occludes(order[k], t, curAlpha);
      assert order[k] in order;
    } else if f.Max? {
      var k :| 0 <= k < |order| && order[k] < t && j.Gap(order[k], t) == 0.0;
      assert order[k] in order && j.Occludes(order[k], t, curAlpha);
    } else {
      var k :| 0 <= k < |order| && order[k] < t && j.Gap(order[k], t) > 0.0 && Ratio(j, order[k], t) == f.v;
      RatioMeaning(j, order[k], t, curAlpha);
      assert order[k] in order && j.Occludes(order[k], t, curAlpha);
    }
  }

  lemma KeptStep(j: Job, order: seq<nat>, i: nat)
    requires InPool(j, order) && i < |j.pool|
    ensures InPool(j, order + [i]) && Kept(j, order + [i]) == j.Keep(i, Kept(j, order))
  {
    assert (order + [i])[..|order|] == order;
  }

  // ---- one position, one pass, all rounds ----

  ghost predicate PassTraced(j: Job, s: State, i: nat, curAlpha: real) {
    exists order, rounds :: InPass(j, s, i, curAlpha, order, rounds)
  }

  lemma StepTraced(j: Job, s: State, i: nat, curAlpha: real)
    requires PassTraced(j, s, i, curAlpha) && i < |j.pool| == |s.factor|
    requires 1.0 <= curAlpha <= j.alpha && j.Metrized()
    ensures PassTraced(j, PassStep(j, s, i, curAlpha), i + 1, curAlpha)
  {
    var order, rounds :| InPass(j, s, i, curAlpha, order, rounds);
    order, rounds := StepInPass(j, s, i, curAlpha, order, rounds);
  }

  lemma StepInPass(j: Job, s: State, i: nat, curAlpha: real, order: seq<nat>, rounds: seq<real>)
    returns (order': seq<nat>, rounds': seq<real>)
    requires InPass(j, s, i, curAlpha, order, rounds) && i < |j.pool| == |s.factor|
    requires 1.0 <= curAlpha <= j.alpha && j.Metrized()
    ensures InPass(j, PassStep(j, s, i, curAlpha), i + 1, curAlpha, order', rounds')
  {
    if |s.result| >= j.degree || s.factor[i].Exceeds(curAlpha) {
      order', rounds' := order, rounds;
      SkipDecided(j, s, i, curAlpha, order);
    } else {
      order', rounds' := order + [i], rounds + [curAlpha];
      PickInPass(j, s, i, curAlpha, order, rounds);
    }
  }

  lemma SkipDecided(j: Job, s: State, i: nat, curAlpha: real, order: seq<nat>)
    requires Decided(j, s, i, curAlpha, order) && i < |s.factor|
    requires |s.result| >= j.degree || s.factor[i].Exceeds(curAlpha)
    ensures Decided(j, s, i + 1, curAlpha, order)
  {
  }

  lemma PickInPass(j: Job, s: State, i: nat, curAlpha: real, order: seq<nat>, rounds: seq<real>)
    requires InPass(j, s, i, curAlpha, order, rounds) && i < |j.pool| && 1.0 <= curAlpha <= j.alpha && j.Metrized()
    requires |s.result| < j.degree && !s.factor[i].Exceeds(curAlpha)
    ensures InPass(j, State(Considered(j, s.factor, i, curAlpha), j.Keep(i, s.result)), i + 1, curAlpha,
                   order + [i], rounds + [curAlpha])
  {
    KeptStep(j, order, i);
    assert i !in order;
    FirstPick(j, s, i, curAlpha, order, rounds);
    PickSeparated(j, s.factor[i], order, rounds, i, curAlpha);
    PickFactors(j, s.factor, order, rounds, i, curAlpha);
    PickDecided(j, s, i, curAlpha, order);
    assert forall k :: 0 <= k < |order| + 1 ==> (order + [i])[k] == if k < |order| then order[k] else i;
  }

  // Nothing keeps position 0 from being considered first.
  lemma FirstPick(j: Job, s: State, i: nat, curAlpha: real, order: seq<nat>, rounds: seq<real>)
    requires InPass(j, s, i, curAlpha, order, rounds) && i < |j.pool| && 1.0 <= curAlpha && |s.result| < j.degree
    ensures order == [] ==> i == 0
  {
    if order == [] {
      assert rounds == [];
      FirstFactor(j, s.factor[0], curAlpha);
    }
  }

  lemma FirstFactor(j: Job, f: Factor, curAlpha: real)
    requires j.pool != [] && Justified(j, f, [], [], 0, curAlpha) && 1.0 <= curAlpha
    ensures !f.Exceeds(curAlpha)
  {
  }

  lemma PickDecided(j: Job, s: State, i: nat, curAlpha: real, order: seq<nat>)
    requires Decided(j, s, i, curAlpha, order) && i < |j.pool| == |s.factor| && |s.result| < j.degree
    ensures Decided(j, State(Considered(j, s.factor, i, curAlpha), j.Keep(i, s.result)), i + 1, curAlpha, order + [i])
  {
    var after := Considered(j, s.factor, i, curAlpha);
    forall t | 0 <= t < i + 1 && t !in order + [i] ensures after[t].Exceeds(curAlpha) {
      assert (order + [i])[|order|] == i;
      assert t !in order && t < i && after[t] == s.factor[t];
    }
  }

  lemma PickFactors(j: Job, factor: seq<Factor>, order: seq<nat>, rounds: seq<real>, i: nat, curAlpha: real)
    requires |factor| == |j.pool| && i < |j.pool| && |rounds| == |order| && InPool(j, order) && InPool(j, order + [i])
    requires curAlpha <= j.alpha && j.Metrized()
    requires forall t :: 0 <= t < |j.pool| && t !in order ==> Justified(j, factor[t], order, rounds, t, curAlpha)
    ensures forall t :: 0 <= t < |j.pool| && t !in order + [i] ==>
              Justified(j, Considered(j, factor, i, curAlpha)[t], order + [i], rounds + [curAlpha], t, curAlpha)
  {
    var after := Considered(j, factor, i, curAlpha);
    forall t | 0 <= t < |j.pool| && t !in order + [i]
      ensures Justified(j, after[t], order + [i], rounds + [curAlpha], t, curAlpha)
    {
      assert (order + [i])[|order|] == i;
      assert t !in order && t != i;
      ConsiderJustified(j, factor[t], order, rounds, i, t, curAlpha);
    }
  }

  lemma {:induction false} PassInduction(j: Job, s: State, i: nat, curAlpha: real, inv: (State, nat) -> bool)
    requires i <= |j.pool| == |s.factor| && inv(s, i)
    requires forall t: State, k: nat :: k < |j.pool| == |t.factor| && inv(t, k)
                ==> inv(PassStep(j, t, k, curAlpha), k + 1)
    ensures inv(Pass(j, s, i, curAlpha), |j.pool|)
    decreases |j.pool| - i
  {
    if i < |j.pool| {
      PassInduction(j, PassStep(j, s, i, curAlpha), i + 1, curAlpha, inv);
    }
  }

  lemma {:induction false} RoundsInduction(j: Job, s: State, curAlpha: real, inv: (State, real) -> bool)
    returns (last: real)
    requires |s.factor| == |j.pool| && curAlpha >= 1.0 && inv(s, curAlpha)
    requires forall t: State, c: real ::
               |t.factor| == |j.pool| && 1.0 <= c <= j.alpha && |t.result| < j.degree && inv(t, c) ==>
                 inv(Pass(j, t, 0, c), c * 1.2)
    ensures inv(Rounds(j, s, curAlpha), last) && last >= 1.0
    ensures last > j.alpha || |Rounds(j, s, curAlpha).result| >= j.degree
    decreases (j.alpha - curAlpha) * 5.0
  {
    last := curAlpha;
    if curAlpha <= j.alpha && |s.result| < j.degree {
      last := RoundsInduction(j, Pass(j, s, 0, curAlpha), curAlpha * 1.2, inv);
    }
  }

  // Between rounds, before the one at curAlpha: ready for a new pass, and the last round (if any) covered all.
  ghost predicate RoundTraced(j: Job, s: State, curAlpha: real) {
    exists order, rounds, a :: ReadyFor(j, s, curAlpha, order, rounds, a)
  }

  ghost predicate ReadyFor(j: Job, s: State, curAlpha: real, order: seq<nat>, rounds: seq<real>, a: real) {
    && InPass(j, s, 0, curAlpha, order, rounds)
    && IsTrace(|j.pool|, order, rounds, a) && 1.0 <= a && (order != [] ==> a <= j.alpha)
    && (curAlpha != 1.0 ==> a <= j.alpha && curAlpha == a * 1.2 && (|s.result| < j.degree ==> AllCovered(j, order, a)))
  }

  lemma RoundStep(j: Job, s: State, curAlpha: real)
    requires |s.factor| == |j.pool| && 1.0 <= curAlpha <= j.alpha && j.Metrized() && RoundTraced(j, s, curAlpha)
    ensures RoundTraced(j, Pass(j, s, 0, curAlpha), curAlpha * 1.2)
  {
    forall t: State, k: nat | k < |j.pool| == |t.factor| && PassTraced(j, t, k, curAlpha)
      ensures PassTraced(j, PassStep(j, t, k, curAlpha), k + 1, curAlpha)
    {
      StepTraced(j, t, k, curAlpha);
    }
    var order0, rounds0, a0 :| ReadyFor(j, s, curAlpha, order0, rounds0, a0);
    PassInduction(j, s, 0, curAlpha, (t: State, k: nat) => PassTraced(j, t, k, curAlpha));
    EndRound(j, Pass(j, s, 0, curAlpha), curAlpha);
  }

  // The next round: thresholds only grow, and inner-product factors fall below the new one.
  lemma NextInPass(j: Job, s: State, curAlpha: real, order: seq<nat>, rounds: seq<real>)
    requires InPass(j, s, |j.pool|, curAlpha, order, rounds) && 1.0 <= curAlpha
    ensures InPass(j, s, 0, curAlpha * 1.2, order, rounds)
  {
    assert curAlpha + 0.01 <= curAlpha * 1.2;
    assert forall k :: 0 <= k < |order| ==> rounds[k] != curAlpha * 1.2;
  }

  lemma PassCovers(j: Job, s: State, curAlpha: real, order: seq<nat>, rounds: seq<real>)
    requires InPass(j, s, |j.pool|, curAlpha, order, rounds) && 1.0 <= curAlpha <= j.alpha && |s.result| < j.degree
    ensures AllCovered(j, order, curAlpha)
  {
    forall t | 0 <= t < |j.pool| && t !in order ensures Covered(j, order, t, curAlpha) {
      ExceedsCovered(j, s.factor[t], order, rounds, t, curAlpha);
    }
  }

  lemma EndRound(j: Job, s: State, curAlpha: real)
    requires PassTraced(j, s, |j.pool|, curAlpha) && 1.0 <= curAlpha <= j.alpha
    ensures RoundTraced(j, s, curAlpha * 1.2)
  {
    var order, rounds :| InPass(j, s, |j.pool|, curAlpha, order, rounds);
    NextInPass(j, s, curAlpha, order, rounds);
    if |s.result| < j.degree {
      PassCovers(j, s, curAlpha, order, rounds);
    }
    assert ReadyFor(j, s, curAlpha * 1.2, order, rounds, curAlpha);
  }

  /** Soundness and coverage of the list the loops compute. */
  lemma OccludedListOutcome(j: Job) returns (order: seq<nat>, rounds: seq<real>, a: real)
    requires j.Metrized()
    ensures PruneOutcome(j, OccludedList(j), order, rounds, a)
  {
    var s0 := State(Zeros(|j.pool|), []);
    assert ReadyFor(j, s0, 1.0, [], [], 1.0);
    forall t: State, c: real |
      |t.factor| == |j.pool| && 1.0 <= c <= j.alpha && |t.result| < j.degree && RoundTraced(j, t, c)
      ensures RoundTraced(j, Pass(j, t, 0, c), c * 1.2)
    {
      RoundStep(j, t, c);
    }
    var last := RoundsInduction(j, s0, 1.0, (t: State, c: real) => RoundTraced(j, t, c));
    order, rounds, a :| ReadyFor(j, Rounds(j, s0, 1.0), last, order, rounds, a);
  }

  // ---- the same, without the loops' own terms ----

  lemma {:induction false} KeptWithout(j: Job, order: seq<nat>)
    requires InPool(j, order)
    ensures Kept(j, order) == Without(IdsAt(j.pool, order), j.deleted + {j.location})
  {
    if order != [] {
      KeptLast(j, order);
      IdsAtInit(j.pool, order, order[..|order| - 1]);
      KeptWithout(j, order[..|order| - 1]);
      WithoutLast(IdsAt(j.pool, order), j.deleted + {j.location});
    }
  }

  lemma IdsAtInit(pool: seq<Neighbor>, order: seq<nat>, init: seq<nat>)
    requires order != [] && init == order[..|order| - 1] && forall k :: 0 <= k < |order| ==> order[k] < |pool|
    ensures forall k :: 0 <= k < |init| ==> init[k] < |pool|
    ensures IdsAt(pool, order)[..|order| - 1] == IdsAt(pool, init)
    ensures IdsAt(pool, order)[|order| - 1] == pool[order[|order| - 1]].id
  {
    assert forall k :: 0 <= k < |init| ==> init[k] == order[k];
  }

  lemma KeptLast(j: Job, order: seq<nat>)
    requires InPool(j, order) && order != []
    ensures InPool(j, order[..|order| - 1])
    ensures Kept(j, order) == j.Keep(order[|order| - 1], Kept(j, order[..|order| - 1]))
  {
  }

  lemma SameOcclusion(j: Job, c: nat, t: nat, a: real)
    requires c < |j.pool| && t < |j.pool|
    ensures j.Occludes(c, t, a) <==> Occludes(j.metric, j.dist, j.pool[c].id, j.pool[t].id, j.pool[t].distance, a)
  {
  }

  lemma OutcomeSeparated(j: Job, order: seq<nat>, rounds: seq<real>)
    requires |rounds| == |order| && InPool(j, order) && Separated(j, order, rounds)
    ensures PoolSeparated(j.pool, j.metric, j.dist, order, rounds)
  {
    forall i, k | 0 <= i < k < |order| && order[i] < order[k] && (j.metric.InnerProduct? ==> rounds[i] == rounds[k])
      ensures !Occludes(j.metric, j.dist, j.pool[order[i]].id, j.pool[order[k]].id, j.pool[order[k]].distance,
                        rounds[k])
    {
      SameOcclusion(j, order[i], order[k], rounds[k]);
    }
  }

  lemma OutcomeCovered(j: Job, order: seq<nat>, a: real)
    requires InPool(j, order) && AllCovered(j, order, a)
    ensures PoolCovered(j.pool, j.metric, j.dist, order, a)
  {
    forall t | 0 <= t < |j.pool| && t !in order ensures CoveredAt(j.pool, j.metric, j.dist, order, t, a) {
      assert Covered(j, order, t, a);
      var c :| c in order && c < t && j.Occludes(c, t, a);
      SameOcclusion(j, c, t, a);
    }
  }

  lemma OutcomePruned(j: Job, result: seq<nat>, order: seq<nat>, rounds: seq<real>, a: real)
    requires PruneOutcome(j, result, order, rounds, a)
    ensures PoolPruned(j.location, j.pool, j.deleted, j.degree, j.alpha, j.metric, j.dist, result, order, rounds, a)
  {
    KeptWithout(j, order);
    OutcomeSeparated(j, order, rounds);
    if j.alpha >= 1.0 && |result| < j.degree {
      OutcomeCovered(j, order, a);
      if j.pool != [] {
        NoneCovers(j.pool, j.metric, j.dist, a);
      }
    }
  }

  /** The list the loops compute, by position in the pool. */
  lemma OccludedListPruned(j: Job) returns (order: seq<nat>, rounds: seq<real>, a: real)
    requires j.Metrized()
    ensures PoolPruned(j.location, j.pool, j.deleted, j.degree, j.alpha, j.metric, j.dist, OccludedList(j), order,
                       rounds, a)
  {
    order, rounds, a := OccludedListOutcome(j);
    OutcomePruned(j, OccludedList(j), order, rounds, a);
  }

  /** The list itself, full or not, in L2 and cosine: of two kept ids at pool positions p < q, the one at p kept first,
      the farther one is at most alpha times as far from the location as from the closer one, and they do not
      coincide. */
  lemma KeptSeparated(j: Job)
    requires j.Metrized() && !j.metric.InnerProduct? && Distinct(Ids(j.pool))
    ensures PoolSpread(j.pool, j.dist, j.alpha, OccludedList(j))
  {
    var order, rounds, last := OccludedListPruned(j);
    SpreadByPosition(j.pool, j.deleted + {j.location}, j.alpha, j.metric, j.dist, OccludedList(j), order, rounds);
  }

  lemma {:induction false} KeptDistinct(j: Job, order: seq<nat>)
    requires InPool(j, order) && Distinct(order) && Distinct(Ids(j.pool))
    ensures Distinct(Kept(j, order))
  {
    if order != [] {
      var n := |order| - 1;
      assert forall k :: 0 <= k < n ==> order[..n][k] == order[k];
      KeptDistinct(j, order[..n]);
      assert forall k :: 0 <= k < n ==> order[k] != order[n] && Ids(j.pool)[order[k]] != Ids(j.pool)[order[n]];
      assert j.pool[order[n]].id !in Kept(j, order[..n]);
    }
  }

  // ---- the imperative form ----

  // The inner loop over iter2, after position i was marked.
  method OccludeLater(j: Job, factor: array<Factor>, i: nat, curAlpha: real)
    requires i < |j.pool| == factor.Length
    modifies factor
    ensures factor[..] == Considered(j, old(factor[..]), i, curAlpha)
  {
    var eps := curAlpha + 0.01;
    factor[i] := Max;
    for t := i + 1 to |j.pool|
      invariant forall s :: 0 <= s < i || t <= s < |j.pool| ==> factor[s] == old(factor[s])
      invariant factor[i] == Max
      invariant forall s :: i < s < t ==> factor[s] == j.Occlude(old(factor[s]), i, s, curAlpha)
    {
      if !factor[t].Exceeds(j.alpha) {
        var djk := j.dist(j.pool[t].id, j.pool[i].id);
        if !j.metric.InnerProduct? {
          factor[t] := if djk == 0.0 then Max else factor[t].AtLeast(j.pool[t].distance / djk);
        } else {
          var x, y := -j.pool[t].distance, -djk;
          if y > curAlpha * x {
            factor[t] := factor[t].AtLeast(eps);
          }
        }
      }
    }
  }

  // Once the list is full the rest of a pass changes nothing.
  lemma {:induction false} FullPass(j: Job, s: State, i: nat, curAlpha: real)
    requires i <= |j.pool| == |s.factor| && |s.result| >= j.degree
    ensures Pass(j, s, i, curAlpha) == s
    decreases |j.pool| - i
  {
    if i < |j.pool| {
      FullPass(j, s, i + 1, curAlpha);
    }
  }

  // One round at threshold curAlpha: a pass over the pool, stopping once `degree` ids are kept.
  method Round(j: Job, factor: array<Factor>, curAlpha: real, result0: seq<nat>) returns (result: seq<nat>)
    requires factor.Length == |j.pool|
    modifies factor
    ensures State(factor[..], result) == Pass(j, State(old(factor[..]), result0), 0, curAlpha)
  {
    result := result0;
    var i := 0;
    while |result| < j.degree && i < |j.pool|
      invariant 0 <= i <= |j.pool|
      invariant Pass(j, State(factor[..], result), i, curAlpha) == Pass(j, State(old(factor[..]), result0), 0, curAlpha)
    {
      if !factor[..][i].Exceeds(curAlpha) {
        if j.pool[i].id !in j.deleted && j.pool[i].id != j.location {
          result := result + [j.pool[i].id];
        }
        OccludeLater(j, factor, i, curAlpha);
      }
      i := i + 1;
    }
    if i < |j.pool| {
      FullPass(j, State(factor[..], result), i, curAlpha);
    }
  }

  /** occlude_list: truncate the pool, then rounds at thresholds 1, 1.2, 1.44, ... up to alpha while the list
      is not full. */
  method OccludeList(location: nat, pool0: seq<Neighbor>, alpha: real, degree: nat, maxc: nat, metric: Metric,
                     dist: PairDistance, deleted: set<nat>)
    returns (pool: seq<Neighbor>, result: seq<nat>)
    ensures pool == Truncated(pool0, maxc) == pool0[..if |pool0| > maxc then maxc else |pool0|]
    ensures result == OccludedList(Job(location, pool, alpha, degree, metric, dist, deleted))
    ensures Measurable(metric, dist, pool) ==>
              exists order, rounds, a ::
                PoolPruned(location, pool, deleted, degree, alpha, metric, dist, result, order, rounds, a)
    ensures Measurable(metric, dist, pool) && !metric.InnerProduct? && Distinct(Ids(pool)) ==>
              PoolSpread(pool, dist, alpha, result)
  {
    pool := if |pool0| > maxc then pool0[..maxc] else pool0;
    var j := Job(location, pool, alpha, degree, metric, dist, deleted);
    result := [];
    var factor := new Factor[|pool|](_ => Finite(0.0));
    var curAlpha := 1.0;
    assert factor[..] == Zeros(|pool|);
    while curAlpha <= alpha && |result| < degree
      invariant curAlpha >= 1.0
      invariant Rounds(j, State(factor[..], result), curAlpha) == Rounds(j, State(Zeros(|pool|), []), 1.0)
      decreases (alpha - curAlpha) * 5.0
    {
      result := Round(j, factor, curAlpha, result);
      curAlpha := curAlpha * 1.2;
    }
    OccludeListMeaning(j);
  }

  lemma OccludeListMeaning(j: Job)
    ensures j.Metrized() ==>
              exists order, rounds, a ::
                PoolPruned(j.location, j.pool, j.deleted, j.degree, j.alpha, j.metric, j.dist, OccludedList(j), order,
                           rounds, a)
    ensures j.Metrized() && !j.metric.InnerProduct? && Distinct(Ids(j.pool)) ==>
              PoolSpread(j.pool, j.dist, j.alpha, OccludedList(j))
  {
    if j.Metrized() {
      var order, rounds, a := OccludedListPruned(j);
    }
    if j.Metrized() && !j.metric.InnerProduct? && Distinct(Ids(j.pool)) {
      KeptSeparated(j);
    }
  }

  /** Corollaries for callers: at most `degree` ids, none deleted, not `location`, all from the pool, and
      distinct when the pool's ids are. */
  lemma OccludedListShape(location: nat, pool0: seq<Neighbor>, alpha: real, degree: nat, maxc: nat, metric: Metric,
                          dist: PairDistance, deleted: set<nat>)
    requires Job(location, pool0, alpha, degree, metric, dist, deleted).Metrized()
    ensures var r := OccludedList(Job(location, Truncated(pool0, maxc), alpha, degree, metric, dist, deleted));
            && |r| <= degree
            && (forall x :: x in r ==> x != location && x !in deleted && x in Ids(pool0))
            && (Distinct(Ids(pool0)) ==> Distinct(r))
  {
    var j := Job(location, Truncated(pool0, maxc), alpha, degree, metric, dist, deleted);
    var order, rounds, a := OccludedListOutcome(j);
    forall x | x in Kept(j, order) ensures x in Ids(pool0) {
      var k :| 0 <= k < |order| && j.pool[order[k]].id == x;
      assert Ids(pool0)[order[k]] == x;
    }
    if Distinct(Ids(pool0)) {
      assert forall i :: 0 <= i < |j.pool| ==> Ids(j.pool)[i] == Ids(pool0)[i];
      KeptDistinct(j, order);
    }
  }
}
