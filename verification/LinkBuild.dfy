/** Parallel graph construction (link, inter_insert; src/index.cpp:1311-1491): threads set their node's list, add
    back edges under the target's lock, and prune a full list from a snapshot taken earlier. */
module LinkBuild {
  import opened NeighborOrder
  import opened NeighborQueue
  import opened GreedySearch
  import opened Occlusion
  import opened RobustPrune
  import opened Pruning
  import opened Stores

  // (uint64_t)(GRAPH_SLACK_FACTOR * range), the factor being 1.3
  function Slack(range: nat): nat {
    13 * range / 10
  }

  // What pruning a snapshot of des's list may return.
  ghost predicate PruneOf(snapshot: seq<nat>, des: nat, range: nat, r: seq<nat>) {
    && Distinct(r)
    && |r| <= range
    && (forall x :: x in r ==> x in snapshot && x != des)
  }

  datatype Visit = Present | Added | Full(snapshot: seq<nat>)

  // The critical section of inter_insert on des's lock, as a function of the list it finds.
  function VisitList(list: seq<nat>, n: nat, range: nat): (seq<nat>, Visit) {
    if n in list then (list, Present)
    else if |list| < Slack(range) then (list + [n], Added)
    else (list, Full(list + [n]))
  }

  method AddOrSnapshot(g: GraphStore, des: nat, n: nat, range: nat) returns (v: Visit)
    requires g.Valid() && des < |g.graph|
    modifies g
    ensures g.Valid() && g.graph == old(g.graph)[des := VisitList(old(g.graph[des]), n, range).0]
    ensures v == VisitList(old(g.graph[des]), n, range).1
    ensures var l := old(g.graph[des]);
            && v == (if n in l then Present else if |l| < 13 * range / 10 then Added else Full(l + [n]))
            && g.graph[des] == if v.Added? then l + [n] else l
  {
    var desPool := g.graph[des];
    if n in desPool {
      v := Present;
    } else if |desPool| < Slack(range) {
      g.AddNeighbour(des, n);
      v := Added;
    } else {
      v := Full(desPool + [n]);
    }
  }

  // Outside the lock: drop repeats and des itself, then prune.
  method PruneSnapshot(snapshot: seq<nat>, des: nat, p: Params, saturate: bool) returns (r: seq<nat>)
    requires p.Metrized()
    ensures PruneOf(snapshot, des, p.range, r)
    ensures Prunes(des, Elems(snapshot) - {des}, DistancesFrom(p.dist, des), p, saturate, r)
  {
    var visited, pool := {}, [];
    for i := 0 to |snapshot|
      invariant Distinct(Ids(pool)) && Elems(Ids(pool)) == visited
      invariant visited == Elems(snapshot[..i]) - {des}
      invariant forall k :: 0 <= k < |pool| ==> pool[k].distance == p.dist(des, pool[k].id)
    {
      var cur := snapshot[i];
      assert snapshot[..i + 1] == snapshot[..i] + [cur];
      if cur !in visited && cur != des {
        ghost var ids := Ids(pool);
        assert Ids(pool + [Neighbor(cur, p.dist(des, cur), false)]) == ids + [cur];
        assert forall k :: 0 <= k < |ids| ==> ids[k] in visited;
        pool := pool + [Neighbor(cur, p.dist(des, cur), false)];
        visited := visited + {cur};
      }
    }
    assert snapshot[..|snapshot|] == snapshot;
    ghost var sorted;
    var sortedPool;
    sortedPool, r, sorted := PruneNeighbors(des, pool, p.range, p.maxc, p.alpha, saturate, p.metric, p.dist);
    assert forall x :: x in r ==> x in Elems(Ids(pool));
    CandidatesSorted(pool, sorted, DistancesFrom(p.dist, des));
    ChosenMeaning(p, saturate, des, sorted, visited, DistancesFrom(p.dist, des));
    assert PrunesPool(sorted, des, visited, DistancesFrom(p.dist, des), p, saturate, r);
  }

  /** One back edge without interference: present already, appended below the slack, or the pruning of the full list
      together with n. */
  ghost predicate BackEdge(list: seq<nat>, n: nat, des: nat, p: Params, saturate: bool, list': seq<nat>) {
    if n in list then list' == list
    else if |list| < 13 * p.range / 10 then list' == list + [n]
    else
      && PruneOf(list + [n], des, p.range, list')
      && Prunes(des, Elems(list) + {n} - {des}, DistancesFrom(p.dist, des), p, saturate, list')
  }

  /** A full list, by ids and distances alone: what replaces it is the choice among exactly its entries and n, without
      the node itself. */
  ghost predicate FullChosen(list: seq<nat>, n: nat, des: nat, p: Params, saturate: bool, list': seq<nat>) {
    n !in list && |list| >= 13 * p.range / 10 ==>
      ChosenFrom(p, saturate, Elems(list) + {n} - {des}, des, DistancesFrom(p.dist, des), list')
  }

  lemma BackEdgeMeaning(list: seq<nat>, n: nat, des: nat, p: Params, saturate: bool, list': seq<nat>)
    requires BackEdge(list, n, des, p, saturate, list') && p.Metrized()
    ensures FullChosen(list, n, des, p, saturate, list')
  {
    if n !in list && |list| >= 13 * p.range / 10 {
      PrunesMeaning(des, Elems(list) + {n} - {des}, DistancesFrom(p.dist, des), p, saturate, list');
    }
  }

  /** The back edge is there unless a full list holds a closer entry. */
  lemma BackEdgeSet(list: seq<nat>, n: nat, des: nat, p: Params, saturate: bool, list': seq<nat>)
    requires BackEdge(list, n, des, p, saturate, list') && p.Metrized() && n != des
    requires p.range > 0 && p.maxc > 0 && p.alpha >= 1.0
    requires |list| < 13 * p.range / 10 || IsLeast(DistancesFrom(p.dist, des), Elems(list) + {n} - {des}, n)
    ensures n in list'
  {
    BackEdgeMeaning(list, n, des, p, saturate, list');
    if n !in list && |list| >= 13 * p.range / 10 {
      ChosenList(p, saturate, Elems(list) + {n} - {des}, des, DistancesFrom(p.dist, des), list');
    }
  }

  // The list has room, or n is the closest to v of its entries and n.
  ghost predicate Closest(list: seq<nat>, n: nat, v: nat, p: Params) {
    || |list| < 13 * p.range / 10
    || forall x :: x in list && x != v && x != n ==>
         p.dist(v, n) < p.dist(v, x) || (p.dist(v, n) == p.dist(v, x) && n < x)
  }

  lemma BackEdgeOrigin(list: seq<nat>, n: nat, des: nat, p: Params, saturate: bool, list': seq<nat>)
    requires BackEdge(list, n, des, p, saturate, list')
    ensures forall w :: w in list' ==> w in list || w == n
  {
  }

  method InsertBackEdge(g: GraphStore, n: nat, des: nat, p: Params, saturate: bool)
    requires g.Valid() && p.Metrized() && des < |g.graph|
    modifies g
    ensures g.Valid() && |g.graph| == |old(g.graph)| && g.graph == old(g.graph)[des := g.graph[des]]
    ensures BackEdge(old(g.graph)[des], n, des, p, saturate, g.graph[des])
  {
    var v := AddOrSnapshot(g, des, n, p.range);
    if v.Full? {
      var r := PruneSnapshot(v.snapshot, des, p, saturate);
      assert Elems(v.snapshot) - {des} == Elems(old(g.graph)[des]) + {n} - {des};
      g.SetNeighbours(des, r);
    }
  }

  /** inter_insert run by itself: every target gets its back edge, no other list changes, and entries are old
      ones or n. */
  method InterInsert(g: GraphStore, n: nat, targets: seq<nat>, p: Params, saturate: bool)
    requires g.Valid() && p.Metrized() && Distinct(targets) && forall i :: 0 <= i < |targets| ==> targets[i] < |g.graph|
    modifies g
    ensures g.Valid() && |g.graph| == |old(g.graph)|
    ensures forall v :: 0 <= v < |g.graph| && v !in targets ==> g.graph[v] == old(g.graph)[v]
    ensures forall v :: v in targets ==> v < |g.graph| && BackEdge(old(g.graph)[v], n, v, p, saturate, g.graph[v])
    ensures forall v, w :: 0 <= v < |g.graph| && w in g.graph[v] ==> w in old(g.graph)[v] || w == n
    ensures forall v :: v in targets ==> FullChosen(old(g.graph)[v], n, v, p, saturate, g.graph[v])
    ensures p.range > 0 && p.maxc > 0 && p.alpha >= 1.0 ==>
              forall v :: v in targets && v != n && Closest(old(g.graph)[v], n, v, p) ==> n in g.graph[v]
  {
    ghost var G := g.graph;
    for i := 0 to |targets|
      invariant g.Valid() && |g.graph| == |G|
      invariant forall v :: 0 <= v < |G| && v !in targets[..i] ==> g.graph[v] == G[v]
      invariant forall v :: v in targets[..i] ==> v < |G| && BackEdge(G[v], n, v, p, saturate, g.graph[v])
    {
      assert targets[..i + 1] == targets[..i] + [targets[i]];
      assert targets[i] !in targets[..i];
      InsertBackEdge(g, n, targets[i], p, saturate);
    }
    assert targets[..|targets|] == targets;
    forall v | v in targets ensures FullChosen(G[v], n, v, p, saturate, g.graph[v]) {
      BackEdgeMeaning(G[v], n, v, p, saturate, g.graph[v]);
    }
    if p.range > 0 && p.maxc > 0 && p.alpha >= 1.0 {
      forall v | v in targets && v != n && Closest(G[v], n, v, p) ensures n in g.graph[v] {
        assert |G[v]| >= 13 * p.range / 10 ==>
            IsLeast(DistancesFrom(p.dist, v), Elems(G[v]) + {n} - {v}, n);
        BackEdgeSet(G[v], n, v, p, saturate, g.graph[v]);
      }
    }
  }

  /** The first half of one iteration of link: search, prune, set the node's list. The list is one the
      interleaving model lets a thread start with. */
  method LinkNode(g: GraphStore, q: NeighborPriorityQueue, node: nat, L: nat, init: seq<nat>, start: nat, p: Params,
                  saturate: bool)
    returns (pruned: seq<nat>)
    requires g.Valid() && Closed(g.graph) && node < |g.graph| && p.Metrized() && L > 0 && p.range > 0
    requires start in init && forall v :: v in init ==> v < |g.graph|
    requires q.size == 0 && q.cur == 0 && q.seen == {} && q.popped == {}
    modifies g, q, q.data
    ensures g.Valid() && g.graph == old(g.graph)[node := pruned]
    ensures IsSearchResult(ReachSet(old(g.graph), init), start, p.range, node, pruned)
    ensures FoundFor(old(g.graph), node, L, start, p, saturate, pruned)
  {
    var ok;
    ok, pruned := SearchForPointAndPrune(q, node, L, init, g.graph, start, p.range, p.maxc, p.alpha, saturate,
                                         p.metric, p.dist);
    g.SetNeighbours(node, pruned);
  }

  // ---- all interleavings ----

  datatype Thread =
    | Idle
    | Linking(node: nat, targets: seq<nat>)
    | Pruning(node: nat, des: nat, snapshot: seq<nat>, targets: seq<nat>)

  datatype Build = Build(graph: Graph, threads: seq<Thread>)

  // What search_for_point_and_prune hands to a thread.
  ghost predicate IsSearchResult(nodes: set<nat>, start: nat, range: nat, node: nat, pruned: seq<nat>) {
    && Distinct(pruned)
    && 0 < |pruned| <= range
    && (forall x :: x in pruned ==> x in nodes)
    && (node !in pruned || (node == start && pruned == [start]))
  }

  ghost predicate StartStep(b: Build, b': Build, t: nat, nodes: set<nat>, start: nat, range: nat, node: nat,
                            pruned: seq<nat>) {
    && t < |b.threads| && b.threads[t].Idle? && node in nodes && node < |b.graph|
    && IsSearchResult(nodes, start, range, node, pruned)
    && b' == Build(b.graph[node := pruned], b.threads[t := Linking(node, pruned)])
  }

  ghost predicate VisitStep(b: Build, b': Build, t: nat, range: nat) {
    && t < |b.threads| && b.threads[t].Linking? && b.threads[t].targets != []
    && var Linking(n, targets) := b.threads[t];
    && var des := targets[0];
    && des < |b.graph|
    && var (list, v) := VisitList(b.graph[des], n, range);
    && b' == Build(b.graph[des := list],
                   b.threads[t := if v.Full?
                               then Pruning(n, des, v.snapshot, targets[1..])
                               else Linking(n, targets[1..])])
  }

  ghost predicate CommitStep(b: Build, b': Build, t: nat, range: nat, r: seq<nat>) {
    && t < |b.threads| && b.threads[t].Pruning?
    && var Pruning(n, des, snapshot, targets) := b.threads[t];
    && des < |b.graph|
    && PruneOf(snapshot, des, range, r)
    && b' == Build(b.graph[des := r], b.threads[t := Linking(n, targets)])
  }

  ghost predicate EndStep(b: Build, b': Build, t: nat) {
    && t < |b.threads| && b.threads[t].Linking? && b.threads[t].targets == []
    && b' == b.(threads := b.threads[t := Idle])
  }

  ghost predicate StepOf(b: Build, b': Build, t: nat, nodes: set<nat>, start: nat, range: nat) {
    || (exists node, pruned :: StartStep(b, b', t, nodes, start, range, node, pruned))
    || VisitStep(b, b', t, range)
    || (exists r :: CommitStep(b, b', t, range, r))
    || EndStep(b, b', t)
  }

  ghost predicate Step(b: Build, b': Build, nodes: set<nat>, start: nat, range: nat) {
    exists t :: StepOf(b, b', t, nodes, start, range)
  }

  // Distinct entries from `nodes`, no self-loop except at the starting point, at most `bound` of them.
  ghost predicate GoodList(list: seq<nat>, v: nat, nodes: set<nat>, start: nat, bound: nat) {
    && Distinct(list)
    && |list| <= bound
    && (forall x :: x in list ==> x in nodes)
    && (v in list ==> v == start)
  }

  ghost predicate GoodThread(th: Thread, nodes: set<nat>, start: nat) {
    match th
    case Idle => true
    case Linking(n, targets) => n in nodes && forall x :: x in targets ==> x in nodes && (x == n ==> n == start)
    case Pruning(n, des, snapshot, targets) =>
      && n in nodes && des in nodes
      && (forall x :: x in targets ==> x in nodes && (x == n ==> n == start))
      && (forall x :: x in snapshot ==> x in nodes)
  }

  ghost predicate ListsInv(b: Build, nodes: set<nat>, start: nat, range: nat) {
    && (forall v :: 0 <= v < |b.graph| ==> GoodList(b.graph[v], v, nodes, start, Slack(range)))
    && (forall v :: 0 <= v < |b.graph| && v !in nodes ==> b.graph[v] == [])
    && (forall t :: 0 <= t < |b.threads| ==> GoodThread(b.threads[t], nodes, start))
  }

  lemma StepInv(b: Build, b': Build, nodes: set<nat>, start: nat, range: nat)
    requires ListsInv(b, nodes, start, range) && Step(b, b', nodes, start, range)
    ensures ListsInv(b', nodes, start, range) && |b'.graph| == |b.graph|
  {
    var t :| StepOf(b, b', t, nodes, start, range);
    if VisitStep(b, b', t, range) {
      VisitInv(b, b', t, nodes, start, range);
    }
  }

  lemma VisitInv(b: Build, b': Build, t: nat, nodes: set<nat>, start: nat, range: nat)
    requires ListsInv(b, nodes, start, range) && VisitStep(b, b', t, range)
    ensures ListsInv(b', nodes, start, range)
  {
    var Linking(n, targets) := b.threads[t];
    var des := targets[0];
    assert des in targets;
    var (list, v) := VisitList(b.graph[des], n, range);
    assert GoodList(b.graph[des], des, nodes, start, Slack(range));
    assert GoodList(list, des, nodes, start, Slack(range));
    assert forall x :: x in targets[1..] ==> x in targets;
    assert GoodThread(b'.threads[t], nodes, start);
  }

  ghost predicate Run(states: seq<Build>, nodes: set<nat>, start: nat, range: nat) {
    && |states| > 0
    && (forall v :: 0 <= v < |states[0].graph| ==> states[0].graph[v] == [])
    && (forall t :: 0 <= t < |states[0].threads| ==> states[0].threads[t].Idle?)
    && forall i :: 0 <= i < |states| - 1 ==> Step(states[i], states[i + 1], nodes, start, range)
  }

  /** Under every interleaving, in every state: distinct neighbours among the nodes being built, no self-loop
      except at the starting point, at most floor(1.3 * range) of them, and none for any other location. */
  lemma {:induction false} RunInv(states: seq<Build>, nodes: set<nat>, start: nat, range: nat, i: nat)
    requires Run(states, nodes, start, range) && i < |states|
    ensures ListsInv(states[i], nodes, start, range)
  {
    if i > 0 {
      RunInv(states, nodes, start, range, i - 1);
      assert Step(states[i - 1], states[i - 1 + 1], nodes, start, range);
      StepInv(states[i - 1], states[i], nodes, start, range);
    }
  }

  // What the cleanup pass makes of v's list: pruned if it is longer than range.
  ghost predicate Cleaned(list: seq<nat>, v: nat, p: Params, saturate: bool, list': seq<nat>) {
    if |list| <= p.range then list' == list
    else PruneOf(list, v, p.range, list') && Prunes(v, Elems(list) - {v}, DistancesFrom(p.dist, v), p, saturate, list')
  }

  lemma CleanedGood(list: seq<nat>, v: nat, p: Params, saturate: bool, list': seq<nat>, nodes: set<nat>, start: nat)
    requires GoodList(list, v, nodes, start, Slack(p.range)) && Cleaned(list, v, p, saturate, list')
    ensures GoodList(list', v, nodes, start, p.range) && forall w :: w in list' ==> w in list
  {
  }

  method CleanNode(g: GraphStore, node: nat, p: Params, saturate: bool)
    requires g.Valid() && p.Metrized() && node < |g.graph|
    modifies g
    ensures g.Valid() && |g.graph| == |old(g.graph)| && g.graph == old(g.graph)[node := g.graph[node]]
    ensures Cleaned(old(g.graph)[node], node, p, saturate, g.graph[node])
  {
    if |g.graph[node]| > p.range {
      var r := PruneSnapshot(g.graph[node], node, p, saturate);
      g.ClearNeighbours(node);
      g.SetNeighbours(node, r);
    }
  }

  /** The final cleanup pass, nodes in any order: afterwards at most `range` neighbours each. */
  method Cleanup(g: GraphStore, order: seq<nat>, p: Params, saturate: bool, ghost nodes: set<nat>, ghost start: nat)
    requires g.Valid() && p.Metrized() && Distinct(order) && forall i :: 0 <= i < |order| ==> order[i] < |g.graph|
    requires forall v :: 0 <= v < |g.graph| ==> GoodList(g.graph[v], v, nodes, start, Slack(p.range))
    modifies g
    ensures g.Valid() && |g.graph| == |old(g.graph)|
    ensures forall v :: 0 <= v < |g.graph| && v !in order ==> g.graph[v] == old(g.graph)[v]
    ensures forall v :: v in order ==> v < |g.graph| && Cleaned(old(g.graph)[v], v, p, saturate, g.graph[v])
    ensures forall v :: v in order ==> v < |g.graph| && GoodList(g.graph[v], v, nodes, start, p.range)
  {
    ghost var G := g.graph;
    for i := 0 to |order|
      invariant g.Valid() && |g.graph| == |G|
      invariant forall v :: 0 <= v < |G| && v !in order[..i] ==> g.graph[v] == G[v]
      invariant forall v :: v in order[..i] ==> v < |G| && Cleaned(G[v], v, p, saturate, g.graph[v])
    {
      assert order[i] !in order[..i];
      assert order[..i + 1] == order[..i] + [order[i]];
      CleanNode(g, order[i], p, saturate);
    }
    assert order[..|order|] == order;
    forall v | v in order ensures GoodList(g.graph[v], v, nodes, start, p.range) {
      CleanedGood(G[v], v, p, saturate, g.graph[v], nodes, start);
    }
  }

  /** The whole of link: any interleaved run that has come to rest, then the cleanup over all nodes. Every list is in
      order and has at most `range` entries. */
  method FinishBuild(g: GraphStore, order: seq<nat>, p: Params, saturate: bool, ghost states: seq<Build>,
                     ghost nodes: set<nat>, ghost start: nat)
    requires g.Valid() && p.Metrized() && Run(states, nodes, start, p.range)
    requires g.graph == states[|states| - 1].graph && forall t :: t in states[|states| - 1].threads ==> t.Idle?
    requires Distinct(order) && Elems(order) == nodes && forall v :: v in nodes ==> v < |g.graph|
    modifies g
    ensures g.Valid() && |g.graph| == |old(g.graph)|
    ensures forall v :: 0 <= v < |g.graph| ==> GoodList(g.graph[v], v, nodes, start, p.range)
  {
    RunInv(states, nodes, start, p.range, |states| - 1);
    assert forall i :: 0 <= i < |order| ==> order[i] in Elems(order);
    Cleanup(g, order, p, saturate, nodes, start);
    forall v | 0 <= v < |g.graph| ensures GoodList(g.graph[v], v, nodes, start, p.range) {
      if v !in nodes {
        assert v !in order && g.graph[v] == [];
      }
    }
  }

  // ---- searching while others write ----

  // The lists a search may read: the graph as it is at each expansion.
  type Snapshots = nat -> Graph

  ghost predicate WithinNodes(views: Snapshots, nodes: set<nat>, n: nat) {
    && (forall v :: v in nodes ==> v < n)
    && (forall k: nat :: |views(k)| == n)
    && (forall k: nat, v: nat, w: nat :: v < |views(k)| && w in views(k)[v] ==> w in nodes)
  }

  // In a run every state's lists stay within the nodes, so a search may see any of them.
  lemma RunSnapshots(states: seq<Build>, nodes: set<nat>, start: nat, range: nat, at: nat -> nat, views: Snapshots,
                     n: nat)
    requires Run(states, nodes, start, range) && forall v :: v in nodes ==> v < n
    requires forall i :: 0 <= i < |states| ==> |states[i].graph| == n
    requires forall k: nat :: at(k) < |states| && views(k) == states[at(k)].graph
    ensures WithinNodes(views, nodes, n)
  {
    forall k: nat, v: nat, w: nat | v < |views(k)| && w in views(k)[v] ensures w in nodes {
      RunInv(states, nodes, start, range, at(k));
    }
  }

  // The search, expansion k reading the graph as it is then: it still ends, and never leaves the nodes.
  method SearchRacing(q: NeighborPriorityQueue, L: nat, init: seq<nat>, views: Snapshots, n: nat, d: Distance,
                      ghost nodes: set<nat>)
    returns (expanded: seq<Neighbor>)
    requires L > 0 && WithinNodes(views, nodes, n) && Elems(init) <= nodes
    requires q.size == 0 && q.cur == 0 && q.seen == {} && q.popped == {}
    modifies q, q.data
    ensures q.Valid(d) && Expansion(d, expanded, q.popped) && q.popped <= nodes
  {
    q.Reserve(L);
    var ok, visited := Seed(q, n, init, d);
    assert ok by {
      assert forall v :: v in init ==> v in Elems(init);
    }
    expanded := [];
    var k := 0;
    while q.HasUnexpandedNode()
      invariant q.Valid(d) && q.seen == visited <= nodes && q.popped <= visited && q.capacity == L
      invariant q.data == old(q.data) || fresh(q.data)
      invariant Expansion(d, expanded, q.popped)
      decreases nodes - visited, visited - q.popped
    {
      ghost var popped, before := q.popped, visited;
      var nbr;
      nbr, visited := ExpandRacing(q, views(k), visited, d, nodes);
      ExpansionGrows(d, expanded, popped, nbr);
      expanded, k := expanded + [nbr], k + 1;
    }
  }

  method ExpandRacing(q: NeighborPriorityQueue, graph: Graph, visited: set<nat>, d: Distance, ghost nodes: set<nat>)
    returns (nbr: Neighbor, visited': set<nat>)
    requires q.Valid(d) && q.capacity > 0 && q.cur < q.size && q.seen == visited <= nodes && q.popped <= visited
    requires forall v :: v in nodes ==> v < |graph|
    requires forall v: nat, w: nat :: v < |graph| && w in graph[v] ==> w in nodes
    modifies q, q.data
    ensures q.Valid(d) && q.seen == visited' <= nodes && q.popped == old(q.popped) + {nbr.id} && q.popped <= visited'
    ensures nbr.distance == d(nbr.id) && nbr.id !in old(q.popped)
    ensures nodes - visited' < nodes - visited || (visited' == visited && visited - q.popped < visited - old(q.popped))
    ensures q.capacity == old(q.capacity) && q.data == old(q.data)
  {
    nbr := q.ClosestUnexpanded(d);
    assert nbr.id in visited;
    var scratch := Unvisited(graph[nbr.id], visited);
    visited' := visited + Elems(scratch);
    OfferAll(q, scratch, d);
    Progress(nodes, visited, visited', old(q.popped), nbr.id);
  }

  /** What a thread of link starts with even while other threads write: search, prune and fallback over lists that
      change between expansions but stay within the nodes give a result the interleaving model allows. */
  method LinkRacing(q: NeighborPriorityQueue, node: nat, L: nat, init: seq<nat>, views: Snapshots, n: nat, start: nat,
                    p: Params, saturate: bool, ghost nodes: set<nat>)
    returns (pruned: seq<nat>)
    requires L > 0 && p.range > 0 && p.Metrized() && WithinNodes(views, nodes, n) && Elems(init) <= nodes
    requires start in init
    requires q.size == 0 && q.cur == 0 && q.seen == {} && q.popped == {}
    modifies q, q.data
    ensures IsSearchResult(nodes, start, p.range, node, pruned)
  {
    var d := DistancesTo(p.dist, node);
    var expanded := SearchRacing(q, L, init, views, n, d, nodes);
    var pool := WithoutLocation(expanded, node);
    assert forall x :: x in Ids(pool) ==> x in Elems(Ids(expanded));
    assert forall i :: 0 <= i < |pool| ==> pool[i] in expanded;
    ghost var sorted;
    var sortedPool;
    sortedPool, pruned, sorted :=
      PruneNeighbors(node, pool, p.range, p.maxc, p.alpha, saturate, p.metric, p.dist);
    assert start in Elems(init);
    if |pruned| == 0 {
      if |sortedPool| != 0 {
        assert Ids(sortedPool)[0] in Elems(Ids(pool));
        pruned := [sortedPool[0].id];
      } else {
        pruned := [start];
      }
    }
  }
}
