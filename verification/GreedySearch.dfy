/** Greedy beam search (iterate_to_fixed_point, src/index.cpp) over a fixed graph and one query. */
module GreedySearch {
  import opened NeighborOrder
  import opened NeighborQueue
  import opened Wrappers

  type Graph = seq<seq<nat>>

  ghost predicate Closed(graph: Graph) {
    forall v, i :: 0 <= v < |graph| && 0 <= i < |graph[v]| ==> graph[v][i] < |graph|
  }

  ghost predicate IsPath(graph: Graph, p: seq<nat>) {
    && (forall i :: 0 <= i < |p| ==> p[i] < |graph|)
    && (forall i :: 0 < i < |p| ==> p[i] in graph[p[i - 1]])
  }

  ghost predicate ReachableBy(graph: Graph, init: seq<nat>, v: nat, p: seq<nat>) {
    |p| > 0 && p[0] in init && p[|p| - 1] == v && IsPath(graph, p)
  }

  ghost predicate Reachable(graph: Graph, init: seq<nat>, v: nat) {
    exists p :: ReachableBy(graph, init, v, p)
  }

  ghost function ReachSet(graph: Graph, init: seq<nat>): (r: set<nat>)
    ensures forall v: nat :: v in r <==> v < |graph| && Reachable(graph, init, v)
  {
    set v: nat | 0 <= v < |graph| && Reachable(graph, init, v)
  }

  lemma StartReachable(graph: Graph, init: seq<nat>, v: nat)
    requires v in init && v < |graph|
    ensures Reachable(graph, init, v)
  {
    assert ReachableBy(graph, init, v, [v]);
  }

  lemma StepReachable(graph: Graph, init: seq<nat>, v: nat, w: nat)
    requires Reachable(graph, init, v) && v < |graph| && w in graph[v] && w < |graph|
    ensures Reachable(graph, init, w)
  {
    var p :| ReachableBy(graph, init, v, p);
    assert ReachableBy(graph, init, w, p + [w]);
  }

  // A set holding the starting points and closed under edges holds everything reachable.
  lemma {:induction false} ReachableInClosed(graph: Graph, init: seq<nat>, v: nat, p: seq<nat>, c: set<nat>)
    requires ReachableBy(graph, init, v, p)
    requires forall x :: x in init ==> x in c
    requires forall x, y :: x in c && x < |graph| && y in graph[x] ==> y in c
    ensures v in c
    decreases |p|
  {
    if |p| > 1 {
      var q := p[..|p| - 1];
      assert ReachableBy(graph, init, q[|q| - 1], q);
      ReachableInClosed(graph, init, q[|q| - 1], q, c);
    }
  }

  // What holds between two iterations of the main loop: everything offered to the queue is reachable,
  // and the out-neighbours of every expanded node have been offered.
  ghost predicate SearchInv(graph: Graph, init: seq<nat>, visited: set<nat>, popped: set<nat>) {
    && (forall v :: v in visited ==> v < |graph| && Reachable(graph, init, v))
    && (forall v :: v in init ==> v in visited)
    && (forall v, w :: v in popped && v < |graph| && w in graph[v] ==> w in visited)
  }

  // The result the caller may rely on.
  ghost predicate FixedPoint(d: Distance, graph: Graph, ids: seq<nat>, L: nat) {
    forall v, w :: v in ids && v < |graph| && w in graph[v] ==>
      w in ids || (|ids| == L && forall y :: y in ids ==> Before(d, y, w))
  }

  lemma EndIsFixedPoint(d: Distance, graph: Graph, init: seq<nat>, ids: seq<nat>,
                        visited: set<nat>, popped: set<nat>, L: nat)
    requires SearchInv(graph, init, visited, popped) && TopK(d, ids, visited, L)
    requires forall v :: v in ids ==> v in popped
    ensures FixedPoint(d, graph, ids, L)
    ensures |ReachSet(graph, init)| <= L ==>
              TopK(d, ids, ReachSet(graph, init), L) && Elems(ids) == ReachSet(graph, init)
  {
    var reach := ReachSet(graph, init);
    if |reach| <= L {
      VisitedFits(d, ids, visited, reach, L);
      forall v | v in reach ensures v in visited {
        var p :| ReachableBy(graph, init, v, p);
        ReachableInClosed(graph, init, v, p, visited);
      }
      assert visited == reach;
    }
  }

  lemma VisitedFits(d: Distance, ids: seq<nat>, visited: set<nat>, reach: set<nat>, L: nat)
    requires TopK(d, ids, visited, L) && visited <= reach && |reach| <= L
    ensures Elems(ids) == visited
  {
    DistinctCard(ids);
    CardLe(visited, reach);
    assert Elems(ids) <= visited;
    if |ids| == L {
      CardLe(Elems(ids), visited);
      CardSame(Elems(ids), visited);
    }
  }

  // Offers one id, once: marking it and pushing it with its distance.
  method Offer(q: NeighborPriorityQueue, id: nat, d: Distance)
    requires q.Valid(d) && q.capacity > 0
    modifies q, q.data
    ensures q.Valid(d) && q.seen == old(q.seen) + {id} && q.popped == old(q.popped)
    ensures q.capacity == old(q.capacity) && q.data == old(q.data)
  {
    q.Insert(Neighbor(id, d(id), false), d);
  }

  // The candidates of one expansion: out-neighbours not marked yet, in list order.
  method Unvisited(nbrs: seq<nat>, visited: set<nat>) returns (scratch: seq<nat>)
    ensures forall x :: x in scratch <==> x in nbrs && x !in visited
  {
    scratch := [];
    for i := 0 to |nbrs|
      invariant forall x :: x in scratch <==> x in nbrs[..i] && x !in visited
    {
      if nbrs[i] !in visited {
        scratch := scratch + [nbrs[i]];
      }
      assert nbrs[..i + 1] == nbrs[..i] + [nbrs[i]];
    }
    assert nbrs[..|nbrs|] == nbrs;
  }

  method OfferAll(q: NeighborPriorityQueue, ids: seq<nat>, d: Distance)
    requires q.Valid(d) && q.capacity > 0
    modifies q, q.data
    ensures q.Valid(d) && q.seen == old(q.seen) + Elems(ids) && q.popped == old(q.popped)
    ensures q.capacity == old(q.capacity) && q.data == old(q.data)
  {
    for m := 0 to |ids|
      invariant q.Valid(d) && q.seen == old(q.seen) + Elems(ids[..m]) && q.popped == old(q.popped)
      invariant q.capacity == old(q.capacity) && q.data == old(q.data)
    {
      Offer(q, ids[m], d);
      assert ids[..m + 1] == ids[..m] + [ids[m]];
    }
    assert ids[..|ids|] == ids;
  }

  // Starting points: rejects an id outside the store, otherwise marks and offers each one once.
  method Seed(q: NeighborPriorityQueue, n: nat, init: seq<nat>, d: Distance) returns (ok: bool, visited: set<nat>)
    requires q.Valid(d) && q.capacity > 0 && q.seen == {} && q.popped == {}
    modifies q, q.data
    ensures ok <==> forall v :: v in init ==> v < n
    ensures q.Valid(d) && q.seen == visited && q.popped == {}
    ensures ok ==> visited == Elems(init)
    ensures q.capacity == old(q.capacity) && q.data == old(q.data)
  {
    visited := {};
    for i := 0 to |init|
      invariant q.Valid(d) && q.seen == visited && q.popped == {}
      invariant visited == Elems(init[..i])
      invariant forall v :: v in init[..i] ==> v < n
      invariant q.capacity == old(q.capacity) && q.data == old(q.data)
    {
      if init[i] >= n {
        assert init[i] in init;
        return false, visited;
      }
      if init[i] !in visited {
        visited := visited + {init[i]};
        Offer(q, init[i], d);
      }
      assert init[..i + 1] == init[..i] + [init[i]];
    }
    assert init[..|init|] == init;
    ok := true;
  }

  // Expanding v: its unvisited out-neighbours become visited.
  lemma ExpandKeepsInv(graph: Graph, init: seq<nat>, visited: set<nat>, popped: set<nat>, n: nat, scratch: seq<nat>)
    requires Closed(graph) && SearchInv(graph, init, visited, popped) && n in visited
    requires forall x :: x in scratch <==> x in graph[n] && x !in visited
    ensures SearchInv(graph, init, visited + Elems(scratch), popped + {n})
  {
    forall w | w in scratch ensures w < |graph| && Reachable(graph, init, w) {
      StepReachable(graph, init, n, w);
    }
  }

  // One iteration of the main loop: pop the closest unexpanded node, mark and offer its neighbours.
  method Expand(q: NeighborPriorityQueue, ghost init: seq<nat>, graph: Graph, visited: set<nat>, d: Distance)
    returns (nbr: Neighbor, visited': set<nat>)
    requires q.Valid(d) && q.capacity > 0 && q.cur < q.size && q.seen == visited
    requires Closed(graph) && SearchInv(graph, init, visited, q.popped)
    modifies q, q.data
    ensures q.Valid(d) && q.seen == visited' && q.popped == old(q.popped) + {nbr.id}
    ensures nbr.distance == d(nbr.id) && nbr.id !in old(q.popped)
    ensures SearchInv(graph, init, visited', q.popped)
    ensures ReachSet(graph, init) - visited' < ReachSet(graph, init) - visited ||
            (visited' == visited && visited - q.popped < visited - old(q.popped))
    ensures q.capacity == old(q.capacity) && q.data == old(q.data)
  {
    nbr := q.ClosestUnexpanded(d);
    assert nbr.id in visited;
    var scratch := Unvisited(graph[nbr.id], visited);
    ExpandKeepsInv(graph, init, visited, old(q.popped), nbr.id, scratch);
    visited' := visited + Elems(scratch);
    OfferAll(q, scratch, d);
    Progress(ReachSet(graph, init), visited, visited', old(q.popped), nbr.id);
  }

  // The termination measure: fewer reachable ids left to visit, or the same and one more expanded.
  lemma Progress(reach: set<nat>, visited: set<nat>, visited': set<nat>, popped: set<nat>, n: nat)
    requires visited <= visited' <= reach && n in visited && n !in popped
    ensures reach - visited' < reach - visited ||
            (visited' == visited && visited - (popped + {n}) < visited - popped)
  {
    if visited' != visited {
      var x :| x in visited' && x !in visited;
      assert x in reach - visited && x !in reach - visited';
    } else {
      assert n in visited - popped && n !in visited - (popped + {n});
    }
  }

  /** The search. `ok` is false exactly when a starting point is out of range (the thrown error).
      On success the queue is the first L of the visited ids, the visited ids are reachable, every queue
      entry was expanded, and the queue is a fixed point; when at most L ids are reachable it is exactly
      the reachable set in (distance, id) order. `expanded` lists each expanded node once, in pop order. */
  method IterateToFixedPoint(q: NeighborPriorityQueue, L: nat, init: seq<nat>, graph: Graph, d: Distance,
                             searchInvocation: bool)
    returns (ok: bool, expanded: seq<Neighbor>)
    requires L > 0 && Closed(graph)
    requires q.size == 0 && q.cur == 0 && q.seen == {} && q.popped == {}
    modifies q, q.data
    ensures ok <==> forall v :: v in init ==> v < |graph|
    ensures q.Valid(d) && (q.data == old(q.data) || fresh(q.data))
    ensures ok ==> SearchInv(graph, init, q.seen, q.popped)
    ensures ok ==> TopK(d, q.Contents(), q.seen, L)
    ensures ok ==> FixedPoint(d, graph, q.Contents(), L)
    ensures ok && |ReachSet(graph, init)| <= L ==>
              Elems(q.Contents()) == ReachSet(graph, init) && Ranked(d, q.Contents())
    ensures ok && !searchInvocation ==> Expansion(d, expanded, q.popped) && Elems(q.Contents()) <= q.popped
  {
    q.Reserve(L);
    expanded := [];
    var visited;
    ok, visited := Seed(q, |graph|, init, d);
    if !ok {
      return;
    }
    forall v | v in visited ensures Reachable(graph, init, v) { StartReachable(graph, init, v); }
    expanded := ExpandAll(q, init, graph, visited, d, searchInvocation);
    EndIsFixedPoint(d, graph, init, q.Contents(), q.seen, q.popped, L);
  }

  // The main loop, until no queue entry is unexpanded.
  method ExpandAll(q: NeighborPriorityQueue, ghost init: seq<nat>, graph: Graph, visited0: set<nat>, d: Distance,
                   searchInvocation: bool)
    returns (expanded: seq<Neighbor>)
    requires q.Valid(d) && q.capacity > 0 && q.seen == visited0 && q.popped == {}
    requires Closed(graph) && SearchInv(graph, init, visited0, {})
    modifies q, q.data
    ensures q.Valid(d) && q.capacity == old(q.capacity) && q.data == old(q.data)
    ensures SearchInv(graph, init, q.seen, q.popped)
    ensures forall v :: v in q.Contents() ==> v in q.popped
    ensures !searchInvocation ==> Expansion(d, expanded, q.popped)
  {
    var visited := visited0;
    expanded := [];
    while q.HasUnexpandedNode()
      invariant q.Valid(d) && q.seen == visited
      invariant q.data == old(q.data) && q.capacity == old(q.capacity)
      invariant SearchInv(graph, init, visited, q.popped)
      invariant !searchInvocation ==> Expansion(d, expanded, q.popped)
      decreases ReachSet(graph, init) - visited, visited - q.popped
    {
      var nbr;
      ghost var popped := q.popped;
      nbr, visited := Expand(q, init, graph, visited, d);
      if !searchInvocation {
        ExpansionGrows(d, expanded, popped, nbr);
        expanded := expanded + [nbr];
      }
    }
    AllExpanded(d, q);
  }

  lemma ExpansionGrows(d: Distance, expanded: seq<Neighbor>, popped: set<nat>, nbr: Neighbor)
    requires Expansion(d, expanded, popped) && nbr.id !in popped && nbr.distance == d(nbr.id)
    ensures Expansion(d, expanded + [nbr], popped + {nbr.id})
  {
    var ids := Ids(expanded);
    assert Ids(expanded + [nbr]) == ids + [nbr.id];
    assert forall i :: 0 <= i < |ids| ==> ids[i] in ids;
  }

  // Each expanded node once, with its distance.
  ghost predicate Expansion(d: Distance, expanded: seq<Neighbor>, popped: set<nat>) {
    && Distinct(Ids(expanded))
    && Elems(Ids(expanded)) == popped
    && (forall i :: 0 <= i < |expanded| ==> expanded[i].distance == d(expanded[i].id))
  }

  lemma AllExpanded(d: Distance, q: NeighborPriorityQueue)
    requires q.Valid(d) && q.cur == q.size
    ensures forall v :: v in q.Contents() ==> v in q.popped
  {
  }
}
