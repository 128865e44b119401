/** reposition_points and the moves of the frozen points around a save (src/index.cpp:2593-2611, 2804-2910). */
module Reposition {
  import opened GreedySearch
  import opened Stores
  import GraphFile

  const TWO_TO_THE_32: nat := 0x1_0000_0000

  function InBlock(x: nat, start: nat, n: nat): bool {
    start <= x < start + n
  }

  // The renaming of one location when [from, from + n) moves to [to, to + n).
  function Renamed(x: nat, from: nat, to: nat, n: nat): nat {
    if InBlock(x, from, n) then x - from + to else x
  }

  function RenamedList(list: seq<nat>, from: nat, to: nat, n: nat): (r: seq<nat>)
    ensures |r| == |list| && forall i :: 0 <= i < |list| ==> r[i] == Renamed(list[i], from, to, n)
  {
    seq(|list|, i requires 0 <= i < |list| => Renamed(list[i], from, to, n))
  }

  /** The specification: the block's lists move, every entry is renamed, vacated lists are empty. */
  ghost predicate Relabelled(G: Graph, H: Graph, from: nat, to: nat, n: nat) {
    && |H| == |G|
    && from + n <= |G| && to + n <= |G|
    && forall x {:trigger H[x]} :: 0 <= x < |G| ==>
         (InBlock(x, to, n) ==> H[x] == RenamedList(G[x - to + from], from, to, n)) &&
         (!InBlock(x, to, n) && InBlock(x, from, n) ==> H[x] == []) &&
         (!InBlock(x, to, n) && !InBlock(x, from, n) ==> H[x] == RenamedList(G[x], from, to, n))
  }

  // The addition wraps around: with to < from the delta is 2^32 - (from - to).
  lemma WrapAround(loc: nat, from: nat, to: nat, n: nat)
    requires from + n < TWO_TO_THE_32 && to + n < TWO_TO_THE_32 && InBlock(loc, from, n)
    ensures (loc + (to - from) % TWO_TO_THE_32) % TWO_TO_THE_32 == loc - from + to
  {
    if to < from {
      assert (to - from) % TWO_TO_THE_32 == TWO_TO_THE_32 - (from - to);
    }
  }

  method RenameList(list: seq<nat>, from: nat, to: nat, n: nat) returns (r: seq<nat>)
    requires from + n < TWO_TO_THE_32 && to + n < TWO_TO_THE_32
    ensures r == RenamedList(list, from, to, n)
  {
    var delta := (to - from) % TWO_TO_THE_32;
    r := list;
    for i := 0 to |list|
      invariant |r| == |list|
      invariant forall k :: 0 <= k < |list| ==> r[k] == if k < i then Renamed(list[k], from, to, n) else list[k]
    {
      var loc := r[i];
      if loc >= from && loc < from + n {
        WrapAround(loc, from, to, n);
        r := r[i := (loc + delta) % TWO_TO_THE_32];
      }
    }
  }

  // The first loop: every list renamed where it stands.
  method RenameAll(g: GraphStore, from: nat, to: nat, n: nat)
    requires g.Valid() && from + n < TWO_TO_THE_32 && to + n < TWO_TO_THE_32
    modifies g
    ensures g.Valid() && |g.graph| == |old(g.graph)|
    ensures forall x :: 0 <= x < |g.graph| ==> g.graph[x] == RenamedList(old(g.graph)[x], from, to, n)
  {
    for x := 0 to |g.graph|
      invariant g.Valid() && |g.graph| == |old(g.graph)|
      invariant forall k :: 0 <= k < |g.graph| ==>
                  g.graph[k] == if k < x then RenamedList(old(g.graph)[k], from, to, n) else old(g.graph)[k]
    {
      var copy := RenameList(g.graph[x], from, to, n);
      g.SetNeighbours(x, copy);
    }
  }

  // Target slots outside the block are blank, as the code asserts in debug builds.
  ghost predicate TargetBlank(G: Graph, from: nat, to: nat, n: nat) {
    forall x :: 0 <= x < |G| && InBlock(x, to, n) && !InBlock(x, from, n) ==> G[x] == []
  }

  // Lists after moving onto blank slots, blocks overlapping or not.
  ghost predicate ListsMoved(G: Graph, H: Graph, from: nat, to: nat, n: nat) {
    && |H| == |G|
    && from + n <= |G| && to + n <= |G|
    && forall x {:trigger H[x]} :: 0 <= x < |G| ==>
         H[x] == if InBlock(x, to, n) then G[x - to + from] else if InBlock(x, from, n) then [] else G[x]
  }

  function Exchanged(G: Graph, a: nat, b: nat): (r: Graph)
    requires a < |G| && b < |G|
    ensures |r| == |G|
  {
    G[a := G[b]][b := G[a]]
  }

  // The swaps at offsets 0, 1, ..., n - 1.
  function SwapsDown(G: Graph, from: nat, to: nat, n: nat): (r: Graph)
    requires from + n <= |G| && to + n <= |G|
    ensures |r| == |G|
  {
    if n == 0 then G else Exchanged(SwapsDown(G, from, to, n - 1), to + n - 1, from + n - 1)
  }

  // The swaps at offsets n - 1, ..., 1, 0.
  function SwapsUp(G: Graph, from: nat, to: nat, n: nat): (r: Graph)
    requires from + n <= |G| && to + n <= |G|
    ensures |r| == |G|
    decreases n
  {
    if n == 0 then G else SwapsUp(Exchanged(G, to + n - 1, from + n - 1), from, to, n - 1)
  }

  // The swaps of one direction undo those of the other.
  lemma {:induction false} SwapsCancel(G: Graph, from: nat, to: nat, n: nat)
    requires from + n <= |G| && to + n <= |G|
    ensures SwapsUp(SwapsDown(G, from, to, n), to, from, n) == G
    decreases n
  {
    if n > 0 {
      var H := SwapsDown(G, from, to, n - 1);
      assert Exchanged(Exchanged(H, to + n - 1, from + n - 1), from + n - 1, to + n - 1) == H;
      SwapsCancel(G, from, to, n - 1);
    }
  }

  // Onto blank targets the swaps move the block, in either direction.
  lemma {:induction false} SwapsDownMove(G: Graph, from: nat, to: nat, n: nat)
    requires to < from && from + n <= |G| && TargetBlank(G, from, to, n)
    ensures ListsMoved(G, SwapsDown(G, from, to, n), from, to, n)
    decreases n
  {
    if n > 0 {
      SwapsDownMove(G, from, to, n - 1);
    }
  }

  lemma {:induction false} SwapsUpMove(G: Graph, from: nat, to: nat, n: nat)
    requires from < to && to + n <= |G| && TargetBlank(G, from, to, n)
    ensures ListsMoved(G, SwapsUp(G, from, to, n), from, to, n)
    decreases n
  {
    if n > 0 {
      var H := Exchanged(G, to + n - 1, from + n - 1);
      assert H[to + n - 1] == G[from + n - 1] && H[from + n - 1] == [];
      SwapsUpMove(H, from, to, n - 1);
    }
  }

  // Moving towards the front: in increasing order, each swap finding its target blank if all targets were.
  method MoveListsDown(g: GraphStore, from: nat, to: nat, n: nat)
    requires g.Valid() && to < from && from + n <= |g.graph|
    modifies g
    ensures g.Valid() && g.graph == SwapsDown(old(g.graph), from, to, n)
    ensures TargetBlank(old(g.graph), from, to, n) ==> ListsMoved(old(g.graph), g.graph, from, to, n)
  {
    ghost var G := g.graph;
    for off := 0 to n
      invariant g.Valid() && |g.graph| == |G| && g.graph == SwapsDown(G, from, to, off)
    {
      g.SwapNeighbours(to + off, from + off);
    }
    if TargetBlank(G, from, to, n) {
      SwapsDownMove(G, from, to, n);
    }
  }

  // Moving towards the back: in decreasing order.
  method MoveListsUp(g: GraphStore, from: nat, to: nat, n: nat)
    requires g.Valid() && from < to && to + n <= |g.graph|
    modifies g
    ensures g.Valid() && g.graph == SwapsUp(old(g.graph), from, to, n)
    ensures TargetBlank(old(g.graph), from, to, n) ==> ListsMoved(old(g.graph), g.graph, from, to, n)
  {
    ghost var G := g.graph;
    for off := n downto 0
      invariant g.Valid() && |g.graph| == |G| && SwapsUp(g.graph, from, to, off) == SwapsUp(G, from, to, n)
    {
      g.SwapNeighbours(to + off, from + off);
    }
    if TargetBlank(G, from, to, n) {
      SwapsUpMove(G, from, to, n);
    }
  }

  function RenamedGraph(G: Graph, from: nat, to: nat, n: nat): (r: Graph)
    ensures |r| == |G| && forall x :: 0 <= x < |G| ==> r[x] == RenamedList(G[x], from, to, n)
  {
    seq(|G|, x requires 0 <= x < |G| => RenamedList(G[x], from, to, n))
  }

  // What reposition_points does to the lists, whatever the target slots hold.
  function Repositioned(G: Graph, from: nat, to: nat, n: nat): (r: Graph)
    requires from + n <= |G| && to + n <= |G|
    ensures |r| == |G|
  {
    if from == to then G
    else if to < from then SwapsDown(RenamedGraph(G, from, to, n), from, to, n)
    else SwapsUp(RenamedGraph(G, from, to, n), from, to, n)
  }

  lemma RenamingNothing(G: Graph, from: nat, to: nat, n: nat)
    requires n == 0 || from == to
    ensures RenamedGraph(G, from, to, n) == G
  {
    forall x | 0 <= x < |G| ensures RenamedList(G[x], from, to, n) == G[x] {
      assert forall i :: 0 <= i < |G[x]| ==> Renamed(G[x][i], from, to, n) == G[x][i];
    }
  }

  method RepositionPoints(g: GraphStore, ds: DataStore, from: nat, to: nat, n: nat)
    requires g.Valid() && ds.Valid() && |g.graph| == ds.data.Length < TWO_TO_THE_32
    requires from + n <= |g.graph| && to + n <= |g.graph|
    modifies g, ds.data
    ensures g.Valid() && ds.Valid() && g.graph == Repositioned(old(g.graph), from, to, n)
    ensures TargetBlank(old(g.graph), from, to, n) ==> Relabelled(old(g.graph), g.graph, from, to, n)
    ensures ds.data[..] == MovedAndCleared(old(ds.data[..]), from, to, n, ZeroVector(ds.alignedDim))
  {
    if n == 0 || from == to {
      RenamingNothing(g.graph, from, to, n);
      return;
    }
    ghost var G := g.graph;
    RenameAll(g, from, to, n);
    ghost var R := g.graph;
    assert R == RenamedGraph(G, from, to, n);
    assert TargetBlank(G, from, to, n) ==> TargetBlank(R, from, to, n);
    if to < from {
      MoveListsDown(g, from, to, n);
    } else {
      MoveListsUp(g, from, to, n);
    }
    if TargetBlank(G, from, to, n) {
      MovedIsRelabelled(G, R, g.graph, from, to, n);
    }
    ds.MoveVectors(from, to, n);
  }

  lemma MovedIsRelabelled(G: Graph, R: Graph, H: Graph, from: nat, to: nat, n: nat)
    requires R == RenamedGraph(G, from, to, n) && ListsMoved(R, H, from, to, n)
    ensures Relabelled(G, H, from, to, n)
  {
  }

  /** Relabelling is one renaming of the whole graph: w is a neighbour of v before exactly when the renamed w is a
      neighbour of the renamed v after, position by position, for all v except the overwritten
      blank slots. */
  lemma RelabelledIsomorphic(G: Graph, H: Graph, from: nat, to: nat, n: nat)
    requires Relabelled(G, H, from, to, n)
    ensures forall v :: 0 <= v < |G| && (InBlock(v, from, n) || !InBlock(v, to, n)) ==>
              Renamed(v, from, to, n) < |G| &&
              H[Renamed(v, from, to, n)] == RenamedList(G[v], from, to, n)
  {
    forall v | 0 <= v < |G| && (InBlock(v, from, n) || !InBlock(v, to, n))
      ensures Renamed(v, from, to, n) < |G| && H[Renamed(v, from, to, n)] == RenamedList(G[v], from, to, n)
    {
      var x := Renamed(v, from, to, n);
      if InBlock(v, from, n) {
        assert InBlock(x, to, n) && H[x] == RenamedList(G[x - to + from], from, to, n);
      } else {
        assert H[v] == RenamedList(G[v], from, to, n);
      }
    }
  }

  // How many slots below maxPoints the frozen block lands on.
  function Landing(nd: nat, maxPoints: nat, frozen: nat): nat
    requires nd <= maxPoints
  {
    if frozen < maxPoints - nd then frozen else maxPoints - nd
  }

  // No list entry names a slot the frozen block lands on.
  ghost predicate Avoids(G: Graph, nd: nat, maxPoints: nat, frozen: nat)
    requires nd <= maxPoints
  {
    forall v, i :: 0 <= v < |G| && 0 <= i < |G[v]| ==> !InBlock(G[v][i], nd, Landing(nd, maxPoints, frozen))
  }

  // Swapping lists and renaming entries do not interfere.
  lemma {:induction false} RenamedSwaps(G: Graph, a: nat, b: nat, n: nat, from: nat, to: nat, m: nat)
    requires a + n <= |G| && b + n <= |G|
    ensures SwapsUp(RenamedGraph(G, from, to, m), a, b, n) == RenamedGraph(SwapsUp(G, a, b, n), from, to, m)
    decreases n
  {
    if n > 0 {
      var H := Exchanged(G, b + n - 1, a + n - 1);
      assert Exchanged(RenamedGraph(G, from, to, m), b + n - 1, a + n - 1) == RenamedGraph(H, from, to, m);
      RenamedSwaps(H, a, b, n - 1, from, to, m);
    }
  }

  // Down and back up, an entry naming a slot the block lands on is left naming a frozen point instead.
  lemma RenamedTwice(list: seq<nat>, nd: nat, maxPoints: nat, frozen: nat)
    requires nd <= maxPoints
    ensures RenamedList(RenamedList(list, maxPoints, nd, frozen), nd, maxPoints, frozen)
         == RenamedList(list, nd, maxPoints, Landing(nd, maxPoints, frozen))
  {
  }

  /** There and back, whatever the lists past nd hold: every list is back in its place, and an entry changes exactly if
      it names one of the slots the frozen block landed on. */
  lemma ThereAndBack(G: Graph, nd: nat, maxPoints: nat, frozen: nat)
    requires nd < maxPoints && |G| == maxPoints + frozen
    ensures Repositioned(Repositioned(G, maxPoints, nd, frozen), nd, maxPoints, frozen)
         == RenamedGraph(G, nd, maxPoints, Landing(nd, maxPoints, frozen))
  {
    var R := RenamedGraph(G, maxPoints, nd, frozen);
    RenamedSwaps(SwapsDown(R, maxPoints, nd, frozen), nd, maxPoints, frozen, nd, maxPoints, frozen);
    SwapsCancel(R, maxPoints, nd, frozen);
    forall v | 0 <= v < |G|
      ensures RenamedList(R[v], nd, maxPoints, frozen) ==
              RenamedList(G[v], nd, maxPoints, Landing(nd, maxPoints, frozen))
    {
      RenamedTwice(G[v], nd, maxPoints, frozen);
    }
  }

  /** The graph is restored if and only if no list names a slot the block lands on. */
  lemma RoundTrip(G: Graph, nd: nat, maxPoints: nat, frozen: nat)
    requires nd <= maxPoints && |G| == maxPoints + frozen
    ensures RenamedGraph(G, nd, maxPoints, Landing(nd, maxPoints, frozen)) == G <==> Avoids(G, nd, maxPoints, frozen)
  {
    var m := Landing(nd, maxPoints, frozen);
    var K := RenamedGraph(G, nd, maxPoints, m);
    if K == G {
      forall v, i | 0 <= v < |G| && 0 <= i < |G[v]| ensures !InBlock(G[v][i], nd, m) {
        assert K[v][i] == G[v][i];
      }
    }
    if Avoids(G, nd, maxPoints, frozen) {
      forall v | 0 <= v < |G| ensures K[v] == G[v] {
        assert forall i :: 0 <= i < |G[v]| ==> K[v][i] == G[v][i];
      }
    }
  }

  function Cleared<T>(rows: seq<T>, lo: nat, n: nat, blank: T): (r: seq<T>)
    ensures |r| == |rows| && forall x :: 0 <= x < |rows| ==> r[x] == if InBlock(x, lo, n) then blank else rows[x]
  {
    seq(|rows|, x requires 0 <= x < |rows| => if InBlock(x, lo, n) then blank else rows[x])
  }

  lemma RowsThereAndBack<T>(rows: seq<T>, nd: nat, maxPoints: nat, frozen: nat, blank: T)
    requires nd < maxPoints && |rows| == maxPoints + frozen
    ensures MovedAndCleared(MovedAndCleared(rows, maxPoints, nd, frozen, blank), nd, maxPoints, frozen, blank)
         == Cleared(rows, nd, Landing(nd, maxPoints, frozen), blank)
  {
  }

  // ---- what is written between the two moves ----

  // The location whose list and row are written at place i: the occupied prefix, then the frozen points.
  function Origin(i: nat, nd: nat, maxPoints: nat): nat {
    if i < nd then i else i - nd + maxPoints
  }

  function ListsToSave(G: Graph, nd: nat, maxPoints: nat, frozen: nat): (r: Graph)
    requires nd <= maxPoints && |G| == maxPoints + frozen
    ensures |r| == nd + frozen
  {
    seq(nd + frozen, i requires 0 <= i < nd + frozen => RenamedList(G[Origin(i, nd, maxPoints)], maxPoints, nd, frozen))
  }

  function RowsToSave(rows: seq<Vector>, nd: nat, maxPoints: nat, frozen: nat, dim: nat): (r: seq<Vector>)
    requires nd <= maxPoints && |rows| == maxPoints + frozen
    requires forall i :: 0 <= i < |rows| ==> dim <= |rows[i]|
    ensures |r| == nd + frozen
  {
    seq(nd + frozen, i requires 0 <= i < nd + frozen => rows[Origin(i, nd, maxPoints)][..dim])
  }

  ghost predicate BroughtDown(G: Graph, H: Graph, from: nat, to: nat, n: nat)
    requires to < from && from + n <= |G| == |H|
  {
    && (forall x {:trigger H[x]} :: 0 <= x < to || from + n <= x < |G| ==> H[x] == G[x])
    && (forall x {:trigger H[x]} :: to <= x < to + n ==> H[x] == G[x - to + from])
  }

  // Downward swaps bring the block's lists to the target in order, whatever lies there.
  lemma {:induction false} SwapsDownTake(G: Graph, from: nat, to: nat, n: nat)
    requires to < from && from + n <= |G|
    ensures BroughtDown(G, SwapsDown(G, from, to, n), from, to, n)
    decreases n
  {
    if n > 0 {
      var H := SwapsDown(G, from, to, n - 1);
      SwapsDownTake(G, from, to, n - 1);
      assert H[from + n - 1] == G[from + n - 1];
    }
  }

  /** With the frozen points moved down, the first nd + frozen lists are those to save, whatever lay past nd. */
  lemma MovedDownLists(G: Graph, H: Graph, nd: nat, maxPoints: nat, frozen: nat)
    requires nd <= maxPoints && |G| == maxPoints + frozen
    requires H == ListsDown(G, nd, maxPoints, frozen)
    ensures H[..nd + frozen] == ListsToSave(G, nd, maxPoints, frozen)
  {
    var R := RenamedGraph(G, maxPoints, nd, frozen);
    if nd == maxPoints || frozen == 0 {
      RenamingNothing(G, maxPoints, nd, frozen);
    } else {
      SwapsDownTake(R, maxPoints, nd, frozen);
    }
    var written, lists := H[..nd + frozen], ListsToSave(G, nd, maxPoints, frozen);
    forall i | 0 <= i < nd + frozen ensures written[i] == lists[i] {
      assert H[i] == R[Origin(i, nd, maxPoints)];
    }
    assert written == lists;
  }

  lemma MovedDownRow<T>(rows: seq<T>, nd: nat, maxPoints: nat, frozen: nat, blank: T, i: nat)
    requires nd < maxPoints && |rows| == maxPoints + frozen && i < nd + frozen
    ensures MovedAndCleared(rows, maxPoints, nd, frozen, blank)[i] == rows[Origin(i, nd, maxPoints)]
  {
  }

  // The rows are those to save.
  lemma MovedDownRows(rows: seq<Vector>, rows': seq<Vector>, nd: nat, maxPoints: nat, frozen: nat, dim: nat,
                      blank: Vector)
    requires nd <= maxPoints && |rows| == maxPoints + frozen && forall i :: 0 <= i < |rows| ==> dim <= |rows[i]|
    requires rows' == RowsDown(rows, nd, maxPoints, frozen, blank)
    ensures IsSaved(rows', RowsToSave(rows, nd, maxPoints, frozen, dim), dim)
  {
    var saved := RowsToSave(rows, nd, maxPoints, frozen, dim);
    forall i | 0 <= i < nd + frozen ensures dim <= |rows'[i]| && rows'[i][..dim] == saved[i] {
      if nd < maxPoints && frozen > 0 {
        MovedDownRow(rows, nd, maxPoints, frozen, blank, i);
      }
      assert rows'[i] == rows[Origin(i, nd, maxPoints)];
    }
  }

  ghost predicate IsSaved(rows: seq<Vector>, saved: seq<Vector>, dim: nat) {
    && |saved| <= |rows|
    && forall i :: 0 <= i < |saved| ==> dim <= |rows[i]| && rows[i][..dim] == saved[i]
  }

  // The lists after one move of the frozen points, or none if there is nothing to move.
  function ListsDown(G: Graph, nd: nat, maxPoints: nat, frozen: nat): (r: Graph)
    requires nd <= maxPoints && |G| == maxPoints + frozen
    ensures |r| == |G|
  {
    if nd == maxPoints || frozen == 0 then G else Repositioned(G, maxPoints, nd, frozen)
  }

  function ListsUp(G: Graph, nd: nat, maxPoints: nat, frozen: nat): (r: Graph)
    requires nd <= maxPoints && |G| == maxPoints + frozen
    ensures |r| == |G|
  {
    if nd == maxPoints || frozen == 0 then G else Repositioned(G, nd, maxPoints, frozen)
  }

  function RowsDown<T>(rows: seq<T>, nd: nat, maxPoints: nat, frozen: nat, blank: T): (r: seq<T>)
    requires nd <= maxPoints && |rows| == maxPoints + frozen
    ensures |r| == |rows|
  {
    if nd == maxPoints || frozen == 0 then rows else MovedAndCleared(rows, maxPoints, nd, frozen, blank)
  }

  function RowsUp<T>(rows: seq<T>, nd: nat, maxPoints: nat, frozen: nat, blank: T): (r: seq<T>)
    requires nd <= maxPoints && |rows| == maxPoints + frozen
    ensures |r| == |rows|
  {
    if nd == maxPoints || frozen == 0 then rows else MovedAndCleared(rows, nd, maxPoints, frozen, blank)
  }

  lemma ListsReturned(G: Graph, nd: nat, maxPoints: nat, frozen: nat)
    requires nd <= maxPoints && |G| == maxPoints + frozen
    ensures ListsUp(ListsDown(G, nd, maxPoints, frozen), nd, maxPoints, frozen)
         == RenamedGraph(G, nd, maxPoints, Landing(nd, maxPoints, frozen))
  {
    if nd == maxPoints || frozen == 0 {
      RenamingNothing(G, nd, maxPoints, 0);
    } else {
      ThereAndBack(G, nd, maxPoints, frozen);
    }
  }

  lemma RowsReturned<T>(rows: seq<T>, nd: nat, maxPoints: nat, frozen: nat, blank: T)
    requires nd <= maxPoints && |rows| == maxPoints + frozen
    ensures RowsUp(RowsDown(rows, nd, maxPoints, frozen, blank), nd, maxPoints, frozen, blank)
         == Cleared(rows, nd, Landing(nd, maxPoints, frozen), blank)
  {
    if nd < maxPoints && frozen > 0 {
      RowsThereAndBack(rows, nd, maxPoints, frozen, blank);
    }
  }

  class FrozenIndex {
    const maxPoints: nat
    const numFrozen: nat
    const graphStore: GraphStore
    const dataStore: DataStore
    var nd: nat
    var start: nat

    constructor (maxPoints: nat, numFrozen: nat, nd: nat, start: nat, g: GraphStore, ds: DataStore)
      ensures this.maxPoints == maxPoints && this.numFrozen == numFrozen && this.nd == nd && this.start == start
      ensures graphStore == g && dataStore == ds
    {
      this.maxPoints, this.numFrozen, this.nd, this.start := maxPoints, numFrozen, nd, start;
      graphStore, dataStore := g, ds;
    }

    ghost predicate Valid()
      reads this, graphStore, dataStore, dataStore.data
    {
      && graphStore.Valid() && dataStore.Valid() && nd <= maxPoints
      && |graphStore.graph| == maxPoints + numFrozen == dataStore.data.Length < TWO_TO_THE_32
    }

    method CompactFrozenPoint()
      requires Valid()
      modifies this`start, graphStore, dataStore.data
      ensures Valid() && start == if nd == maxPoints || numFrozen == 0 then old(start) else nd
      ensures graphStore.graph == ListsDown(old(graphStore.graph), nd, maxPoints, numFrozen)
      ensures dataStore.data[..] ==
              RowsDown(old(dataStore.data[..]), nd, maxPoints, numFrozen, ZeroVector(dataStore.alignedDim))
      ensures nd < maxPoints && numFrozen > 0 && TargetBlank(old(graphStore.graph), maxPoints, nd, numFrozen) ==>
                Relabelled(old(graphStore.graph), graphStore.graph, maxPoints, nd, numFrozen)
    {
      if nd < maxPoints && numFrozen > 0 {
        RepositionPoints(graphStore, dataStore, maxPoints, nd, numFrozen);
        start := nd;
      }
    }

    method RepositionFrozenPointToEnd()
      requires Valid()
      modifies this`start, graphStore, dataStore.data
      ensures Valid() && start == if nd == maxPoints || numFrozen == 0 then old(start) else maxPoints
      ensures graphStore.graph == ListsUp(old(graphStore.graph), nd, maxPoints, numFrozen)
      ensures dataStore.data[..] ==
              RowsUp(old(dataStore.data[..]), nd, maxPoints, numFrozen, ZeroVector(dataStore.alignedDim))
      ensures nd < maxPoints && numFrozen > 0 && TargetBlank(old(graphStore.graph), nd, maxPoints, numFrozen) ==>
                Relabelled(old(graphStore.graph), graphStore.graph, nd, maxPoints, numFrozen)
    {
      if numFrozen == 0 {
        return;
      }
      if nd == maxPoints {
        return;
      }
      RepositionPoints(graphStore, dataStore, nd, maxPoints, numFrozen);
      start := maxPoints;
    }

    /** What save does to the frozen points and what it writes meanwhile, whatever lies past nd. The files hold the
        lists and rows of the occupied prefix and of the frozen points behind it. Then the start and every list's place
        are restored, and the graph exactly when no list names a slot the block lands on; the rows of those slots are
        left zero and all others, live or frozen, are restored. */
    method MoveThereAndBack() returns (graphFile: seq<nat>, vectors: seq<Vector>)
      requires Valid() && start == maxPoints
      modifies this`start, graphStore, dataStore.data
      ensures Valid() && start == maxPoints
      ensures var lists := ListsToSave(old(graphStore.graph), nd, maxPoints, numFrozen);
              && graphFile == GraphFile.Encoded(
                                lists, GraphFile.MaxDegree(lists), if numFrozen > 0 then nd else maxPoints, numFrozen)
      ensures vectors == RowsToSave(old(dataStore.data[..]), nd, maxPoints, numFrozen, dataStore.dim)
      ensures graphStore.graph ==
                RenamedGraph(old(graphStore.graph), nd, maxPoints, Landing(nd, maxPoints, numFrozen))
      ensures graphStore.graph == old(graphStore.graph) <==> Avoids(old(graphStore.graph), nd, maxPoints, numFrozen)
      ensures dataStore.data[..] ==
                Cleared(
                  old(dataStore.data[..]), nd, Landing(nd, maxPoints, numFrozen), ZeroVector(dataStore.alignedDim))
    {
      ghost var G, rows := graphStore.graph, dataStore.data[..];
      RoundTrip(G, nd, maxPoints, numFrozen);
      CompactFrozenPoint();
      MovedDownLists(G, graphStore.graph, nd, maxPoints, numFrozen);
      MovedDownRows(rows, dataStore.data[..], nd, maxPoints, numFrozen, dataStore.dim,
                    ZeroVector(dataStore.alignedDim));
      graphFile, vectors := WriteFiles(ListsToSave(G, nd, maxPoints, numFrozen),
                                       RowsToSave(rows, nd, maxPoints, numFrozen, dataStore.dim));
      RepositionFrozenPointToEnd();
      ListsReturned(G, nd, maxPoints, numFrozen);
      RowsReturned(rows, nd, maxPoints, numFrozen, ZeroVector(dataStore.alignedDim));
    }

    // save_graph and save_data, the frozen points being at nd.
    method WriteFiles(ghost lists: Graph, ghost saved: seq<Vector>) returns (graphFile: seq<nat>, vectors: seq<Vector>)
      requires Valid() && graphStore.graph[..nd + numFrozen] == lists && |saved| == nd + numFrozen
      requires IsSaved(dataStore.data[..], saved, dataStore.dim)
      ensures graphFile == GraphFile.Encoded(lists, GraphFile.MaxDegree(lists), start, numFrozen) && vectors == saved
    {
      var size;
      graphFile, size := GraphFile.SaveGraph(graphStore, nd + numFrozen, numFrozen, start);
      vectors := dataStore.Save(nd + numFrozen);
    }
  }
}
