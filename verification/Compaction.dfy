/** compact_data (src/index.cpp:2614-2741): renumbering done in place, lists and rows being moved while later
    ones are still to be read. */
module Compaction {
  import opened GreedySearch
  import opened NaturalNumbers
  import opened Renumbering
  import opened SlotAccounting
  import opened Stores

  const UINT32_MAX: nat := 0xFFFF_FFFF

  // The simple specification: live locations move to their rank, frozen ones stay, the rest are dropped.
  ghost function Target(live: set<nat>, maxPoints: nat, v: nat): nat {
    if v >= maxPoints then v else if v in live then NewLocation(live, v) else UINT32_MAX
  }

  ghost predicate Survives(live: set<nat>, maxPoints: nat, v: nat) {
    v in live || v >= maxPoints
  }

  ghost predicate IsNumbering(newLocation: seq<nat>, live: set<nat>, maxPoints: nat) {
    && maxPoints <= |newLocation| <= UINT32_MAX
    && live <= Below(maxPoints)
    && forall v :: 0 <= v < |newLocation| ==> newLocation[v] == Target(live, maxPoints, v)
  }

  method NumberLocations(locationToTag: NaturalNumberMap, maxPoints: nat, frozen: nat)
    returns (newLocation: seq<nat>, emptyLocations: set<nat>)
    requires locationToTag.Valid() && locationToTag.Keys() <= Below(maxPoints) && maxPoints + frozen <= UINT32_MAX
    ensures |newLocation| == maxPoints + frozen && IsNumbering(newLocation, locationToTag.Keys(), maxPoints)
    ensures emptyLocations == Below(maxPoints) - locationToTag.Keys()
  {
    ghost var live := locationToTag.Keys();
    newLocation, emptyLocations := NumberLive(locationToTag, maxPoints, seq(maxPoints + frozen, _ => UINT32_MAX));
    for x := maxPoints to maxPoints + frozen
      invariant |newLocation| == maxPoints + frozen
      invariant forall v :: 0 <= v < x ==> newLocation[v] == Target(live, maxPoints, v)
    {
      newLocation := newLocation[x := x];
    }
  }

  // The first loop: live locations numbered in order, the others collected.
  method NumberLive(locationToTag: NaturalNumberMap, maxPoints: nat, initial: seq<nat>)
    returns (newLocation: seq<nat>, emptyLocations: set<nat>)
    requires locationToTag.Valid() && maxPoints <= |initial|
    requires forall v :: 0 <= v < |initial| ==> initial[v] == UINT32_MAX
    ensures |newLocation| == |initial|
    ensures forall v :: 0 <= v < maxPoints ==> newLocation[v] == Target(locationToTag.Keys(), maxPoints, v)
    ensures emptyLocations == Below(maxPoints) - locationToTag.Keys()
  {
    ghost var live := locationToTag.Keys();
    newLocation, emptyLocations := initial, {};
    var newCounter := 0;
    assert LiveBelow(live, 0) == {};
    for x := 0 to maxPoints
      invariant |newLocation| == |initial| && newCounter == NewLocation(live, x)
      invariant forall v :: 0 <= v < x ==> newLocation[v] == Target(live, maxPoints, v)
      invariant forall v :: x <= v < maxPoints ==> newLocation[v] == UINT32_MAX
      invariant emptyLocations == Below(x) - live
    {
      NewLocationStep(live, x);
      if locationToTag.Contains(x) {
        newLocation := newLocation[x := newCounter];
        newCounter := newCounter + 1;
      } else {
        emptyLocations := emptyLocations + {x};
      }
    }
  }

  // The surviving entries of a list, renumbered, in order.
  function Renumbered(list: seq<nat>, newLocation: seq<nat>, dropped: set<nat>): seq<nat>
    requires forall i :: 0 <= i < |list| ==> list[i] < |newLocation|
  {
    if list == [] then []
    else
      var n := |list| - 1;
      Renumbered(list[..n], newLocation, dropped) + if list[n] in dropped then [] else [newLocation[list[n]]]
  }

  method RenumberList(list: seq<nat>, newLocation: seq<nat>, emptyLocations: set<nat>)
    returns (r: seq<nat>, dangling: nat)
    requires forall i :: 0 <= i < |list| ==> list[i] < |newLocation|
    ensures r == Renumbered(list, newLocation, emptyLocations) && dangling == |list| - |r|
  {
    r, dangling := [], 0;
    for i := 0 to |list|
      invariant r == Renumbered(list[..i], newLocation, emptyLocations) && dangling == i - |r|
    {
      assert list[..i + 1][..i] == list[..i];
      if list[i] in emptyLocations {
        dangling := dangling + 1;
      } else {
        r := r + [newLocation[list[i]]];
      }
    }
    assert list[..|list|] == list;
  }

  // Without dangling entries the renumbered list is the pointwise image.
  lemma {:induction false} RenumberedImage(list: seq<nat>, newLocation: seq<nat>, dropped: set<nat>)
    requires forall i :: 0 <= i < |list| ==> list[i] < |newLocation| && list[i] !in dropped
    ensures |Renumbered(list, newLocation, dropped)| == |list|
    ensures forall i :: 0 <= i < |list| ==> Renumbered(list, newLocation, dropped)[i] == newLocation[list[i]]
  {
    if list != [] {
      var n := |list| - 1;
      RenumberedImage(list[..n], newLocation, dropped);
      assert Renumbered(list, newLocation, dropped) ==
             Renumbered(list[..n], newLocation, dropped) + [newLocation[list[n]]];
    }
  }

  /** Before location x is treated: what came before sits at its target, [rank(x), x) is blank, and what
      comes from x on is untouched. */
  ghost predicate Compacting(G: Graph, H: Graph, rows: seq<Vector>, rows': seq<Vector>, newLocation: seq<nat>,
                             live: set<nat>, maxPoints: nat, x: nat)
    requires Closed(G) && |newLocation| == |G|
  {
    && IsNumbering(newLocation, live, maxPoints)
    && |G| == |H| == |rows| == |rows'|
    && Placed(G, H, rows, rows', newLocation, live, maxPoints, x)
    && Blank(H, live, maxPoints, x)
    && (forall v :: x <= v < |G| ==> H[v] == G[v] && rows'[v] == rows[v])
  }

  ghost predicate Blank(H: Graph, live: set<nat>, maxPoints: nat, x: nat) {
    forall u :: NewLocation(live, x) <= u < x && u < maxPoints && u < |H| ==> H[u] == []
  }

  ghost predicate Placed(G: Graph, H: Graph, rows: seq<Vector>, rows': seq<Vector>, newLocation: seq<nat>,
                         live: set<nat>, maxPoints: nat, x: nat)
    requires Closed(G) && |newLocation| == |G| == |H| == |rows| == |rows'|
  {
    forall v :: 0 <= v < x && v < |G| && Survives(live, maxPoints, v) ==>
      && Target(live, maxPoints, v) < |G|
      && H[Target(live, maxPoints, v)] == Renumbered(G[v], newLocation, Below(maxPoints) - live)
      && rows'[Target(live, maxPoints, v)] == rows[v]
  }

  // One iteration of the loop over `old`.
  method CompactOne(g: GraphStore, ds: DataStore, newLocation: seq<nat>, emptyLocations: set<nat>, maxPoints: nat,
                    x: nat, ghost G: Graph, ghost rows: seq<Vector>, ghost live: set<nat>)
    returns (dangling: nat)
    requires g.Valid() && ds.Valid() && Closed(G) && |newLocation| == |G| && x < |G|
    requires emptyLocations == Below(maxPoints) - live
    requires Compacting(G, g.graph, rows, ds.data[..], newLocation, live, maxPoints, x)
    modifies g, ds.data
    ensures g.Valid() && ds.Valid()
    ensures Compacting(G, g.graph, rows, ds.data[..], newLocation, live, maxPoints, x + 1)
    ensures dangling == (
              if Survives(live, maxPoints, x) then |G[x]| - |Renumbered(G[x], newLocation, emptyLocations)| else 0
            )
  {
    NewLocationBounds(live, x);
    NewLocationStep(live, x);
    dangling := 0;
    ghost var H := g.graph;
    ghost var R := ds.data[..];
    if newLocation[x] < maxPoints || x >= maxPoints {
      var list;
      list, dangling := RenumberList(g.graph[x], newLocation, emptyLocations);
      g.SetNeighbours(x, list);
      if newLocation[x] != x {
        g.SwapNeighbours(newLocation[x], x);
        ds.CopyVectors(x, newLocation[x], 1);
      }
      SwappedIsMoved(H, g.graph, R, ds.data[..], list, newLocation[x], x);
      Moves(G, H, g.graph, rows, R, ds.data[..], newLocation, live, maxPoints, x);
    } else {
      g.ClearNeighbours(x);
      Drops(G, H, g.graph, rows, R, newLocation, live, maxPoints, x);
    }
  }

  // No earlier survivor sits where x sits or goes.
  lemma TargetsApart(live: set<nat>, maxPoints: nat, x: nat)
    requires Survives(live, maxPoints, x) && live <= Below(maxPoints)
    ensures forall v :: 0 <= v < x && Survives(live, maxPoints, v) ==>
              Target(live, maxPoints, v) != Target(live, maxPoints, x) && Target(live, maxPoints, v) != x
  {
    forall v | 0 <= v < x && Survives(live, maxPoints, v)
      ensures Target(live, maxPoints, v) != Target(live, maxPoints, x) && Target(live, maxPoints, v) != x
    {
      NewLocationBounds(live, v);
      NewLocationMonotone(live, v, x);
    }
  }

  lemma MovesPlaced(G: Graph, H: Graph, H': Graph, rows: seq<Vector>, R: seq<Vector>, R': seq<Vector>,
                    newLocation: seq<nat>, live: set<nat>, maxPoints: nat, x: nat)
    requires Closed(G) && |newLocation| == |G| == |H| == |H'| == |rows| == |R| == |R'| && x < |G|
    requires IsNumbering(newLocation, live, maxPoints) && Placed(G, H, rows, R, newLocation, live, maxPoints, x)
    requires Survives(live, maxPoints, x) && newLocation[x] <= x
    requires H'[newLocation[x]] == Renumbered(G[x], newLocation, Below(maxPoints) - live)
    requires R'[newLocation[x]] == rows[x]
    requires forall u :: 0 <= u < |G| && u != newLocation[x] && u != x ==> H'[u] == H[u] && R'[u] == R[u]
    ensures Placed(G, H', rows, R', newLocation, live, maxPoints, x + 1)
  {
    TargetsApart(live, maxPoints, x);
  }

  lemma MovesBlank(H: Graph, H': Graph, live: set<nat>, maxPoints: nat, x: nat, c: nat)
    requires Blank(H, live, maxPoints, x) && |H| == |H'| && x < |H|
    requires x < maxPoints ==> x in live && c == NewLocation(live, x) <= x && (c < x ==> H'[x] == H[c])
    requires x >= maxPoints ==> live <= Below(maxPoints) && c == x
    requires forall u :: 0 <= u < |H| && u != c && u != x ==> H'[u] == H[u]
    ensures Blank(H', live, maxPoints, x + 1)
  {
    NewLocationStep(live, x);
  }

  // Lists and rows after one survivor has moved from x to c.
  ghost predicate MovedOne(H: Graph, H': Graph, R: seq<Vector>, R': seq<Vector>, list: seq<nat>, c: nat, x: nat) {
    && |H| == |H'| == |R| == |R'| && c <= x < |H|
    && H'[c] == list && R'[c] == R[x]
    && (c < x ==> H'[x] == H[c])
    && forall u :: 0 <= u < |H| && u != c && u != x ==> H'[u] == H[u] && R'[u] == R[u]
  }

  lemma SwappedIsMoved(H: Graph, H': Graph, R: seq<Vector>, R': seq<Vector>, list: seq<nat>, c: nat, x: nat)
    requires |H| == |R| && c <= x < |H|
    requires var h := H[x := list]; H' == if c == x then h else h[c := h[x]][x := h[c]]
    requires R' == if c == x then R else Moved(R, x, c, 1)
    ensures MovedOne(H, H', R, R', list, c, x)
  {
  }

  lemma Moves(G: Graph, H: Graph, H': Graph, rows: seq<Vector>, R: seq<Vector>, R': seq<Vector>,
              newLocation: seq<nat>, live: set<nat>, maxPoints: nat, x: nat)
    requires Closed(G) && |newLocation| == |G| && x < |G| && Survives(live, maxPoints, x)
    requires Compacting(G, H, rows, R, newLocation, live, maxPoints, x)
    requires MovedOne(H, H', R, R', Renumbered(G[x], newLocation, Below(maxPoints) - live), newLocation[x], x)
    ensures Compacting(G, H', rows, R', newLocation, live, maxPoints, x + 1)
  {
    MovesPlaced(G, H, H', rows, R, R', newLocation, live, maxPoints, x);
    MovesBlank(H, H', live, maxPoints, x, newLocation[x]);
  }

  lemma Drops(G: Graph, H: Graph, H': Graph, rows: seq<Vector>, R: seq<Vector>,
              newLocation: seq<nat>, live: set<nat>, maxPoints: nat, x: nat)
    requires Closed(G) && |newLocation| == |G| && x < |G|
    requires Compacting(G, H, rows, R, newLocation, live, maxPoints, x)
    requires !Survives(live, maxPoints, x) && H' == H[x := []]
    ensures Compacting(G, H', rows, R, newLocation, live, maxPoints, x + 1)
  {
    NewLocationStep(live, x);
    forall v | 0 <= v < x && Survives(live, maxPoints, v) ensures Target(live, maxPoints, v) != x {
      NewLocationBounds(live, v);
    }
  }

  // Entries of surviving lists that name a location without a tag.
  ghost function Dangling(G: Graph, newLocation: seq<nat>, live: set<nat>, maxPoints: nat, n: nat): nat
    requires Closed(G) && |newLocation| == |G| && n <= |G|
  {
    if n == 0 then 0
    else
      Dangling(G, newLocation, live, maxPoints, n - 1) +
      if Survives(live, maxPoints, n - 1) then DanglingIn(G[n - 1], Below(maxPoints) - live) else 0
  }

  ghost function DanglingIn(list: seq<nat>, dropped: set<nat>): nat {
    if list == [] then 0
    else DanglingIn(list[..|list| - 1], dropped) + if list[|list| - 1] in dropped then 1 else 0
  }

  lemma {:induction false} RenumberedLength(list: seq<nat>, newLocation: seq<nat>, dropped: set<nat>)
    requires forall i :: 0 <= i < |list| ==> list[i] < |newLocation|
    ensures |list| - |Renumbered(list, newLocation, dropped)| == DanglingIn(list, dropped)
  {
    if list != [] {
      RenumberedLength(list[..|list| - 1], newLocation, dropped);
    }
  }

  /** The loop over all locations, in place, refines the renumbering: every survivor's renumbered list and its
      row are at its target, and the vacated lists are empty. */
  method CompactGraph(g: GraphStore, ds: DataStore, newLocation: seq<nat>, emptyLocations: set<nat>, maxPoints: nat,
                      ghost live: set<nat>)
    returns (numDangling: nat)
    requires g.Valid() && ds.Valid() && Closed(g.graph) && |newLocation| == |g.graph| == ds.data.Length
    requires emptyLocations == Below(maxPoints) - live && IsNumbering(newLocation, live, maxPoints)
    modifies g, ds.data
    ensures g.Valid() && ds.Valid()
    ensures Compacting(
              old(g.graph), g.graph, old(ds.data[..]), ds.data[..], newLocation, live, maxPoints, |newLocation|)
    ensures numDangling == Dangling(old(g.graph), newLocation, live, maxPoints, |newLocation|)
  {
    ghost var G := g.graph;
    ghost var rows := ds.data[..];
    numDangling := 0;
    for x := 0 to |newLocation|
      invariant g.Valid() && ds.Valid()
      invariant Compacting(G, g.graph, rows, ds.data[..], newLocation, live, maxPoints, x)
      invariant numDangling == Dangling(G, newLocation, live, maxPoints, x)
    {
      var dangling := CompactOne(g, ds, newLocation, emptyLocations, maxPoints, x, G, rows, live);
      DanglingNext(G, newLocation, live, maxPoints, x);
      numDangling := numDangling + dangling;
    }
  }

  lemma DanglingNext(G: Graph, newLocation: seq<nat>, live: set<nat>, maxPoints: nat, x: nat)
    requires Closed(G) && |newLocation| == |G| && x < |G|
    ensures Dangling(G, newLocation, live, maxPoints, x + 1) == Dangling(G, newLocation, live, maxPoints, x) +
              if Survives(live, maxPoints, x)
              then |G[x]| - |Renumbered(G[x], newLocation, Below(maxPoints) - live)|
              else 0
  {
    RenumberedLength(G[x], newLocation, Below(maxPoints) - live);
  }

  // Rebuilding _tag_to_location by enumerating _location_to_tag.
  method RebuildTagToLocation(locationToTag: NaturalNumberMap, newLocation: seq<nat>, ghost before: map<Tag, nat>)
    returns (tagToLocation: map<Tag, nat>)
    requires locationToTag.Valid() && Inverse(before, locationToTag.Contents())
    requires forall l :: l in locationToTag.Keys() ==> l < |newLocation|
    ensures tagToLocation.Keys == before.Keys
    ensures forall t :: t in before ==> before[t] < |newLocation| && tagToLocation[t] == newLocation[before[t]]
  {
    tagToLocation := map[];
    ghost var live := locationToTag.Keys();
    ghost var w := locationToTag.Contents();
    assert forall t :: t in before ==> before[t] in live;
    var pos := locationToTag.FindFirst();
    ghost var seen := 0;
    while pos.key.Some?
      invariant locationToTag.At(pos)
      invariant pos.key.Some? ==> seen <= pos.key.value && forall l :: l in live && l >= seen ==> l >= pos.key.value
      invariant pos.key.None? ==> forall l :: l in live ==> l < seen
      invariant forall t :: t in tagToLocation <==> t in before && before[t] < seen
      invariant forall t :: t in tagToLocation ==> tagToLocation[t] == newLocation[before[t]]
      decreases if pos.key.Some? then |locationToTag.bits| - pos.key.value else 0
    {
      var k := pos.key.value;
      var tag := locationToTag.values[k];
      assert w[k] == tag;
      tagToLocation := tagToLocation[tag := newLocation[k]];
      seen := k + 1;
      assert forall t :: t in before && before[t] < seen ==> before[t] == k || t in tagToLocation;
      pos := locationToTag.FindNext(pos);
      assert locationToTag.Keys() == live;
    }
    assert tagToLocation.Keys == before.Keys;
  }

  // Rebuilding _location_to_tag from the new _tag_to_location, whose entries come in any order.
  method RebuildLocationToTag(locationToTag: NaturalNumberMap, tagToLocation: map<Tag, nat>)
    requires locationToTag.Valid()
    requires forall t, u :: t in tagToLocation && u in tagToLocation && tagToLocation[t] == tagToLocation[u] ==> t == u
    modifies locationToTag
    ensures locationToTag.Valid() && Inverse(tagToLocation, locationToTag.Contents())
  {
    locationToTag.Clear();
    var rest := tagToLocation.Keys;
    while rest != {}
      invariant locationToTag.Valid() && rest <= tagToLocation.Keys
      invariant Inverse(tagToLocation - rest, locationToTag.Contents())
      decreases rest
    {
      var tag :| tag in rest;
      ghost var w := locationToTag.Contents();
      assert tagToLocation[tag] !in w;
      locationToTag.Set(tagToLocation[tag], tag);
      assert tagToLocation - (rest - {tag}) == (tagToLocation - rest)[tag := tagToLocation[tag]];
      rest := rest - {tag};
    }
    assert tagToLocation - {} == tagToLocation;
  }

  /** Consequences once the tag maps follow the same numbering: the adjacency on survivors is the isomorphic image of
      the old one, and every tag resolves to the row it resolved to before. */
  lemma CompactedIsomorphic(G: Graph, H: Graph, rows: seq<Vector>, rows': seq<Vector>, newLocation: seq<nat>,
                            live: set<nat>, maxPoints: nat)
    requires Closed(G) && |newLocation| == |G|
    requires Compacting(G, H, rows, rows', newLocation, live, maxPoints, |G|)
    requires forall v, w :: 0 <= v < |G| && Survives(live, maxPoints, v) && w in G[v] ==> Survives(live, maxPoints, w)
    ensures forall v: nat, w: nat ::
              Survives(live, maxPoints, v) && Survives(live, maxPoints, w) && v != w && v < |G| && w < |G| ==>
              Target(live, maxPoints, v) != Target(live, maxPoints, w)
    ensures forall v :: 0 <= v < |G| && Survives(live, maxPoints, v) ==>
              Target(live, maxPoints, v) < |G| &&
              |H[Target(live, maxPoints, v)]| == |G[v]| &&
              (forall i :: 0 <= i < |G[v]| ==> H[Target(live, maxPoints, v)][i] == Target(live, maxPoints, G[v][i]))
  {
    forall v: nat, w: nat | Survives(live, maxPoints, v) && Survives(live, maxPoints, w) && v != w && v < |G| && w < |G|
      ensures Target(live, maxPoints, v) != Target(live, maxPoints, w)
    {
      NewLocationBounds(live, v);
      NewLocationBounds(live, w);
      if v in live && w in live && v < maxPoints && w < maxPoints && NewLocation(live, v) == NewLocation(live, w) {
        NewLocationInjective(live, v, w);
      }
    }
    forall v | 0 <= v < |G| && Survives(live, maxPoints, v)
      ensures |H[Target(live, maxPoints, v)]| == |G[v]|
      ensures forall i :: 0 <= i < |G[v]| ==> H[Target(live, maxPoints, v)][i] == Target(live, maxPoints, G[v][i])
    {
      assert forall i :: 0 <= i < |G[v]| ==> G[v][i] in G[v] && Survives(live, maxPoints, G[v][i]);
      RenumberedImage(G[v], newLocation, Below(maxPoints) - live);
    }
  }
}
