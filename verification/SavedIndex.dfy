/** save with compaction and load (src/index.cpp:197-400, 405-660): what a save does to the index in memory, what it
    writes, and what comes back. */
module SavedIndex {
  import opened GreedySearch
  import opened NeighborOrder
  import opened Occlusion
  import opened RobustPrune
  import opened NaturalNumbers
  import opened Renumbering
  import opened Reposition
  import opened RowSpace
  import opened SlotAccounting
  import opened Stores
  import opened DynamicIndex
  import opened Wrappers
  import GraphFile
  import IndexRuns

  // The four files of a save.
  datatype Files = Files(graph: seq<nat>, vectors: seq<Vector>, tags: seq<Tag>, deleted: set<nat>)

  // What a save has before it when it starts to write.
  datatype Snapshot = Snapshot(maxPoints: nat, numFrozen: nat, dim: nat, nd: nat, graph: Graph, rows: seq<Vector>,
                               tags: map<Tag, nat>, locations: map<nat, Tag>, deleted: set<nat>)
  {
    ghost predicate Sound() {
      && nd <= maxPoints && 0 < numFrozen && |graph| == |rows| == maxPoints + numFrozen
      && Inverse(tags, locations) && locations.Keys !! deleted
      && forall i :: 0 <= i < |rows| ==> dim <= |rows[i]|
    }

    // The occupied slots are [0, nd), and they and the frozen points have no edge past nd but to frozen points.
    ghost predicate Prefix() {
      && locations.Keys + deleted == Below(nd)
      && forall v, w :: 0 <= v < |graph| && (v < nd || maxPoints <= v) && w in graph[v] ==>
           w < nd || maxPoints <= w < |graph|
    }
  }

  ghost function Taken(ix: Index): Snapshot
    reads ix, ix.emptySlots, ix.locationToTag, ix.graphStore, ix.dataStore, ix.dataStore.data
    requires ix.SlotsValid()
  {
    Snapshot(ix.maxPoints, ix.numFrozen, ix.dataStore.dim, ix.nd, ix.graphStore.graph, ix.dataStore.data[..],
             ix.tagToLocation, ix.locationToTag.Contents(), ix.deleteSet)
  }

  // The tags by location, 0 where there is none and for the frozen points.
  function TagsToSave(locations: map<nat, Tag>, nd: nat, numFrozen: nat): (r: seq<Tag>)
    ensures |r| == nd + numFrozen
  {
    seq(nd + numFrozen, i requires 0 <= i < nd + numFrozen => if i < nd && i in locations then locations[i] else 0)
  }

  ghost predicate Writes(files: Files, st: Snapshot)
    requires st.Sound()
  {
    var lists := ListsToSave(st.graph, st.nd, st.maxPoints, st.numFrozen);
    && files.graph == GraphFile.Encoded(lists, GraphFile.MaxDegree(lists), st.nd, st.numFrozen)
    && files.vectors == RowsToSave(st.rows, st.nd, st.maxPoints, st.numFrozen, st.dim)
    && files.tags == TagsToSave(st.locations, st.nd, st.numFrozen)
    && files.deleted == st.deleted
  }

  // save_tags
  method SaveTags(locations: NaturalNumberMap, nd: nat, numFrozen: nat) returns (tags: seq<Tag>)
    requires locations.Valid()
    ensures tags == TagsToSave(locations.Contents(), nd, numFrozen)
  {
    tags := [];
    for i := 0 to nd
      invariant |tags| == i
      invariant forall k :: 0 <= k < i ==>
                  tags[k] == if k in locations.Contents() then locations.Contents()[k] else 0
    {
      var tag := locations.TryGet(i);
      tags := tags + [if tag.Some? then tag.value else 0];
    }
    tags := tags + seq(numFrozen, _ => 0);
  }

  // Every tag resolves after the save to what it resolved to before.
  ghost predicate Unharmed(tags: map<Tag, nat>, rows: seq<Vector>, rows': seq<Vector>) {
    forall t :: t in tags ==> ResolveIn(tags, rows', t) == ResolveIn(tags, rows, t)
  }

  // Live locations the frozen block lands on hold zero rows.
  ghost predicate LandsOnZero(rows: seq<Vector>, live: set<nat>, nd: nat, m: nat, blank: Vector) {
    forall l :: l in live && InBlock(l, nd, m) && l < |rows| ==> rows[l] == blank
  }

  // Entries renamed to frozen locations keep the graph closed and off the empty slots.
  lemma RenamedValid(G: Graph, nd: nat, maxPoints: nat, frozen: nat, empty: set<nat>)
    requires nd <= maxPoints && |G| == maxPoints + frozen && Closed(G) && NoDangling(G, empty)
    requires empty <= Below(maxPoints)
    ensures var K := RenamedGraph(G, nd, maxPoints, Landing(nd, maxPoints, frozen));
            Closed(K) && NoDangling(K, empty)
  {
    var m := Landing(nd, maxPoints, frozen);
    var K := RenamedGraph(G, nd, maxPoints, m);
    forall v, i | 0 <= v < |K| && 0 <= i < |K[v]| ensures K[v][i] < |K| && (v !in empty ==> K[v][i] !in empty) {
      assert G[v][i] in G[v] && K[v][i] == Renamed(G[v][i], nd, maxPoints, m);
    }
    forall v, w | 0 <= v < |K| && v !in empty && w in K[v] ensures w !in empty {
      var i :| 0 <= i < |K[v]| && K[v][i] == w;
    }
  }

  // compact_frozen_point, and after the files are written reposition_frozen_point_to_end.
  method MoveFrozen(ix: Index) returns (graphFile: seq<nat>, vectors: seq<Vector>)
    requires ix.Valid() && ix.nd <= ix.maxPoints
    modifies ix.graphStore, ix.dataStore.data
    ensures ix.Valid()
    ensures var lists := ListsToSave(old(ix.graphStore.graph), ix.nd, ix.maxPoints, ix.numFrozen);
            graphFile == GraphFile.Encoded(lists, GraphFile.MaxDegree(lists), ix.nd, ix.numFrozen)
    ensures vectors == RowsToSave(old(ix.dataStore.data[..]), ix.nd, ix.maxPoints, ix.numFrozen, ix.dataStore.dim)
    ensures var m := Landing(ix.nd, ix.maxPoints, ix.numFrozen);
            && ix.graphStore.graph == RenamedGraph(old(ix.graphStore.graph), ix.nd, ix.maxPoints, m)
            && ix.dataStore.data[..] ==
                 Cleared(old(ix.dataStore.data[..]), ix.nd, m, ZeroVector(ix.dataStore.alignedDim))
  {
    PartitionSets(ix.Quiet());
    RenamedValid(ix.graphStore.graph, ix.nd, ix.maxPoints, ix.numFrozen, ix.emptySlots.Contents());
    var frozen := new FrozenIndex(ix.maxPoints, ix.numFrozen, ix.nd, ix.maxPoints, ix.graphStore, ix.dataStore);
    graphFile, vectors := frozen.MoveThereAndBack();
  }

  /** After a completed compaction the round trip is the identity: no list names a slot past nd and no live location
      lies there. */
  lemma CompactedRoundTrip(G: Graph, tags: map<Tag, nat>, rows: seq<Vector>, nd: nat, maxPoints: nat, frozen: nat,
                           blank: Vector)
    requires nd <= maxPoints && |G| == maxPoints + frozen && NoDangling(G, Below(maxPoints) - Below(nd))
    requires BlankPast(G, nd, maxPoints)
    requires forall t :: t in tags ==> tags[t] < nd
    ensures RenamedGraph(G, nd, maxPoints, Landing(nd, maxPoints, frozen)) == G
    ensures Unharmed(tags, rows, Cleared(rows, nd, Landing(nd, maxPoints, frozen), blank))
  {
    RoundTrip(G, nd, maxPoints, frozen);
    forall v, i | 0 <= v < |G| && 0 <= i < |G[v]| ensures !InBlock(G[v][i], nd, Landing(nd, maxPoints, frozen)) {
      assert G[v] != [] && v !in Below(maxPoints) - Below(nd);
      assert G[v][i] in G[v] && G[v][i] !in Below(maxPoints) - Below(nd);
    }
  }

  // A tag keeps its vector exactly if its location is not cleared or held a zero row.
  lemma UnharmedIff(tags: map<Tag, nat>, locations: map<nat, Tag>, rows: seq<Vector>, nd: nat, m: nat, blank: Vector)
    requires Inverse(tags, locations)
    ensures Unharmed(tags, rows, Cleared(rows, nd, m, blank)) <==> LandsOnZero(rows, locations.Keys, nd, m, blank)
  {
    var rows' := Cleared(rows, nd, m, blank);
    if Unharmed(tags, rows, rows') {
      forall l | l in locations.Keys && InBlock(l, nd, m) && l < |rows| ensures rows[l] == blank {
        assert ResolveIn(tags, rows', locations[l]) == ResolveIn(tags, rows, locations[l]);
      }
    }
    if LandsOnZero(rows, locations.Keys, nd, m, blank) {
      forall t | t in tags ensures ResolveIn(tags, rows', t) == ResolveIn(tags, rows, t) {
        assert tags[t] in locations.Keys;
      }
    }
  }

  // What moving the frozen points down and back leaves: the rows from nd on that the block landed on are zero, entries
  // naming them are renamed, and every tag keeps its vector exactly if each live location among them held a zero row.
  ghost predicate MovedBack(st: Snapshot, H: Graph, rows: seq<Vector>, blank: Vector)
    requires st.Sound()
  {
    var m := Landing(st.nd, st.maxPoints, st.numFrozen);
    && H == RenamedGraph(st.graph, st.nd, st.maxPoints, m)
    && rows == Cleared(st.rows, st.nd, m, blank)
    && (Unharmed(st.tags, st.rows, rows) <==> LandsOnZero(st.rows, st.locations.Keys, st.nd, m, blank))
  }

  // The state a completed compaction leaves: every tag with its row, survivors connected as before.
  ghost predicate CompactedFrom(before: Snapshot, st: Snapshot) {
    && st.Sound() && st.Prefix() && st.nd == before.nd && st.deleted == {}
    && st.maxPoints == before.maxPoints && st.tags.Keys == before.tags.Keys
    && KeepsRows(before.tags, before.rows, st.tags, st.rows)
    && SameAdjacency(before.graph, st.graph, before.locations.Keys, st.maxPoints)
    && BlankPast(st.graph, st.nd, st.maxPoints)
  }

  /** save with compaction: compact_data, then the frozen points down to nd, the files, and the frozen points back,
      whether or not the compaction was refused because the flag was set. The files hold what st says, the state right
      after compact_data: the old one after a refusal, the compacted one otherwise, and then the index ends with it. */
  method Save(ix: Index) returns (o: Outcome, files: Option<Files>, ghost st: Snapshot)
    requires ix.Valid()
    modifies ix, ix.emptySlots, ix.locationToTag, ix.graphStore, ix.dataStore.data
    ensures ix.Valid() && SlotAccounting.Compact(old(ix.Quiet()), ix.Quiet(), o)
    ensures o == if old(ix.dataCompacted) then Refused else if old(ix.deleteSet) != {} then Error else Done
    ensures files.Some? <==> o != Error
    ensures o == Error ==> Taken(ix) == old(Taken(ix))
    ensures o != Error ==>
              && st.Sound() && Writes(files.value, st) && st.maxPoints == ix.maxPoints && st.numFrozen == ix.numFrozen
              && st.dim == ix.dataStore.dim
              && MovedBack(st, ix.graphStore.graph, ix.dataStore.data[..], ZeroVector(ix.dataStore.alignedDim))
    ensures o == Refused ==> st == old(Taken(ix))
    ensures o == Done ==>
              && CompactedFrom(old(Taken(ix)), st)
              && st.graph == ix.graphStore.graph && st.tags == ix.tagToLocation
              && Unharmed(st.tags, st.rows, ix.dataStore.data[..])
  {
    o := CompactForSave(ix);
    files, st := None, Taken(ix);
    if o == Error {
      return;
    }
    files := SaveFiles(ix);
    if o == Done {
      Restored(st, ix.graphStore.graph, ix.dataStore.data[..], ix.dataStore.alignedDim);
    }
  }

  lemma Restored(st: Snapshot, H: Graph, rows: seq<Vector>, alignedDim: nat)
    requires st.Sound() && Restores(st, alignedDim) && MovedBack(st, H, rows, ZeroVector(alignedDim))
    ensures H == st.graph && Unharmed(st.tags, st.rows, rows)
  {
  }

  // compact_data and what it means for moving the frozen points.
  method CompactForSave(ix: Index) returns (o: Outcome)
    requires ix.Valid()
    modifies ix, ix.emptySlots, ix.locationToTag, ix.graphStore, ix.dataStore.data
    ensures ix.Valid() && Taken(ix).Sound() && SlotAccounting.Compact(old(ix.Quiet()), ix.Quiet(), o)
    ensures o == if old(ix.dataCompacted) then Refused else if old(ix.deleteSet) != {} then Error else Done
    ensures o != Done ==> Taken(ix) == old(Taken(ix))
    ensures o == Done ==> CompactedFrom(old(Taken(ix)), Taken(ix)) && Restores(Taken(ix), ix.dataStore.alignedDim)
  {
    ghost var s, before, live := ix.Quiet(), Taken(ix), ix.locationToTag.Keys();
    assert before.locations.Keys == live;
    var d;
    o, d := ix.CompactData();
    TakenSound(ix);
    if o == Done {
      ghost var st := Taken(ix);
      Compacted(s, ix.Quiet(), before, st, live, ix.emptySlots.Contents());
      CompactedRoundTrip(st.graph, st.tags, st.rows, st.nd, st.maxPoints, st.numFrozen,
                         ZeroVector(ix.dataStore.alignedDim));
    }
  }

  // Moving the frozen points down and back changes no list and no tag's row.
  ghost predicate Restores(st: Snapshot, alignedDim: nat)
    requires st.Sound()
  {
    var m := Landing(st.nd, st.maxPoints, st.numFrozen);
    && RenamedGraph(st.graph, st.nd, st.maxPoints, m) == st.graph
    && Unharmed(st.tags, st.rows, Cleared(st.rows, st.nd, m, ZeroVector(alignedDim)))
  }

  // The files, written while the frozen points are at nd.
  method SaveFiles(ix: Index) returns (files: Option<Files>)
    requires ix.Valid() && Taken(ix).Sound()
    modifies ix.graphStore, ix.dataStore.data
    ensures ix.Valid() && files.Some? && Writes(files.value, old(Taken(ix))) && ix.Quiet() == old(ix.Quiet())
    ensures MovedBack(old(Taken(ix)), ix.graphStore.graph, ix.dataStore.data[..], ZeroVector(ix.dataStore.alignedDim))
  {
    UnharmedIff(ix.tagToLocation, ix.locationToTag.Contents(), ix.dataStore.data[..], ix.nd,
                Landing(ix.nd, ix.maxPoints, ix.numFrozen), ZeroVector(ix.dataStore.alignedDim));
    var graphFile, vectors := MoveFrozen(ix);
    var tags := SaveTags(ix.locationToTag, ix.nd, ix.numFrozen);
    files := Some(Files(graphFile, vectors, tags, ix.deleteSet));
  }

  lemma Compacted(s: Slots, s': Slots, before: Snapshot, st: Snapshot, live: set<nat>, empty: set<nat>)
    requires Inv(s) && s.reserved.None? && !s.consolidating && SlotAccounting.Compact(s, s', Done)
    requires before.nd == s.nd && before.tags == s.tagToLocation && before.maxPoints == st.maxPoints == s.maxPoints
    requires st.Sound() && st.locations == s'.locationToTag && st.tags == s'.tagToLocation && st.deleted == s'.deleted
    requires st.nd == s'.nd && Closed(st.graph) && empty == Elems(s'.empty) && NoDangling(st.graph, empty)
    requires KeepsRows(before.tags, before.rows, st.tags, st.rows)
    requires SameAdjacency(before.graph, st.graph, live, st.maxPoints) && live == before.locations.Keys
    requires BlankPast(st.graph, st.nd, st.maxPoints)
    ensures CompactedFrom(before, st) && empty == Below(st.maxPoints) - Below(st.nd)
    ensures forall t :: t in st.tags ==> st.tags[t] < st.nd
  {
    CompactedTags(s, s');
    CompactedPrefix(s, s', st);
    SameTags(s, s');
  }

  lemma SameTags(s: Slots, s': Slots)
    requires SlotAccounting.Compact(s, s', Done)
    ensures s'.tagToLocation.Keys == s.tagToLocation.Keys && s'.nd == s.nd && s'.deleted == {}
  {
  }

  lemma TakenSound(ix: Index)
    requires ix.Valid()
    ensures Taken(ix).Sound()
  {
    PartitionSets(ix.Quiet());
  }

  lemma CompactedPrefix(s: Slots, s': Slots, st: Snapshot)
    requires Inv(s) && s.reserved.None? && !s.consolidating && SlotAccounting.Compact(s, s', Done)
    requires st.Sound() && st.locations == s'.locationToTag && st.deleted == {} && st.nd == s'.nd
    requires st.maxPoints == s'.maxPoints && Closed(st.graph) && NoDangling(st.graph, Elems(s'.empty))
    ensures st.Prefix()
  {
    CompactLive(s, s');
    CompactedTags(s, s');
    forall v, w | 0 <= v < |st.graph| && (v < st.nd || st.maxPoints <= v) && w in st.graph[v]
      ensures w < st.nd || st.maxPoints <= w < |st.graph|
    {
      var i :| 0 <= i < |st.graph[v]| && st.graph[v][i] == w;
      assert v !in Elems(s'.empty) && w !in Elems(s'.empty);
    }
  }

  // After a completed compaction the tags sit on [0, nd) and the empty slots are the rest.
  lemma CompactedTags(s: Slots, s': Slots)
    requires Inv(s) && s.reserved.None? && !s.consolidating && SlotAccounting.Compact(s, s', Done)
    ensures s'.nd <= s'.maxPoints && Elems(s'.empty) == Below(s'.maxPoints) - Below(s'.nd)
    ensures forall t :: t in s'.tagToLocation ==> s'.tagToLocation[t] < s'.nd
  {
    CompactLive(s, s');
    RangeElems(s.nd, s.maxPoints);
    assert forall t :: t in s'.tagToLocation ==> s'.tagToLocation[t] in s'.Live();
  }

  // ---- loading what was saved ----

  /** The tags that come back are the tags saved if and only if no live location lies past nd and every location below
      it is live or in the delete list. */
  lemma TagsComeBack(st: Snapshot)
    requires st.Sound()
    ensures LiveTags(TagsToSave(st.locations, st.nd, st.numFrozen)[..st.nd], st.deleted, st.nd) == st.locations <==>
            st.locations.Keys == Below(st.nd) - st.deleted
  {
    var tags := TagsToSave(st.locations, st.nd, st.numFrozen)[..st.nd];
    var back := LiveTags(tags, st.deleted, st.nd);
    assert back.Keys == Below(st.nd) - st.deleted;
    assert forall i: nat :: i < st.nd && i in st.locations ==> tags[i] == st.locations[i];
  }

  lemma TagsLoadable(st: Snapshot)
    requires st.Sound() && st.Prefix()
    ensures SavedTags(TagsToSave(st.locations, st.nd, st.numFrozen)[..st.nd], st.deleted)
  {
    var tags := TagsToSave(st.locations, st.nd, st.numFrozen)[..st.nd];
    forall i, j | 0 <= i < j < |tags| && i !in st.deleted && j !in st.deleted ensures tags[i] != tags[j] {
      assert i in st.locations && j in st.locations && st.tags[st.locations[i]] == i && st.tags[st.locations[j]] == j;
    }
  }

  lemma InverseUnique(m: map<Tag, nat>, m': map<Tag, nat>, w: map<nat, Tag>)
    requires Inverse(m, w) && Inverse(m', w)
    ensures m == m'
  {
    forall t | t in m ensures t in m' && m'[t] == m[t] {
      assert w[m[t]] == t;
    }
    forall t | t in m' ensures t in m {
      assert w[m'[t]] == t;
    }
  }

  // One entry on its way into the file and back.
  lemma EntryComesBack(w: nat, nd: nat, maxPoints: nat, frozen: nat)
    requires nd <= maxPoints && (w < nd || maxPoints <= w < maxPoints + frozen)
    ensures Renamed(w, maxPoints, nd, frozen) < nd + frozen
    ensures Renamed(Renamed(w, maxPoints, nd, frozen), nd, maxPoints, frozen) == w
  {
  }

  lemma ListsLoadable(st: Snapshot)
    requires st.Sound() && st.Prefix()
    ensures Closed(ListsToSave(st.graph, st.nd, st.maxPoints, st.numFrozen))
  {
    var lists := ListsToSave(st.graph, st.nd, st.maxPoints, st.numFrozen);
    forall i, k | 0 <= i < |lists| && 0 <= k < |lists[i]| ensures lists[i][k] < |lists| {
      var list := st.graph[Origin(i, st.nd, st.maxPoints)];
      assert list[k] in list;
      EntryComesBack(list[k], st.nd, st.maxPoints, st.numFrozen);
    }
  }

  // Every occupied or frozen location has its list again, the others none.
  ghost predicate GraphBack(st: Snapshot, H: Graph) {
    && |H| == |st.graph|
    && forall v :: 0 <= v < |H| ==> H[v] == if st.nd <= v < st.maxPoints then [] else st.graph[v]
  }

  // Every occupied or frozen location has its coordinates again, padded with zeros.
  ghost predicate RowsBack(st: Snapshot, rows: seq<Vector>, padding: Vector)
    requires st.Sound()
  {
    && |rows| == |st.rows|
    && forall v :: 0 <= v < |rows| && (v < st.nd || st.maxPoints <= v) ==> rows[v] == st.rows[v][..st.dim] + padding
  }

  lemma ListsComeBack(st: Snapshot, H: Graph)
    requires st.Sound() && st.Prefix() && |H| == |st.graph|
    requires ListsLoaded(ListsToSave(st.graph, st.nd, st.maxPoints, st.numFrozen), H, st.nd, st.maxPoints, st.numFrozen)
    requires BlankPast(H, st.nd, st.maxPoints)
    ensures GraphBack(st, H)
  {
    var lists := ListsToSave(st.graph, st.nd, st.maxPoints, st.numFrozen);
    forall v | 0 <= v < |H| && (v < st.nd || st.maxPoints <= v) ensures H[v] == st.graph[v] {
      var i := Renamed(v, st.maxPoints, st.nd, st.numFrozen);
      EntryComesBack(v, st.nd, st.maxPoints, st.numFrozen);
      assert H[v] == RenamedList(lists[i], st.nd, st.maxPoints, st.numFrozen);
      ListComesBack(st.graph[v], st.nd, st.maxPoints, st.numFrozen);
    }
  }

  lemma ListComesBack(list: seq<nat>, nd: nat, maxPoints: nat, frozen: nat)
    requires nd <= maxPoints && forall w :: w in list ==> w < nd || maxPoints <= w < maxPoints + frozen
    ensures RenamedList(RenamedList(list, maxPoints, nd, frozen), nd, maxPoints, frozen) == list
  {
    forall k | 0 <= k < |list|
      ensures Renamed(Renamed(list[k], maxPoints, nd, frozen), nd, maxPoints, frozen) == list[k]
    {
      assert list[k] in list;
    }
  }

  lemma RowsComeBack(st: Snapshot, rows: seq<Vector>, padding: Vector)
    requires st.Sound() && |rows| == |st.rows|
    requires VectorsLoaded(RowsToSave(st.rows, st.nd, st.maxPoints, st.numFrozen, st.dim), rows, st.nd, st.maxPoints,
                           st.numFrozen, padding)
    ensures RowsBack(st, rows, padding)
  {
    var vectors := RowsToSave(st.rows, st.nd, st.maxPoints, st.numFrozen, st.dim);
    forall v | 0 <= v < |rows| && (v < st.nd || st.maxPoints <= v) ensures rows[v] == st.rows[v][..st.dim] + padding {
      var i := Renamed(v, st.maxPoints, st.nd, st.numFrozen);
      EntryComesBack(v, st.nd, st.maxPoints, st.numFrozen);
      assert rows[v] == vectors[i] + padding;
    }
  }

  /** load of what a save wrote, into an index of the same size. With the occupied slots a prefix the new index is the
      saved one: tags, delete list, lists and coordinates, the slots past nd empty. */
  method Reload(c: Config, files: Files, ghost st: Snapshot) returns (ix: Index)
    requires c.Usable() && st.Sound() && st.Prefix() && Writes(files, st)
    requires c.maxPoints == st.maxPoints && c.numFrozen == st.numFrozen && c.dim == st.dim
    ensures fresh(ix) && ix.Valid() && ix.Built(c)
    ensures ix.tagToLocation == st.tags && ix.deleteSet == st.deleted && ix.nd == st.nd
    ensures GraphBack(st, ix.graphStore.graph)
    ensures RowsBack(st, ix.dataStore.data[..], ZeroVector(c.alignedDim - c.dim))
  {
    Loadable(files, st);
    ix := LoadFiles(c, files, st);
    LoadedTags(ix.Quiet(), files.tags[..st.nd], st);
    ListsComeBack(st, ix.graphStore.graph);
    RowsComeBack(st, ix.dataStore.data[..], ZeroVector(c.alignedDim - c.dim));
  }

  // What load_tags, load_graph and load_data get.
  method LoadFiles(c: Config, files: Files, ghost st: Snapshot) returns (ix: Index)
    requires c.Usable() && st.Sound() && st.Prefix() && Writes(files, st)
    requires c.maxPoints == st.maxPoints && c.numFrozen == st.numFrozen && c.dim == st.dim
    ensures fresh(ix) && ix.Valid() && ix.Built(c) && |files.tags| == st.nd + st.numFrozen
    ensures Loaded(ix.Quiet(), files.tags[..st.nd]) && ix.deleteSet == st.deleted && ix.nd == st.nd
    ensures ListsLoaded(ListsToSave(st.graph, st.nd, st.maxPoints, st.numFrozen), ix.graphStore.graph, st.nd,
                        st.maxPoints, st.numFrozen)
    ensures VectorsLoaded(RowsToSave(st.rows, st.nd, st.maxPoints, st.numFrozen, st.dim), ix.dataStore.data[..], st.nd,
                          st.maxPoints, st.numFrozen, ZeroVector(c.alignedDim - c.dim))
    ensures |ix.graphStore.graph| == |st.graph| && BlankPast(ix.graphStore.graph, st.nd, st.maxPoints)
  {
    ghost var lists := ListsToSave(st.graph, st.nd, st.maxPoints, st.numFrozen);
    Loadable(files, st);
    var tags := files.tags[..|files.tags| - c.numFrozen];
    assert |tags| == st.nd && tags == files.tags[..st.nd];
    ix := new Index.Load(c, tags, files.deleted, files.graph, files.vectors, lists, GraphFile.MaxDegree(lists));
  }

  lemma LoadedTags(s: Slots, tags: seq<Tag>, st: Snapshot)
    requires Loaded(s, tags) && st.Sound() && s.deleted == st.deleted && s.nd == st.nd
    requires SavedTags(tags, st.deleted) && LiveTags(tags, st.deleted, st.nd) == st.locations
    ensures s.tagToLocation == st.tags
  {
    assert s.locationToTag == st.locations;
    InverseUnique(s.tagToLocation, st.tags, st.locations);
  }

  // The files of a prefix are ones load accepts.
  lemma Loadable(files: Files, st: Snapshot)
    requires st.Sound() && st.Prefix() && Writes(files, st)
    ensures var lists := ListsToSave(st.graph, st.nd, st.maxPoints, st.numFrozen);
            && |files.tags| == |files.vectors| == |lists| == st.nd + st.numFrozen && Closed(lists)
            && files.graph == GraphFile.Encoded(lists, GraphFile.MaxDegree(lists), st.nd, st.numFrozen)
            && GraphFile.DegreesWithin(lists, GraphFile.MaxDegree(lists))
            && SavedTags(files.tags[..st.nd], files.deleted)
            && LiveTags(files.tags[..st.nd], files.deleted, st.nd) == st.locations
            && forall i :: 0 <= i < |files.vectors| ==> |files.vectors[i]| == st.dim
  {
    TagsComeBack(st);
    TagsLoadable(st);
    ListsLoadable(st);
  }

  // What get_vector_by_tag returns: the coordinates without the padding.
  function VectorOf(row: Option<Vector>, dim: nat): Option<Vector> {
    if row.Some? && dim <= |row.value| then Some(row.value[..dim]) else None
  }

  ghost predicate SameVectors(tags: map<Tag, nat>, rows: seq<Vector>, tags': map<Tag, nat>, rows': seq<Vector>,
                              dim: nat)
  {
    forall t :: t in tags ==> VectorOf(ResolveIn(tags', rows', t), dim) == VectorOf(ResolveIn(tags, rows, t), dim)
  }

  lemma VectorsComeBack(st: Snapshot, tags: map<Tag, nat>, rows: seq<Vector>, rows': seq<Vector>, padding: Vector)
    requires st.Sound() && st.Prefix() && KeepsRows(tags, rows, st.tags, st.rows) && RowsBack(st, rows', padding)
    ensures SameVectors(tags, rows, st.tags, rows', st.dim)
  {
    forall t | t in tags
      ensures VectorOf(ResolveIn(st.tags, rows', t), st.dim) == VectorOf(ResolveIn(tags, rows, t), st.dim)
    {
      var l := st.tags[t];
      assert l in st.locations && l in Below(st.nd);
      assert rows'[l][..st.dim] == st.rows[l][..st.dim];
    }
  }

  /** save with compaction, then load: the new index has the same tags with the same vectors and an isomorphic graph. */
  method SaveThenLoad(ix: Index, c: Config) returns (o: Outcome, loaded: Option<Index>)
    requires ix.Valid() && ix.Built(c) && c.Usable()
    modifies ix, ix.emptySlots, ix.locationToTag, ix.graphStore, ix.dataStore.data
    ensures o == if old(ix.dataCompacted) then Refused else if old(ix.deleteSet) != {} then Error else Done
    ensures loaded.Some? <==> o == Done
    ensures o == Done ==>
              && loaded.value.Valid() && loaded.value.Built(c)
              && loaded.value.tagToLocation.Keys == old(ix.tagToLocation.Keys) && loaded.value.deleteSet == {}
              && SameVectors(old(ix.tagToLocation), old(ix.dataStore.data[..]),
                             loaded.value.tagToLocation, loaded.value.dataStore.data[..], c.dim)
              && SameAdjacency(old(ix.graphStore.graph), loaded.value.graphStore.graph,
                               old(ix.locationToTag.Keys()), c.maxPoints)
  {
    var files;
    ghost var st;
    ghost var before := Taken(ix);
    assert before.locations.Keys == ix.locationToTag.Keys();
    o, files, st := Save(ix);
    loaded := None;
    if o == Done {
      var copy := ReloadCompacted(c, files.value, st, before.tags, before.rows);
      loaded := Some(copy);
    }
  }

  method ReloadCompacted(c: Config, files: Files, ghost st: Snapshot, ghost tags: map<Tag, nat>,
                         ghost rows: seq<Vector>)
    returns (copy: Index)
    requires c.Usable() && st.Sound() && st.Prefix() && Writes(files, st)
    requires c.maxPoints == st.maxPoints && c.numFrozen == st.numFrozen && c.dim == st.dim
    requires KeepsRows(tags, rows, st.tags, st.rows) && BlankPast(st.graph, st.nd, st.maxPoints)
    ensures fresh(copy) && copy.Valid() && copy.Built(c)
    ensures copy.tagToLocation == st.tags && copy.deleteSet == st.deleted && copy.graphStore.graph == st.graph
    ensures SameVectors(tags, rows, copy.tagToLocation, copy.dataStore.data[..], c.dim)
  {
    copy := Reload(c, files, st);
    assert copy.graphStore.graph == st.graph;
    VectorsComeBack(st, tags, rows, copy.dataStore.data[..], ZeroVector(c.alignedDim - c.dim));
  }

  // Two slots, one frozen point, one insert.
  method OnePoint() returns (ix: Index)
    ensures fresh(ix) && fresh(ix.emptySlots) && fresh(ix.locationToTag) && fresh(ix.graphStore)
    ensures fresh(ix.dataStore) && fresh(ix.dataStore.data) && ix.dataStore.alignedDim == 1
    ensures ix.Valid() && ix.dataCompacted && ix.nd == 1 && ix.maxPoints == 2 && ix.numFrozen == 1
    ensures 1 in ix.tagToLocation && ix.tagToLocation[1] == 1 && ix.Resolve(1) == Some([1.0])
  {
    ix := new Index(IndexRuns.SmallConfig(2));
    FirstInsert(ix.Quiet());
    var inserted := ix.InsertPoint([1.0], 1, IndexRuns.AnyParams());
    assert [1.0] + ZeroVector(0) == [1.0];
  }

  /** A save that loses a vector: the insert took slot 1 and left the flag set, so the compaction is refused, and the
      frozen block lands on slot nd == 1. */
  method SaveLosesVector() returns (before: Option<Vector>, after: Option<Vector>)
    ensures before == Some([1.0]) && after == Some([0.0])
  {
    var ix := OnePoint();
    before := ix.Resolve(1);
    var o, files;
    ghost var st;
    o, files, st := Save(ix);
    assert ZeroVector(1) == [0.0];
    after := ix.Resolve(1);
  }

  lemma FirstInsert(s: Slots)
    requires Loaded(s, []) && s.maxPoints == 2
    ensures var s' := InsertSlots(s, 1);
            s'.nd == 1 && s'.compacted && 1 in s'.tagToLocation && s'.tagToLocation[1] == 1
  {
    LoadedInv(s, []);
    ReserveOutcome(s);
    InjectiveCard(s.tagToLocation, s.locationToTag);
    assert s.locationToTag == map[] && s.tagToLocation == map[];
  }
}
