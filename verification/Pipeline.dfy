/** The offline pipeline from its parts (src/disk_utils.cpp:243-482, 660-790, 848-1099): id files cut out by the
    partition, one graph per shard, the merge, and the disk layout of the merged graph. */
module Pipeline {
  import opened NeighborOrder
  import opened GraphFile
  import opened M = MergeShards
  import opened DiskLayout
  import P = Partition
  import C = ClosestCenters
  import opened Wrappers

  // Merged neighbours are ids of the shards.
  lemma {:induction false} UnionIds(shards: seq<Shard>, v: nat, m: nat, n: nat)
    requires AllWellFormed(shards) && m <= |shards| && Within(shards, n)
    ensures forall x :: x in UnionOf(shards, v, m) ==> x < n
  {
    if m > 0 {
      UnionIds(shards, v, m - 1, n);
      var sh := shards[m - 1];
      forall x | x in Contribution(sh, v) ensures x < n {
        var k :| 0 <= k < |sh.idmap| && sh.idmap[k] == v && x in RenamedList(sh.idmap, sh.lists[k]);
        var i :| 0 <= i < |sh.lists[k]| && x == sh.idmap[sh.lists[k][i]];
        assert x in shards[m - 1].idmap;
      }
    }
  }

  // Node v on disk: its own coordinates, and distinct neighbours from the union of its shards' lists, as many as fit.
  ghost predicate RightOnDisk(shards: seq<Shard>, s: Shape, coords: seq<seq<nat>>, disk: seq<nat>, v: nat)
    requires AllWellFormed(shards) && v < s.npts && |disk| == s.FileSize() && |coords| == s.npts
  {
    var node := NodeOnDisk(s, disk, v);
    node.coords == coords[v] && MergedRecord(UnionOf(shards, v, |shards|), s.width, node.neighbours)
  }

  lemma NodeRight(shards: seq<Shard>, s: Shape, meta: seq<nat>, coords: seq<seq<nat>>, records: seq<seq<nat>>,
                  disk: seq<nat>, v: nat)
    requires AllWellFormed(shards) && Within(shards, s.npts) && v < s.npts
    requires IsLayout(s, disk, meta, coords, records) && s.npts <= Pow256(4) && s.width < Pow256(4)
    requires MergedRecord(UnionOf(shards, v, |shards|), s.width, records[v])
    ensures RightOnDisk(shards, s, coords, disk, v)
  {
    UnionIds(shards, v, |shards|, s.npts);
    var record := records[v];
    forall k | 0 <= k < |record| ensures record[k] < Pow256(4) {
      assert record[k] in Elems(record);
    }
    LayoutReadBack(s, disk, meta, coords, records, v);
    assert record[..Degree(s, record)] == record;
  }

  /** Merge, then layout: every node's sectors decode to its coordinates and to distinct neighbours drawn from the union
      of its renamed shard neighbours, min(|union|, max degree) of them. */
  method BuildDiskIndex(shards: seq<Shard>, s: Shape, ndims: nat, coords: seq<seq<nat>>) returns (disk: seq<nat>)
    requires AllWellFormed(shards) && AllMatch(shards) && |shards| > 0 && Covers(shards, s.npts)
    requires |coords| == s.npts && forall i :: 0 <= i < s.npts ==> |coords[i]| == s.coordBytes
    requires s.npts <= Pow256(4) && s.width < Pow256(4)
    ensures |disk| == s.FileSize()
    ensures forall v :: 0 <= v < s.npts ==> RightOnDisk(shards, s, coords, disk, v)
    ensures var last := shards[|shards| - 1];
            && Describes(disk, s, ndims, last.idmap[last.medoid], 0)
            && 8 + 8 * 3 <= |disk| && MetaField(disk, 2) == last.idmap[last.medoid]
  {
    var merged, medoids;
    ghost var nodes, records;
    merged, medoids, nodes, records := M.MergeShards(shards, s.width);
    ghost var last := shards[|shards| - 1];
    HeaderFields(records, s.width, last.idmap[last.medoid], 0);
    var medoid := merged[3];
    disk := CreateDiskLayout(s, ndims, medoid, 0, merged, coords, records);
    forall v | 0 <= v < s.npts ensures RightOnDisk(shards, s, coords, disk, v) {
      assert nodes[v] == v;
      NodeRight(shards, s, Meta(s, ndims, medoid, 0), coords, records, disk, v);
    }
    MedoidFits(shards, s.npts);
  }

  // Entry points are node ids, and node ids fit in a field.
  lemma MedoidFits(shards: seq<Shard>, n: nat)
    requires AllWellFormed(shards) && |shards| > 0 && Within(shards, n) && n <= Pow256(4)
    ensures var last := shards[|shards| - 1];
            last.idmap[last.medoid] < Pow256(8)
  {
    var last := shards[|shards| - 1];
    assert last.idmap[last.medoid] in shards[|shards| - 1].idmap;
    assert Pow256(4) <= Pow256(8);
  }

  // What builds the index of one shard: a graph file and its entry point, from the ids of the points.
  type Builder = seq<nat> -> (seq<nat>, nat)

  // For each increasing list of ids, a well-formed graph over its points; `lists` is what the file encodes.
  ghost predicate Builds(build: Builder, lists: seq<nat> -> seq<seq<nat>>) {
    forall ids :: Increasing(ids) && ids != [] ==>
      ShardOf(ids, build, lists).WellFormed() && ShardOf(ids, build, lists).FileMatches()
  }

  function ShardOf(ids: seq<nat>, build: Builder, ghost lists: seq<nat> -> seq<seq<nat>>): (sh: Shard)
    ensures sh.idmap == ids
  {
    Shard(ids, build(ids).0, build(ids).1, lists(ids))
  }

  method BuildShards(idFiles: seq<seq<nat>>, build: Builder, ghost lists: seq<nat> -> seq<seq<nat>>)
    returns (shards: seq<Shard>)
    requires Builds(build, lists)
    requires forall i :: 0 <= i < |idFiles| ==> |idFiles[i]| > 2 && Increasing(idFiles[i][2..])
    ensures |shards| == |idFiles| && AllWellFormed(shards) && AllMatch(shards)
    ensures forall i :: 0 <= i < |shards| ==> shards[i].idmap == idFiles[i][2..]
  {
    shards := [];
    for i := 0 to |idFiles|
      invariant |shards| == i && AllWellFormed(shards) && AllMatch(shards)
      invariant forall k :: 0 <= k < i ==> shards[k].idmap == idFiles[k][2..]
    {
      shards := shards + [ShardOf(idFiles[i][2..], build, lists)];
    }
  }

  lemma IdMapsOf(idFiles: seq<seq<nat>>, closest: seq<seq<nat>>)
    requires P.FinishedFiles(idFiles, closest)
    requires forall c :: 0 <= c < |idFiles| ==> |idFiles[c]| > 2
    requires forall c: nat :: c < |idFiles| ==> Increasing(C.PointsOf(closest, c))
    ensures forall c :: 0 <= c < |idFiles| ==> idFiles[c][2..] == C.PointsOf(closest, c) && Increasing(idFiles[c][2..])
  {
  }

  /** From the base on: cut into at least k shards, one graph per shard, merged and laid out. Unless a shard gets no
      point, for which no graph can be built, the disk index is right for every base point, its k nearest shards being
      the ones its neighbours come from. */
  method BuildFromBase(data: seq<C.Row>, dim: nat, pivots: seq<C.Row>, k: nat, build: Builder,
                       ghost lists: seq<nat> -> seq<seq<nat>>, s: Shape, ndims: nat, coords: seq<seq<nat>>)
    returns (disk: Option<seq<nat>>, ghost closest: seq<seq<nat>>, ghost shards: seq<Shard>)
    requires C.Rows(data, dim) && C.Rows(pivots, dim) && 0 < k <= |pivots| && |data| == s.npts > 0
    requires |coords| == s.npts && forall i :: 0 <= i < s.npts ==> |coords[i]| == s.coordBytes
    requires s.npts <= Pow256(4) && s.width < Pow256(4) && Builds(build, lists)
    ensures C.AllNearest(data, dim, pivots, k, closest)
    ensures disk.None? <==> exists c :: 0 <= c < |pivots| && C.PointsOf(closest, c) == []
    ensures disk.Some? ==>
              && |shards| == |pivots| && AllWellFormed(shards) && |disk.value| == s.FileSize()
              && (forall c :: 0 <= c < |shards| ==> shards[c].idmap == C.PointsOf(closest, c))
              && forall v :: 0 <= v < s.npts ==> RightOnDisk(shards, s, coords, disk.value, v)
  {
    var code, idFiles, total;
    code, idFiles, total, closest := P.ShardDataIntoClustersOnlyIds(data, dim, pivots, dim, k);
    P.SelectedAssigned(data, dim, pivots, k, closest);
    disk, shards := BuildFromIds(idFiles, build, lists, s, ndims, coords, closest, k);
  }

  // From the id files on.
  method BuildFromIds(idFiles: seq<seq<nat>>, build: Builder, ghost lists: seq<nat> -> seq<seq<nat>>, s: Shape,
                      ndims: nat, coords: seq<seq<nat>>, ghost closest: seq<seq<nat>>, ghost k: nat)
    returns (disk: Option<seq<nat>>, ghost shards: seq<Shard>)
    requires P.FinishedFiles(idFiles, closest) && P.Assigned(closest, k, |idFiles|) && P.DistinctShards(closest)
    requires k > 0 && |closest| == s.npts > 0 && |idFiles| > 0
    requires forall c: nat :: c < |idFiles| ==> Increasing(C.PointsOf(closest, c))
    requires |coords| == s.npts && forall i :: 0 <= i < s.npts ==> |coords[i]| == s.coordBytes
    requires s.npts <= Pow256(4) && s.width < Pow256(4) && Builds(build, lists)
    ensures disk.None? <==> exists c :: 0 <= c < |idFiles| && C.PointsOf(closest, c) == []
    ensures disk.Some? ==>
              && |shards| == |idFiles| && AllWellFormed(shards) && |disk.value| == s.FileSize()
              && (forall c :: 0 <= c < |shards| ==> shards[c].idmap == C.PointsOf(closest, c))
              && forall v :: 0 <= v < s.npts ==> RightOnDisk(shards, s, coords, disk.value, v)
  {
    shards := [];
    if c :| 0 <= c < |idFiles| && |idFiles[c]| <= 2 {
      assert C.PointsOf(closest, c) == [];
      return None, [];
    }
    IdMapsOf(idFiles, closest);
    var built := BuildShards(idFiles, build, lists);
    P.FeedsMerge(closest, k, built);
    var file := BuildDiskIndex(built, s, ndims, coords);
    disk, shards := Some(file), built;
  }
}
