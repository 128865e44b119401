/** shard_data_into_clusters_only_ids and retrieve_shard_data_from_ids (src/partition.cpp:327-474): every point goes
    to its nearest shards, block by block, and the shards are cut out of the base file in one pass. */
module Partition {
  import opened Blocks
  import opened ClosestCenters
  import opened NeighborOrder
  import M = MergeShards

  const BLOCK_SIZE: nat := 5000000

  // Every point has k shards out of m, not necessarily different ones.
  ghost predicate Assigned(closest: seq<seq<nat>>, k: nat, m: nat) {
    forall i :: 0 <= i < |closest| ==> |closest[i]| == k && forall s :: s in closest[i] ==> s < m
  }

  ghost predicate DistinctShards(closest: seq<seq<nat>>) {
    forall i :: 0 <= i < |closest| ==> Distinct(closest[i])
  }

  lemma DistinctTimes(sel: seq<nat>, c: nat)
    requires Distinct(sel)
    ensures multiset(sel)[c] == if c in sel then 1 else 0
  {
    if c in sel {
      var i :| 0 <= i < |sel| && sel[i] == c;
      assert sel == sel[..i] + [c] + sel[i + 1..];
      assert c !in sel[..i] && c !in sel[i + 1..];
      OnceBetween(sel[..i], c, sel[i + 1..]);
    }
  }

  lemma OnceBetween(a: seq<nat>, c: nat, b: seq<nat>)
    requires c !in a && c !in b
    ensures multiset(a + [c] + b)[c] == 1
  {
    assert multiset(a + [c] + b) == multiset(a) + multiset{c} + multiset(b);
  }

  // An element occurring twice.
  lemma NotDistinctTwice(sel: seq<nat>) returns (c: nat)
    requires !Distinct(sel)
    ensures c in sel && multiset(sel)[c] >= 2
  {
    var i, j :| 0 <= i < j < |sel| && sel[i] == sel[j];
    c := sel[i];
    assert sel == sel[..j] + [c] + sel[j + 1..];
    assert c in sel[..j];
  }

  // The ids of a shard are those of the points that select it.
  lemma {:induction false} PointsOfSelected(closest: seq<seq<nat>>, s: nat)
    ensures forall i: nat :: i in PointsOf(closest, s) <==> i < |closest| && s in closest[i]
  {
    if closest != [] {
      var n := |closest| - 1;
      PointsOfSelected(closest[..n], s);
      forall i: nat ensures i in PointsOf(closest, s) <==> i < |closest| && s in closest[i] {
        RepeatedAfter(PointsOf(closest[..n], s), n, multiset(closest[n])[s], i);
      }
    }
  }

  lemma RepeatedAfter(rest: seq<nat>, x: nat, n: nat, i: nat)
    ensures i in rest + Repeat(x, n) <==> i in rest || (n > 0 && i == x)
  {
    assert n > 0 ==> Repeat(x, n)[0] == x;
  }

  lemma {:induction false} PointsOfIncreasing(closest: seq<seq<nat>>, s: nat)
    requires DistinctShards(closest)
    ensures M.Increasing(PointsOf(closest, s))
  {
    if closest != [] {
      var n := |closest| - 1;
      var rest := PointsOf(closest[..n], s);
      PointsOfIncreasing(closest[..n], s);
      PointsOfSelected(closest[..n], s);
      DistinctTimes(closest[n], s);
      assert forall i :: 0 <= i < |rest| ==> rest[i] in rest;
    }
  }

  // The lists only grow.
  lemma {:induction false} PointsOfPrefix(closest: seq<seq<nat>>, i: nat, s: nat)
    requires i <= |closest|
    ensures PointsOf(closest[..i], s) <= PointsOf(closest, s)
  {
    if i < |closest| {
      var n := |closest| - 1;
      PointsOfPrefix(closest[..n], i, s);
      assert closest[..n][..i] == closest[..i];
    } else {
      assert closest[..i] == closest;
    }
  }

  /** Shard lists are strictly increasing, all of them, exactly when no point selects a shard twice. */
  lemma IncreasingIff(closest: seq<seq<nat>>, k: nat, m: nat)
    requires Assigned(closest, k, m)
    ensures (forall s: nat :: s < m ==> M.Increasing(PointsOf(closest, s))) <==> DistinctShards(closest)
  {
    if DistinctShards(closest) {
      forall s: nat | s < m ensures M.Increasing(PointsOf(closest, s)) {
        PointsOfIncreasing(closest, s);
      }
    } else {
      var i :| 0 <= i < |closest| && !Distinct(closest[i]);
      var s := NotDistinctTwice(closest[i]);
      var rest := PointsOf(closest[..i], s);
      PointsOfNext(closest, i, s);
      PointsOfPrefix(closest, i + 1, s);
      assert PointsOf(closest, s)[|rest|] == i && PointsOf(closest, s)[|rest| + 1] == i;
      assert !M.Increasing(PointsOf(closest, s));
    }
  }

  ghost function TotalSize(closest: seq<seq<nat>>, m: nat): nat {
    if m == 0 then 0 else TotalSize(closest, m - 1) + |PointsOf(closest, m - 1)|
  }

  // How many entries of sel are below m.
  ghost function CountBelow(sel: seq<nat>, m: nat): nat {
    if m == 0 then 0 else CountBelow(sel, m - 1) + multiset(sel)[m - 1]
  }

  lemma {:induction false} CountNext(sel: seq<nat>, l: nat, m: nat)
    requires l < |sel|
    ensures CountBelow(sel[..l + 1], m) == CountBelow(sel[..l], m) + if sel[l] < m then 1 else 0
  {
    if m > 0 {
      CountNext(sel, l, m - 1);
      OnceMore(sel, l, m - 1);
    }
  }

  lemma {:induction false} CountNone(m: nat)
    ensures CountBelow([], m) == 0
  {
    if m > 0 {
      CountNone(m - 1);
    }
  }

  lemma {:induction false} CountAll(sel: seq<nat>, l: nat, m: nat)
    requires l <= |sel| && forall s :: s in sel ==> s < m
    ensures CountBelow(sel[..l], m) == l
  {
    if l == 0 {
      CountNone(m);
    } else {
      CountAll(sel, l - 1, m);
      CountNext(sel, l - 1, m);
      assert sel[l - 1] in sel;
    }
  }

  lemma SizeNext(rest: seq<seq<nat>>, sel: seq<nat>, c: nat)
    ensures |PointsOf(rest + [sel], c)| == |PointsOf(rest, c)| + multiset(sel)[c]
  {
    assert (rest + [sel])[..|rest|] == rest;
  }

  lemma {:induction false} TotalSnoc(rest: seq<seq<nat>>, sel: seq<nat>, m: nat)
    ensures TotalSize(rest + [sel], m) == TotalSize(rest, m) + CountBelow(sel, m)
  {
    if m > 0 {
      TotalSnoc(rest, sel, m - 1);
      SizeNext(rest, sel, m - 1);
    }
  }

  lemma {:induction false} TotalNone(m: nat)
    ensures TotalSize([], m) == 0
  {
    if m > 0 {
      TotalNone(m - 1);
    }
  }

  /** Shard sizes sum to k times the number of points. */
  lemma {:induction false} SizesSum(closest: seq<seq<nat>>, k: nat, m: nat)
    requires Assigned(closest, k, m)
    ensures TotalSize(closest, m) == k * |closest|
  {
    if closest == [] {
      TotalNone(m);
    } else {
      var n := |closest| - 1;
      SizesSum(closest[..n], k, m);
      TotalSnoc(closest[..n], closest[n], m);
      assert closest == closest[..n] + [closest[n]];
      CountAll(closest[n], k, m);
      assert closest[n][..k] == closest[n];
      Succ(k, n);
    }
  }

  lemma Succ(k: nat, n: nat)
    ensures k * n + k == k * (n + 1)
  {
  }

  /** The id maps are what merge_shards needs: strictly increasing, and together exactly all points. */
  lemma FeedsMerge(closest: seq<seq<nat>>, k: nat, shards: seq<M.Shard>)
    requires Assigned(closest, k, |shards|) && DistinctShards(closest) && k > 0 && closest != []
    requires forall s :: 0 <= s < |shards| ==> shards[s].idmap == PointsOf(closest, s)
    ensures M.Covers(shards, |closest|)
    ensures forall s :: 0 <= s < |shards| ==> M.Increasing(shards[s].idmap)
  {
    forall s | 0 <= s < |shards|
      ensures M.Increasing(shards[s].idmap)
      ensures forall v: nat :: v in shards[s].idmap <==> v < |closest| && s in closest[v]
    {
      PointsOfSelected(closest, s);
      PointsOfIncreasing(closest, s);
    }
    forall v: nat | v < |closest| ensures M.Held(shards, v) {
      var s := closest[v][0];
      assert s in closest[v];
      assert v in shards[s].idmap;
    }
  }

  // ---- shard_data_into_clusters_only_ids ----

  // File s so far: the placeholder count 0, the dimension 1, then the ids; counts[s] is kept beside it.
  ghost predicate IdFiles(files: seq<seq<nat>>, counts: seq<nat>, closest: seq<seq<nat>>) {
    && |files| == |counts|
    && forall s :: 0 <= s < |files| ==>
         files[s] == [0, 1] + PointsOf(closest, s) && counts[s] == |PointsOf(closest, s)|
  }

  // Between the writes for one point: the entries in sel are written.
  ghost predicate Midway(files: seq<seq<nat>>, counts: seq<nat>, closest: seq<seq<nat>>, sel: seq<nat>) {
    && |files| == |counts|
    && forall s :: 0 <= s < |files| ==>
         && files[s] == [0, 1] + PointsOf(closest, s) + Repeat(|closest|, multiset(sel)[s])
         && counts[s] == |PointsOf(closest, s)| + multiset(sel)[s]
  }

  lemma MidwayNext(files: seq<seq<nat>>, counts: seq<nat>, closest: seq<seq<nat>>, sel: seq<nat>, l: nat)
    requires l < |sel| && sel[l] < |files| && Midway(files, counts, closest, sel[..l])
    ensures var c := sel[l];
            Midway(files[c := files[c] + [|closest|]], counts[c := counts[c] + 1], closest, sel[..l + 1])
  {
    var c, id := sel[l], |closest|;
    var files', counts' := files[c := files[c] + [id]], counts[c := counts[c] + 1];
    forall s | 0 <= s < |files'|
      ensures files'[s] == [0, 1] + PointsOf(closest, s) + Repeat(id, multiset(sel[..l + 1])[s])
      ensures counts'[s] == |PointsOf(closest, s)| + multiset(sel[..l + 1])[s]
    {
      OnceMore(sel, l, s);
      if s == c {
        assert Repeat(id, multiset(sel[..l + 1])[c]) == Repeat(id, multiset(sel[..l])[c]) + [id];
      }
    }
  }

  lemma PointDone(files: seq<seq<nat>>, counts: seq<nat>, closest: seq<seq<nat>>, sel: seq<nat>)
    requires Midway(files, counts, closest, sel)
    ensures IdFiles(files, counts, closest + [sel])
  {
    assert (closest + [sel])[..|closest|] == closest;
  }

  method EmitPoint(files: array<seq<nat>>, counts: array<nat>, id: nat, sel: seq<nat>, ghost closest: seq<seq<nat>>)
    requires files.Length == counts.Length && id == |closest| && IdFiles(files[..], counts[..], closest)
    requires forall s :: s in sel ==> s < files.Length
    modifies files, counts
    ensures IdFiles(files[..], counts[..], closest + [sel])
  {
    for p1 := 0 to |sel|
      invariant Midway(files[..], counts[..], closest, sel[..p1])
    {
      var shard := sel[p1];
      assert shard in sel;
      MidwayNext(files[..], counts[..], closest, sel, p1);
      files[shard] := files[shard] + [id];
      counts[shard] := counts[shard] + 1;
    }
    assert sel[..|sel|] == sel;
    PointDone(files[..], counts[..], closest, sel);
  }

  method EmitBlock(files: array<seq<nat>>, counts: array<nat>, startId: nat, block: seq<seq<nat>>, k: nat,
                   ghost closest: seq<seq<nat>>)
    requires files.Length == counts.Length && startId == |closest| && IdFiles(files[..], counts[..], closest)
    requires Assigned(block, k, files.Length)
    modifies files, counts
    ensures IdFiles(files[..], counts[..], closest + block)
  {
    assert closest + block[..0] == closest;
    for p := 0 to |block|
      invariant IdFiles(files[..], counts[..], closest + block[..p])
    {
      EmitPoint(files, counts, startId + p, block[p], closest + block[..p]);
      assert closest + block[..p + 1] == closest + block[..p] + [block[p]];
    }
    assert block[..|block|] == block;
  }

  // What the block loop reads from the selection buffer: the k nearest shards, or, when k exceeds the number of
  // shards and nothing is ever written to the zeroed buffer, shard 0 every time.
  ghost predicate Selected(data: seq<Row>, dim: nat, pivots: seq<Row>, k: nat, closest: seq<seq<nat>>)
    requires Rows(data, dim) && Rows(pivots, dim)
  {
    if k <= |pivots| then AllNearest(data, dim, pivots, k, closest)
    else |closest| == |data| && forall i :: 0 <= i < |data| ==> closest[i] == Repeat(0, k)
  }

  /** Every point has k shards; they are distinct for every point exactly when k is at most the number of shards. */
  lemma SelectedAssigned(data: seq<Row>, dim: nat, pivots: seq<Row>, k: nat, closest: seq<seq<nat>>)
    requires Rows(data, dim) && Rows(pivots, dim) && Selected(data, dim, pivots, k, closest)
    requires k <= |pivots| || 0 < |pivots|
    ensures Assigned(closest, k, |pivots|)
    ensures data != [] ==> (DistinctShards(closest) <==> k <= |pivots|)
  {
    if k <= |pivots| {
      forall i | 0 <= i < |closest|
        ensures |closest[i]| == k && Distinct(closest[i]) && forall s :: s in closest[i] ==> s < |pivots|
      {
        assert KNearest(data[i], pivots, k, closest[i]);
      }
    } else if data != [] {
      assert closest[0][0] == closest[0][1];
    }
  }

  method SelectForBlock(block: seq<Row>, dim: nat, pivots: seq<Row>, k: nat) returns (closest: seq<seq<nat>>)
    requires Rows(block, dim) && Rows(pivots, dim)
    ensures Selected(block, dim, pivots, k, closest)
  {
    var norms := VecsL2Sq(block);
    var ok, inverted;
    ok, closest, inverted := ComputeClosestCenters(block, dim, pivots, k, norms);
    if !ok {
      closest := seq(|block|, _ => Repeat(0, k));
    }
  }

  lemma SelectedAppend(data: seq<Row>, block: seq<Row>, dim: nat, pivots: seq<Row>, k: nat, a: seq<seq<nat>>,
                       b: seq<seq<nat>>)
    requires Rows(data, dim) && Rows(block, dim) && Rows(data + block, dim) && Rows(pivots, dim)
    requires Selected(data, dim, pivots, k, a) && Selected(block, dim, pivots, k, b)
    ensures Selected(data + block, dim, pivots, k, a + b)
  {
  }

  method SortIntoShards(data: seq<Row>, dim: nat, pivots: seq<Row>, k: nat, cap: nat,
                        files: array<seq<nat>>, counts: array<nat>)
    returns (ghost closest: seq<seq<nat>>)
    requires Rows(data, dim) && Rows(pivots, dim) && (k <= |pivots| || 0 < |pivots|) && |data| > 0 && cap > 0
    requires files.Length == counts.Length == |pivots| && IdFiles(files[..], counts[..], [])
    modifies files, counts
    ensures Selected(data, dim, pivots, k, closest) && IdFiles(files[..], counts[..], closest)
  {
    var reader := new RowReader(data);
    var size := BlockSize(|data|, cap);
    closest := [];
    BlocksTile(|data|, size, 0);
    for b := 0 to DivRoundUp(|data|, size)
      invariant reader.next == BlockStart(|data|, size, b)
      invariant Selected(data[..reader.next], dim, pivots, k, closest) && IdFiles(files[..], counts[..], closest)
    {
      BlocksTile(|data|, size, b);
      var startId, endId := b * size, BlockStart(|data|, size, b + 1);
      var block := reader.Read(endId - startId);
      var near := SelectForBlock(block, dim, pivots, k);
      SelectedAssigned(block, dim, pivots, k, near);
      EmitBlock(files, counts, startId, near, k, closest);
      assert data[..endId] == data[..startId] + block;
      SelectedAppend(data[..startId], block, dim, pivots, k, closest, near);
      closest := closest + near;
    }
    assert data[..|data|] == data;
  }

  // What each finished id file holds.
  ghost predicate FinishedFiles(files: seq<seq<nat>>, closest: seq<seq<nat>>) {
    forall s :: 0 <= s < |files| ==> files[s] == [|PointsOf(closest, s)|, 1] + PointsOf(closest, s)
  }

  // Headers patched, the counts added up.
  method PatchCounts(files: array<seq<nat>>, counts: array<nat>, ghost closest: seq<seq<nat>>) returns (total: nat)
    requires files.Length == counts.Length && IdFiles(files[..], counts[..], closest)
    modifies files
    ensures FinishedFiles(files[..], closest) && total == TotalSize(closest, files.Length)
  {
    total := 0;
    for i := 0 to files.Length
      invariant total == TotalSize(closest, i)
      invariant FinishedFiles(files[..i], closest)
      invariant forall s :: i <= s < files.Length ==> files[s] == [0, 1] + PointsOf(closest, s)
      invariant forall s :: 0 <= s < files.Length ==> counts[s] == |PointsOf(closest, s)|
    {
      total := total + counts[i];
      ghost var rest := PointsOf(closest, i);
      files[i] := files[i][0 := counts[i]];
      assert files[i] == [|rest|, 1] + rest;
    }
    assert files[..files.Length] == files[..];
  }

  /** shard_data_into_clusters_only_ids. On 0 the id files hold every point once for each of its k selections, their
      counts are true and add up to k times the points. Every point is then in its k nearest shards and every list
      strictly increasing exactly when k is at most the number of shards; with more, all points go k times to shard 0.
      -1 is the refusal of a base of another dimension. fileDim is the dimension in the base file's header. */
  method ShardDataIntoClustersOnlyIds(data: seq<Row>, fileDim: nat, pivots: seq<Row>, dim: nat, k: nat)
    returns (code: int, idFiles: seq<seq<nat>>, total: nat, ghost closest: seq<seq<nat>>)
    requires Rows(data, fileDim) && Rows(pivots, dim) && (k <= |pivots| || 0 < |pivots|) && |data| > 0
    ensures code == if fileDim != dim then -1 else 0
    ensures code == -1 ==> idFiles == []
    ensures code == 0 ==> Selected(data, dim, pivots, k, closest) && Assigned(closest, k, |pivots|)
    ensures code == 0 ==> |idFiles| == |pivots| && FinishedFiles(idFiles, closest)
    ensures code == 0 ==> total == k * |data|
    ensures code == 0 ==>
              ((forall s: nat :: s < |pivots| ==> M.Increasing(PointsOf(closest, s))) <==> k <= |pivots|)
  {
    if fileDim != dim {
      return -1, [], 0, [];
    }
    var files := new seq<nat>[|pivots|](_ => [0, 1]);
    var counts := new nat[|pivots|](_ => 0);
    closest := SortIntoShards(data, dim, pivots, k, BLOCK_SIZE, files, counts);
    total := PatchCounts(files, counts, closest);
    SelectedAssigned(data, dim, pivots, k, closest);
    SizesSum(closest, k, |pivots|);
    IncreasingIff(closest, k, |pivots|);
    code, idFiles := 0, files[..];
  }

  /** An input with more selections than shards: one point, one shard, two selections, and the point is in twice. */
  method OneShardTwice() returns (code: int, idFiles: seq<seq<nat>>)
    ensures code == 0 && idFiles == [[2, 1, 0, 0]] && !M.Increasing([0, 0])
  {
    var total;
    ghost var closest;
    code, idFiles, total, closest := ShardDataIntoClustersOnlyIds([[0.0]], 1, [[0.0]], 1, 2);
    assert closest == [Repeat(0, 2)];
    OnlySelection(closest);
    assert idFiles[0] == [2, 1] + [0, 0] == [2, 1, 0, 0];
  }

  lemma OnlySelection(closest: seq<seq<nat>>)
    requires closest == [Repeat(0, 2)]
    ensures PointsOf(closest, 0) == [0, 0] && !M.Increasing([0, 0])
  {
    assert Repeat(0, 2) == [0, 0] && closest[..0] == [];
    assert multiset([0, 0])[0] == 2;
    calc {
      PointsOf(closest, 0);
      PointsOf(closest[..0], 0) + Repeat(0, multiset(closest[0])[0]);
      [] + Repeat(0, 2);
      [0, 0];
    }
    var s: seq<nat> := [0, 0];
    assert s[0] >= s[1];
  }

  // ---- retrieve_shard_data_from_ids ----

  // Ids that one forward pass over n rows can serve.
  ghost predicate Servable(ids: seq<nat>, n: nat) {
    M.Increasing(ids) && forall i :: 0 <= i < |ids| ==> ids[i] < n
  }

  lemma ShardServable(closest: seq<seq<nat>>, s: nat)
    requires DistinctShards(closest)
    ensures Servable(PointsOf(closest, s), |closest|)
  {
    var ids := PointsOf(closest, s);
    PointsOfSelected(closest, s);
    PointsOfIncreasing(closest, s);
    assert forall i :: 0 <= i < |ids| ==> ids[i] in ids;
  }

  // The next wanted id is behind the pass, so it will never be found: it breaks the order.
  ghost predicate Stuck(ids: seq<nat>, cur: nat) {
    cur < |ids| && 0 < cur && ids[cur] <= ids[cur - 1]
  }

  // After the rows below id: cur ids served, in order.
  ghost predicate Served<T>(rows: seq<T>, ids: seq<nat>, id: nat, cur: nat, out: seq<T>) {
    && cur <= |ids| && id <= |rows| && |out| == cur
    && Servable(ids[..cur], id)
    && (forall i :: 0 <= i < cur ==> ids[i] < |rows| && out[i] == rows[ids[i]])
    && (cur < |ids| && ids[cur] < id ==> Stuck(ids, cur))
  }

  lemma ServeOne<T>(rows: seq<T>, ids: seq<nat>, id: nat, cur: nat, out: seq<T>)
    requires Served(rows, ids, id, cur, out) && id < |rows| && cur < |ids|
    ensures if id == ids[cur] then Served(rows, ids, id + 1, cur + 1, out + [rows[id]])
            else Served(rows, ids, id + 1, cur, out)
  {
    assert ids[..cur + 1][..cur] == ids[..cur] || cur == |ids|;
    if id == ids[cur] {
      assert forall i :: 0 <= i < cur ==> ids[..cur][i] < id;
      assert M.Increasing(ids[..cur + 1]);
    }
  }

  // Where the scan ends, the served prefix is as long as it can be.
  lemma NothingMissed<T>(rows: seq<T>, ids: seq<nat>, cur: nat, out: seq<T>)
    requires Served(rows, ids, |rows|, cur, out) && cur < |ids|
    ensures !Servable(ids[..cur + 1], |rows|)
  {
    var longer := ids[..cur + 1];
    assert longer[cur] == ids[cur];
    if ids[cur] < |rows| {
      assert longer[cur - 1] == ids[cur - 1];
    }
  }

  method ScanBlock<T>(rows: seq<T>, ids: seq<nat>, startId: nat, block: seq<T>, cur0: nat, out0: seq<T>)
    returns (cur: nat, out: seq<T>)
    requires startId + |block| <= |rows| && block == rows[startId..startId + |block|]
    requires Served(rows, ids, startId, cur0, out0)
    ensures cur <= |ids| && (cur < |ids| ==> Served(rows, ids, startId + |block|, cur, out))
    ensures cur == |ids| ==> exists id :: Served(rows, ids, id, cur, out)
  {
    cur, out := cur0, out0;
    for p := 0 to |block|
      invariant Served(rows, ids, startId + p, cur, out)
    {
      var originalPointMapId := startId + p;
      if cur == |ids| {
        break;
      }
      ServeOne(rows, ids, originalPointMapId, cur, out);
      if originalPointMapId == ids[cur] {
        cur := cur + 1;
        out := out + [block[p]];
      }
    }
  }

  /** retrieve_shard_data_from_ids: writes the rows of the longest servable prefix of the ids, in order, and their
      number; so it writes all of them exactly when the ids are strictly increasing and in range. */
  method RetrieveShardDataFromIds<T>(rows: seq<T>, ids: seq<nat>) returns (numWritten: nat, out: seq<T>)
    requires |rows| > 0
    ensures numWritten == |out| <= |ids| && Servable(ids[..numWritten], |rows|)
    ensures forall i :: 0 <= i < numWritten ==> ids[i] < |rows| && out[i] == rows[ids[i]]
    ensures numWritten < |ids| ==> !Servable(ids[..numWritten + 1], |rows|)
    ensures numWritten == |ids| <==> Servable(ids, |rows|)
  {
    var cur: nat := 0;
    out := [];
    var reader := new RowReader(rows);
    var size := BlockSize(|rows|, BLOCK_SIZE);
    BlocksTile(|rows|, size, 0);
    for b := 0 to DivRoundUp(|rows|, size)
      invariant reader.next == BlockStart(|rows|, size, b)
      invariant Served(rows, ids, reader.next, cur, out)
    {
      BlocksTile(|rows|, size, b);
      var startId, endId := b * size, BlockStart(|rows|, size, b + 1);
      var block := reader.Read(endId - startId);
      cur, out := ScanBlock(rows, ids, startId, block, cur, out);
      if cur == |ids| {
        break;
      }
    }
    if cur < |ids| {
      NothingMissed(rows, ids, cur, out);
    } else {
      assert ids[..cur] == ids;
    }
    numWritten := |out|;
  }
}
