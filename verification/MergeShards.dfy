/** merge_shards (src/disk_utils.cpp:244-478): a streaming merge of the shard graphs. Each shard file is read once,
    front to back; a record is right only because the entries for a shard come up in the order of its ids. */
module MergeShards {
  import opened NeighborOrder
  import opened GraphFile

  type Entry = (nat, nat)  // node, shard

  predicate EntryLess(a: Entry, b: Entry) {
    a.0 < b.0 || (a.0 == b.0 && a.1 < b.1)
  }

  ghost predicate Increasing(s: seq<nat>) {
    forall i, j :: 0 <= i < j < |s| ==> s[i] < s[j]
  }

  ghost predicate SortedEntries(p: seq<Entry>) {
    forall i, j :: 0 <= i < j < |p| ==> EntryLess(p[i], p[j])
  }

  // One shard: its id map and the bytes of its graph; `lists` is what the graph file encodes.
  datatype Shard = Shard(idmap: seq<nat>, file: seq<nat>, ghost medoid: nat, ghost lists: seq<seq<nat>>) {
    ghost predicate WellFormed() {
      && Increasing(idmap)
      && |lists| == |idmap| && medoid < |idmap|
      && (forall v, i :: 0 <= v < |lists| && 0 <= i < |lists[v]| ==> lists[v][i] < |idmap|)
    }

    ghost predicate FileMatches() {
      exists width, frozen :: file == Encoded(lists, width, medoid, frozen)
    }
  }

  function RenamedList(idmap: seq<nat>, list: seq<nat>): (r: seq<nat>)
    requires forall i :: 0 <= i < |list| ==> list[i] < |idmap|
    ensures |r| == |list| && forall i :: 0 <= i < |list| ==> r[i] == idmap[list[i]]
  {
    seq(|list|, i requires 0 <= i < |list| => idmap[list[i]])
  }

  // ---- the specification of one record ----

  // Node v's renamed neighbours in shard s.
  ghost function Contribution(sh: Shard, v: nat): set<nat>
    requires sh.WellFormed()
  {
    if v in sh.idmap then
      var k :| 0 <= k < |sh.idmap| && sh.idmap[k] == v;
      Elems(RenamedList(sh.idmap, sh.lists[k]))
    else {}
  }

  ghost predicate AllWellFormed(shards: seq<Shard>) {
    forall s :: 0 <= s < |shards| ==> shards[s].WellFormed()
  }

  ghost function UnionOf(shards: seq<Shard>, v: nat, m: nat): set<nat>
    requires AllWellFormed(shards) && m <= |shards|
  {
    if m == 0 then {} else UnionOf(shards, v, m - 1) + Contribution(shards[m - 1], v)
  }

  ghost predicate MergedRecord(u: set<nat>, maxDegree: nat, r: seq<nat>) {
    && Distinct(r)
    && Elems(r) <= u
    && |r| == if |u| < maxDegree then |u| else maxDegree
  }

  // The id maps together cover 0..n-1 and nothing else.
  ghost predicate Covers(shards: seq<Shard>, n: nat) {
    && n > 0
    && Within(shards, n)
    && (forall v :: 0 <= v < n ==> Held(shards, v))
  }

  // All ids are below n.
  ghost predicate Within(shards: seq<Shard>, n: nat) {
    forall s, v :: 0 <= s < |shards| && v in shards[s].idmap ==> v < n
  }

  ghost predicate Held(shards: seq<Shard>, v: nat) {
    exists s :: 0 <= s < |shards| && v in shards[s].idmap
  }

  // ---- the order of the entries ----

  ghost predicate IsInverseMap(shards: seq<Shard>, p: seq<Entry>) {
    && SortedEntries(p)
    && (forall e :: e in p <==> e.1 < |shards| && e.0 in shards[e.1].idmap)
  }

  // The nodes of shard s in the order the entries name them.
  ghost function NodesOf(p: seq<Entry>, s: nat): seq<nat> {
    if p == [] then [] else NodesOf(p[..|p| - 1], s) + if p[|p| - 1].1 == s then [p[|p| - 1].0] else []
  }

  lemma {:induction false} NodesOfIncreasing(p: seq<Entry>, s: nat)
    requires SortedEntries(p)
    ensures Increasing(NodesOf(p, s))
    ensures forall v :: v in NodesOf(p, s) <==> (v, s) in p
  {
    if p != [] {
      var q, e := p[..|p| - 1], p[|p| - 1];
      NodesOfIncreasing(q, s);
      assert p == q + [e];
      forall v | v in NodesOf(q, s) && e.1 == s ensures v < e.0 {
        var i :| 0 <= i < |q| && q[i] == (v, s);
        assert EntryLess(p[i], p[|p| - 1]);
      }
      assert forall i :: 0 <= i < |NodesOf(q, s)| ==> NodesOf(q, s)[i] in NodesOf(q, s);
    }
  }

  lemma {:induction false} NodesOfPrefix(p: seq<Entry>, j: nat, s: nat)
    requires j <= |p|
    ensures NodesOf(p[..j], s) <= NodesOf(p, s)
  {
    if j < |p| {
      var q := p[..|p| - 1];
      NodesOfPrefix(q, j, s);
      assert q[..j] == p[..j];
    } else {
      assert p[..j] == p;
    }
  }

  lemma IncreasingUnique(a: seq<nat>, b: seq<nat>)
    requires Increasing(a) && Increasing(b) && forall v :: v in a <==> v in b
    ensures a == b
  {
    var d: Distance := _ => 0.0;
    assert Elems(a) == Elems(b);
    RankedUnique(d, a, b);
  }

  /** The reader of a shard is always where the next entry for that shard needs it: the number of its entries so far is
      the index of the node in its id map. */
  lemma NextNode(shards: seq<Shard>, p: seq<Entry>, j: nat)
    requires AllWellFormed(shards) && IsInverseMap(shards, p) && j < |p|
    ensures p[j].1 < |shards|
    ensures var (v, s) := p[j];
            var k := |NodesOf(p[..j], s)|;
            k < |shards[s].idmap| && shards[s].idmap[k] == v && NodesOf(p[..j + 1], s) == NodesOf(p[..j], s) + [v]
    ensures forall t :: t != p[j].1 ==> NodesOf(p[..j + 1], t) == NodesOf(p[..j], t)
  {
    var (v, s) := p[j];
    assert p[j] in p;
    assert p[..j + 1][..j] == p[..j];
    NodesOfIncreasing(p, s);
    assert forall w :: w in NodesOf(p, s) <==> (w, s) in p;
    IncreasingUnique(NodesOf(p, s), shards[s].idmap);
    NodesOfPrefix(p, j + 1, s);
  }

  // ---- building the inverse map ----

  method SortEntries(p: seq<Entry>) returns (r: seq<Entry>)
    requires Distinct(p)
    ensures SortedEntries(r) && forall e :: e in r <==> e in p
  {
    r := [];
    for k := 0 to |p|
      invariant SortedEntries(r) && forall e :: e in r <==> e in p[..k]
    {
      var i := |r|;
      assert p[k] !in p[..k];
      while i > 0 && EntryLess(p[k], r[i - 1])
        invariant 0 <= i <= |r|
        invariant forall t :: i <= t < |r| ==> EntryLess(p[k], r[t])
      {
        i := i - 1;
      }
      assert i > 0 ==> r[i - 1] in r && EntryLess(r[i - 1], p[k]);
      SortedInsert(r, p[k], i);
      assert r == r[..i] + r[i..];
      assert p[..k + 1] == p[..k] + [p[k]];
      r := r[..i] + [p[k]] + r[i..];
    }
    assert p[..|p|] == p;
  }

  lemma SortedInsert(r: seq<Entry>, e: Entry, i: nat)
    requires SortedEntries(r) && i <= |r|
    requires (i > 0 ==> EntryLess(r[i - 1], e)) && forall t :: i <= t < |r| ==> EntryLess(e, r[t])
    ensures SortedEntries(r[..i] + [e] + r[i..])
  {
    var q := r[..i] + [e] + r[i..];
    forall a, b | 0 <= a < b < |q| ensures EntryLess(q[a], q[b]) {
      assert q[a] == if a < i then r[a] else if a == i then e else r[a - 1];
      assert q[b] == if b < i then r[b] else if b == i then e else r[b - 1];
    }
  }

  method InverseMap(shards: seq<Shard>) returns (nodeShard: seq<Entry>)
    requires AllWellFormed(shards)
    ensures IsInverseMap(shards, nodeShard)
  {
    var p: seq<Entry> := [];
    for s := 0 to |shards|
      invariant Distinct(p) && forall e :: e in p <==> e.1 < s && e.0 in shards[e.1].idmap
    {
      var idmap := shards[s].idmap;
      for k := 0 to |idmap|
        invariant Distinct(p)
        invariant forall e :: e in p <==> (e.1 < s && e.0 in shards[e.1].idmap) || (e.1 == s && e.0 in idmap[..k])
      {
        assert idmap[..k + 1] == idmap[..k] + [idmap[k]];
        assert idmap[k] !in idmap[..k];
        assert (idmap[k], s) !in p;
        p := p + [(idmap[k], s)];
      }
      assert idmap[..|idmap|] == idmap;
    }
    nodeShard := SortEntries(p);
  }

  method CountNodes(shards: seq<Shard>) returns (nnodes: nat)
    requires AllWellFormed(shards)
    ensures nnodes > 0 && Within(shards, nnodes)
    ensures nnodes == 1 || Held(shards, nnodes - 1)
    ensures forall n: nat :: Covers(shards, n) ==> nnodes == n
  {
    var top := 0;
    for s := 0 to |shards|
      invariant forall t, v :: 0 <= t < s && v in shards[t].idmap ==> v <= top
      invariant top == 0 || exists t :: 0 <= t < s && top in shards[t].idmap
    {
      var idmap := shards[s].idmap;
      for k := 0 to |idmap|
        invariant forall t, v :: 0 <= t < s && v in shards[t].idmap ==> v <= top
        invariant forall v :: v in idmap[..k] ==> v <= top
        invariant top == 0 || exists t :: 0 <= t <= s && top in shards[t].idmap
      {
        assert idmap[..k + 1] == idmap[..k] + [idmap[k]];
        if idmap[k] > top {
          top := idmap[k];
          assert top in shards[s].idmap;
        }
      }
      assert idmap[..|idmap|] == idmap;
    }
    nnodes := top + 1;
    forall n: nat | Covers(shards, n) ensures nnodes == n {
      assert Held(shards, n - 1);
    }
  }

  // ---- one record ----

  // std::shuffle: some rearrangement.
  method Shuffle(s: seq<nat>) returns (r: seq<nat>)
    requires Distinct(s)
    ensures Distinct(r) && Elems(r) == Elems(s) && |r| == |s|
  {
    var rest := Elems(s);
    r := [];
    while rest != {}
      invariant rest <= Elems(s) && Distinct(r) && Elems(r) == Elems(s) - rest
      decreases rest
    {
      var x :| x in rest;
      assert x !in Elems(r);
      r := r + [x];
      rest := rest - {x};
    }
    DistinctCard(r);
    DistinctCard(s);
  }

  // Shuffled, cut to maxDegree, written with its length.
  method EmitRecord(out: WordWriter, finalNhood: seq<nat>, maxDegree: nat) returns (bytes: nat, ghost record: seq<nat>)
    requires out.pos == |out.file| && Distinct(finalNhood)
    modifies out
    ensures out.file == old(out.file) + Record(record) && out.pos == |out.file| && bytes == 4 * |Record(record)|
    ensures MergedRecord(Elems(finalNhood), maxDegree, record)
  {
    var shuffled := Shuffle(finalNhood);
    var nnbrs := if |shuffled| < maxDegree then |shuffled| else maxDegree;
    WriteRecord(out, shuffled[..nnbrs]);
    bytes := 4 + 4 * nnbrs;
    record := shuffled[..nnbrs];
    DistinctCard(finalNhood);
    assert forall x :: x in record ==> x in Elems(shuffled);
  }

  // nhood_set marks exactly the ids in final_nhood.
  ghost predicate Marks(nhoodSet: array<bool>, finalNhood: seq<nat>)
    reads nhoodSet
  {
    && Distinct(finalNhood)
    && (forall x :: x in finalNhood ==> x < nhoodSet.Length)
    && (forall x :: 0 <= x < nhoodSet.Length ==> (nhoodSet[x] <==> x in finalNhood))
  }

  method AddNeighbours(nhoodSet: array<bool>, finalNhood: seq<nat>, idmap: seq<nat>,
                       list: seq<nat>) returns (r: seq<nat>)
    requires Marks(nhoodSet, finalNhood)
    requires forall i :: 0 <= i < |list| ==> list[i] < |idmap| && idmap[list[i]] < nhoodSet.Length
    modifies nhoodSet
    ensures Marks(nhoodSet, r) && Elems(r) == Elems(finalNhood) + Elems(RenamedList(idmap, list))
  {
    r := finalNhood;
    ghost var names := RenamedList(idmap, list);
    for k := 0 to |list|
      invariant Marks(nhoodSet, r) && Elems(r) == Elems(finalNhood) + Elems(names[..k])
    {
      var id := idmap[list[k]];
      assert names[..k + 1] == names[..k] + [id];
      if !nhoodSet[id] {
        nhoodSet[id] := true;
        r := r + [id];
      }
    }
    assert names[..|list|] == names;
  }

  method ClearMarks(nhoodSet: array<bool>, finalNhood: seq<nat>)
    requires Marks(nhoodSet, finalNhood)
    modifies nhoodSet
    ensures Marks(nhoodSet, [])
  {
    for k := 0 to |finalNhood|
      invariant forall x :: 0 <= x < nhoodSet.Length ==> (nhoodSet[x] <==> x in finalNhood && x !in finalNhood[..k])
    {
      assert finalNhood[..k + 1] == finalNhood[..k] + [finalNhood[k]];
      assert finalNhood[k] in finalNhood;
      nhoodSet[finalNhood[k]] := false;
    }
    assert finalNhood[..|finalNhood|] == finalNhood;
  }

  // ---- the merge ----

  // What the entries p[..j] contribute to node v.
  ghost function Gathered(shards: seq<Shard>, p: seq<Entry>, j: nat, v: nat): set<nat>
    requires AllWellFormed(shards) && j <= |p| && forall i :: 0 <= i < |p| ==> p[i].1 < |shards|
  {
    if j == 0 then {}
    else Gathered(shards, p, j - 1, v) + if p[j - 1].0 == v then Contribution(shards[p[j - 1].1], v) else {}
  }

  lemma {:induction false} GatheredWithin(shards: seq<Shard>, p: seq<Entry>, j: nat, v: nat)
    requires AllWellFormed(shards) && j <= |p| && (forall i :: 0 <= i < |p| ==> p[i].1 < |shards|)
    ensures Gathered(shards, p, j, v) <= UnionOf(shards, v, |shards|)
    decreases j
  {
    if j > 0 {
      GatheredWithin(shards, p, j - 1, v);
      PartOfUnion(shards, v, p[j - 1].1, |shards|);
    }
  }

  lemma {:induction false} PartOfUnion(shards: seq<Shard>, v: nat, s: nat, m: nat)
    requires AllWellFormed(shards) && s < m <= |shards|
    ensures Contribution(shards[s], v) <= UnionOf(shards, v, m)
  {
    if s < m - 1 {
      PartOfUnion(shards, v, s, m - 1);
    }
  }

  lemma {:induction false} PartOfGathered(shards: seq<Shard>, p: seq<Entry>, j: nat, v: nat, i: nat)
    requires AllWellFormed(shards) && i < j <= |p| && (forall t :: 0 <= t < |p| ==> p[t].1 < |shards|) && p[i].0 == v
    ensures Contribution(shards[p[i].1], v) <= Gathered(shards, p, j, v)
    decreases j
  {
    if i < j - 1 {
      PartOfGathered(shards, p, j - 1, v, i);
    }
  }

  // Once every entry of v is behind, all shards' contributions were gathered.
  lemma GatheredAll(shards: seq<Shard>, p: seq<Entry>, j: nat, v: nat)
    requires AllWellFormed(shards) && IsInverseMap(shards, p) && j <= |p| && (j < |p| ==> p[j].0 > v)
    requires forall i :: 0 <= i < |p| ==> p[i].1 < |shards|
    ensures Gathered(shards, p, j, v) == UnionOf(shards, v, |shards|)
  {
    GatheredWithin(shards, p, j, v);
    UnionWithin(shards, p, j, v, |shards|);
  }

  lemma {:induction false} UnionWithin(shards: seq<Shard>, p: seq<Entry>, j: nat, v: nat, m: nat)
    requires AllWellFormed(shards) && IsInverseMap(shards, p) && j <= |p| && (j < |p| ==> p[j].0 > v) && m <= |shards|
    requires forall i :: 0 <= i < |p| ==> p[i].1 < |shards|
    ensures UnionOf(shards, v, m) <= Gathered(shards, p, j, v)
  {
    if m > 0 {
      UnionWithin(shards, p, j, v, m - 1);
      if v in shards[m - 1].idmap {
        assert (v, m - 1) in p;
        var i :| 0 <= i < |p| && p[i] == (v, m - 1);
        Behind(p, j, v, i);
        PartOfGathered(shards, p, j, v, i);
      }
    }
  }

  lemma Behind(p: seq<Entry>, j: nat, v: nat, i: nat)
    requires SortedEntries(p) && j <= |p| && (j < |p| ==> p[j].0 > v) && i < |p| && p[i].0 == v
    ensures i < j
  {
    assert j < i ==> EntryLess(p[j], p[i]);
  }

  lemma GatheredNone(shards: seq<Shard>, p: seq<Entry>, j: nat, v: nat)
    requires AllWellFormed(shards) && j <= |p| && (forall i :: 0 <= i < |p| ==> p[i].1 < |shards|)
    requires forall i :: 0 <= i < j ==> p[i].0 < v
    ensures Gathered(shards, p, j, v) == {}
  {
  }

  // ---- whose records are written ----

  function LastNode(p: seq<Entry>, j: nat): nat
    requires j <= |p|
  {
    if j == 0 then 0 else p[j - 1].0
  }

  // The nodes cur_id has stood for once j entries are read; it starts at 0 and follows the entries.
  ghost function NodesBy(p: seq<Entry>, j: nat): seq<nat>
    requires j <= |p|
  {
    if j == 0 then [0]
    else NodesBy(p, j - 1) + if LastNode(p, j - 1) < p[j - 1].0 then [p[j - 1].0] else []
  }

  /** They are node 0, held or not, and the nodes of the entries read, in increasing order. */
  lemma {:induction false} NodesByEntries(p: seq<Entry>, j: nat)
    requires SortedEntries(p) && j <= |p|
    ensures |NodesBy(p, j)| > 0 && NodesBy(p, j)[|NodesBy(p, j)| - 1] == LastNode(p, j)
    ensures Increasing(NodesBy(p, j))
    ensures forall v: nat :: v in NodesBy(p, j) <==> v == 0 || Named(p, j, v)
    decreases j
  {
    if j > 0 {
      NodesByEntries(p, j - 1);
      assert j > 1 ==> EntryLess(p[j - 2], p[j - 1]);
      NamedNext(p, j - 1);
      var before, x := NodesBy(p, j - 1), p[j - 1].0;
      if LastNode(p, j - 1) < x {
        IncreasingSnoc(before, x);
      } else {
        assert before[|before| - 1] == x && NodesBy(p, j) == before;
      }
    }
  }

  // One of the first j entries names v.
  ghost predicate Named(p: seq<Entry>, j: nat, v: nat)
    requires j <= |p|
  {
    exists i :: 0 <= i < j && p[i].0 == v
  }

  lemma NamedNext(p: seq<Entry>, j: nat)
    requires j < |p|
    ensures forall v: nat :: Named(p, j + 1, v) <==> Named(p, j, v) || v == p[j].0
  {
    forall v: nat ensures Named(p, j + 1, v) <==> Named(p, j, v) || v == p[j].0 {
      if v == p[j].0 {
        assert p[j].0 == v && Named(p, j + 1, v);
      }
    }
  }

  lemma IncreasingSnoc(s: seq<nat>, x: nat)
    requires Increasing(s) && s != [] && s[|s| - 1] < x
    ensures Increasing(s + [x]) && forall v :: v in s + [x] <==> v in s || v == x
  {
    assert forall i :: 0 <= i < |s| ==> s[i] <= s[|s| - 1];
  }

  lemma LastOfNodes(p: seq<Entry>, j: nat)
    requires SortedEntries(p) && j <= |p|
    ensures |NodesBy(p, j)| > 0 && NodesBy(p, j)[|NodesBy(p, j)| - 1] == LastNode(p, j)
  {
    NodesByEntries(p, j);
  }

  lemma NodesNext(p: seq<Entry>, j: nat, nodes: seq<nat>)
    requires SortedEntries(p) && j < |p| && nodes == NodesBy(p, j)
    ensures nodes != [] && nodes[|nodes| - 1] == LastNode(p, j)
    ensures NodesBy(p, j + 1) == nodes + if LastNode(p, j) < p[j].0 then [p[j].0] else []
  {
    NodesByEntries(p, j);
  }

  // The nodes a record is written for, in the order of the records.
  ghost predicate AreWritten(shards: seq<Shard>, nodes: seq<nat>) {
    && Increasing(nodes)
    && forall v: nat :: v in nodes <==> v == 0 || Held(shards, v)
  }

  lemma WrittenNodes(shards: seq<Shard>, p: seq<Entry>)
    requires IsInverseMap(shards, p)
    ensures AreWritten(shards, NodesBy(p, |p|))
  {
    NodesByEntries(p, |p|);
    forall v: nat ensures Named(p, |p|, v) <==> Held(shards, v) {
      if i :| 0 <= i < |p| && p[i].0 == v {
        assert p[i] in p;
      }
      if Held(shards, v) {
        var s :| 0 <= s < |shards| && v in shards[s].idmap;
        assert (v, s) in p;
      }
    }
  }

  // Every node but 0 below a held one is held.
  ghost predicate NoGap(shards: seq<Shard>) {
    forall v: nat, w: nat :: 0 < v < w && Held(shards, w) ==> Held(shards, v)
  }

  ghost predicate InPlace(nodes: seq<nat>) {
    forall k :: 0 <= k < |nodes| ==> nodes[k] == k
  }

  lemma {:induction false} IncreasingAbove(nodes: seq<nat>, k: nat)
    requires Increasing(nodes) && k < |nodes|
    ensures k <= nodes[k]
  {
    if k > 0 {
      IncreasingAbove(nodes, k - 1);
    }
  }

  /** Record v of the merged file is node v's, for every v, if and only if the id maps leave no gap above 0; with a gap
      all later records shift down. */
  lemma RecordsInPlace(shards: seq<Shard>, nodes: seq<nat>)
    requires AreWritten(shards, nodes)
    ensures InPlace(nodes) <==> NoGap(shards)
  {
    if InPlace(nodes) {
      forall v: nat, w: nat | 0 < v < w && Held(shards, w) ensures Held(shards, v) {
        assert w in nodes;
        assert nodes[v] == v && nodes[v] in nodes;
      }
    }
    if NoGap(shards) {
      InPlaceUpTo(shards, nodes, |nodes|);
    }
  }

  lemma {:induction false} InPlaceUpTo(shards: seq<Shard>, nodes: seq<nat>, m: nat)
    requires AreWritten(shards, nodes) && NoGap(shards) && m <= |nodes|
    ensures forall k :: 0 <= k < m ==> nodes[k] == k
  {
    if m > 0 {
      var k := m - 1;
      InPlaceUpTo(shards, nodes, k);
      IncreasingAbove(nodes, k);
      assert nodes[k] in nodes;
      assert k in nodes;
      var i :| 0 <= i < |nodes| && nodes[i] == k;
    }
  }

  lemma CoveredInPlace(shards: seq<Shard>, nodes: seq<nat>, n: nat)
    requires AreWritten(shards, nodes) && Covers(shards, n)
    ensures |nodes| == n && InPlace(nodes)
  {
    RecordsInPlace(shards, nodes);
    assert Held(shards, n - 1) && n - 1 in nodes;
    assert nodes[|nodes| - 1] in nodes && nodes[|nodes| - 1] < n;
  }

  // How many records of shard s entries p[..j] take.
  ghost function ReadBy(p: seq<Entry>, j: nat, s: nat): nat
    requires j <= |p|
  {
    |NodesOf(p[..j], s)|
  }

  ghost predicate ReaderAt(sh: Shard, reader: WordReader, k: nat)
    reads reader
  {
    reader.file == sh.file && Aligned(sh.file, reader.pos, sh.lists, k)
  }

  // Each reader stands at the record of the next node its shard contributes.
  ghost predicate ReadersAt(shards: seq<Shard>, readers: seq<WordReader>, p: seq<Entry>, j: nat)
    reads readers
    requires j <= |p|
  {
    && |readers| == |shards|
    && (forall s, t :: 0 <= s < t < |readers| ==> readers[s] != readers[t])
    && (forall s :: 0 <= s < |readers| ==>
          ReaderAt(shards[s], readers[s], ReadBy(p, j, s)))
  }

  // Opening one reader and reading its header, the medoid renamed.
  method OpenReader(sh: Shard) returns (reader: WordReader, medoid: nat)
    requires sh.WellFormed() && sh.FileMatches()
    ensures fresh(reader) && ReaderAt(sh, reader, 0) && medoid == sh.idmap[sh.medoid]
  {
    ghost var width, frozen :| sh.file == Encoded(sh.lists, width, sh.medoid, frozen);
    HeaderFields(sh.lists, width, sh.medoid, frozen);
    reader := new WordReader(sh.file);
    var ok, words := reader.Read(HEADER_WORDS);
    medoid := sh.idmap[words[3]];
  }

  ghost predicate AllMatch(shards: seq<Shard>) {
    forall s :: 0 <= s < |shards| ==> shards[s].FileMatches()
  }

  // All readers and medoids.
  method OpenReaders(shards: seq<Shard>, ghost p: seq<Entry>) returns (readers: seq<WordReader>, medoids: seq<nat>)
    requires AllWellFormed(shards) && AllMatch(shards)
    ensures fresh(readers) && ReadersAt(shards, readers, p, 0)
    ensures medoids == RenamedMedoids(shards)
  {
    readers, medoids := [], [];
    for s := 0 to |shards|
      invariant |readers| == s == |medoids| && fresh(readers)
      invariant forall a, b :: 0 <= a < b < s ==> readers[a] != readers[b]
      invariant forall a :: 0 <= a < s ==> ReaderAt(shards[a], readers[a], 0)
      invariant medoids == RenamedMedoids(shards)[..s]
    {
      var reader, medoid := OpenReader(shards[s]);
      assert forall a :: 0 <= a < s ==> readers[a] != reader;
      readers := readers + [reader];
      medoids := medoids + [medoid];
    }
  }

  ghost function RenamedMedoids(shards: seq<Shard>): seq<nat>
    requires AllWellFormed(shards)
  {
    seq(|shards|, s requires 0 <= s < |shards| => shards[s].idmap[shards[s].medoid])
  }

  lemma LastMedoid(shards: seq<Shard>)
    requires AllWellFormed(shards) && |shards| > 0
    ensures var last := shards[|shards| - 1];
            |RenamedMedoids(shards)| == |shards| && RenamedMedoids(shards)[|shards| - 1] == last.idmap[last.medoid]
  {
  }

  method ReadNext(reader: WordReader, ghost sh: Shard, ghost k: nat) returns (list: seq<nat>)
    requires ReaderAt(sh, reader, k) && k < |sh.lists|
    modifies reader
    ensures list == sh.lists[k] && ReaderAt(sh, reader, k + 1)
  {
    NextRecord(reader.file, reader.pos, sh.lists, k);
    var ok, head := reader.Read(1);
    ok, list := reader.Read(head[0]);
  }

  // Reading the list of entry j and moving only its reader.
  method ReadEntry(shards: seq<Shard>, readers: seq<WordReader>, p: seq<Entry>, j: nat) returns (list: seq<nat>)
    requires AllWellFormed(shards) && IsInverseMap(shards, p) && j < |p| && ReadersAt(shards, readers, p, j)
    modifies readers
    ensures ReadersAt(shards, readers, p, j + 1) && IsEntryList(shards, p[j], list)
  {
    EntryAt(shards, p, j);
    var s := p[j].1;
    list := ReadNext(readers[s], shards[s], ReadBy(p, j, s));
    forall t | 0 <= t < |readers| ensures ReaderAt(shards[t], readers[t], ReadBy(p, j + 1, t)) {
      assert t < s ==> readers[t] != readers[s];
      assert s < t ==> readers[s] != readers[t];
    }
  }

  // The list of an entry's node in its shard.
  ghost predicate IsEntryList(shards: seq<Shard>, e: Entry, list: seq<nat>)
    requires AllWellFormed(shards)
  {
    && e.1 < |shards|
    && (forall i :: 0 <= i < |list| ==> list[i] < |shards[e.1].idmap|)
    && Contribution(shards[e.1], e.0) == Elems(RenamedList(shards[e.1].idmap, list))
  }

  // What entry j asks for, and how far the shards are read after it.
  lemma EntryAt(shards: seq<Shard>, p: seq<Entry>, j: nat)
    requires AllWellFormed(shards) && IsInverseMap(shards, p) && j < |p|
    ensures var (v, s) := p[j];
            var k := ReadBy(p, j, s);
            && s < |shards| && v in shards[s].idmap && k < |shards[s].lists| && ReadBy(p, j + 1, s) == k + 1
            && (forall i :: 0 <= i < |shards[s].lists[k]| ==> shards[s].lists[k][i] < |shards[s].idmap|)
            && Contribution(shards[s], v) == Elems(RenamedList(shards[s].idmap, shards[s].lists[k]))
    ensures forall t: nat :: t != p[j].1 ==> ReadBy(p, j + 1, t) == ReadBy(p, j, t)
  {
    NextNode(shards, p, j);
    var (v, s) := p[j];
    ContributionAt(shards[s], v, ReadBy(p, j, s));
  }

  lemma ContributionAt(sh: Shard, v: nat, k: nat)
    requires sh.WellFormed() && k < |sh.idmap| && sh.idmap[k] == v
    ensures k < |sh.lists| && forall i :: 0 <= i < |sh.lists[k]| ==> sh.lists[k][i] < |sh.idmap|
    ensures Contribution(sh, v) == Elems(RenamedList(sh.idmap, sh.lists[k]))
  {
    assert forall i :: 0 <= i < |sh.idmap| && sh.idmap[i] == v ==> i == k;
  }

  ghost predicate InRange(shards: seq<Shard>, p: seq<Entry>) {
    forall i :: 0 <= i < |p| ==> p[i].1 < |shards|
  }

  lemma EntriesInRange(shards: seq<Shard>, p: seq<Entry>)
    requires IsInverseMap(shards, p)
    ensures InRange(shards, p)
  {
    assert forall i :: 0 <= i < |p| ==> p[i] in p;
  }

  // The records of all nodes but the last are right, and the open one holds what entries p[..j] gave.
  ghost predicate Merging(u: Target, shards: seq<Shard>, p: seq<Entry>, j: nat, nodes: seq<nat>, finalNhood: seq<nat>,
                          records: seq<seq<nat>>, maxDegree: nat)
    requires AllWellFormed(shards) && j <= |p| && InRange(shards, p)
  {
    && |records| + 1 == |nodes|
    && RecordsRight(u, nodes, records, maxDegree)
    && Elems(finalNhood) == Gathered(shards, p, j, nodes[|records|])
  }

  // The unions as a function of the node.
  type Target = nat -> set<nat>

  ghost predicate IsTarget(u: Target, shards: seq<Shard>)
    requires AllWellFormed(shards)
  {
    forall v: nat {:trigger UnionOf(shards, v, |shards|)} :: u(v) == UnionOf(shards, v, |shards|)
  }

  ghost predicate RecordsRight(u: Target, nodes: seq<nat>, records: seq<seq<nat>>, maxDegree: nat) {
    && |records| <= |nodes|
    && forall k :: 0 <= k < |records| ==> MergedRecord(u(nodes[k]), maxDegree, records[k])
  }

  lemma OneMoreRight(u: Target, nodes: seq<nat>, records: seq<seq<nat>>, record: seq<nat>, maxDegree: nat)
    requires RecordsRight(u, nodes, records, maxDegree) && |records| < |nodes|
    requires MergedRecord(u(nodes[|records|]), maxDegree, record)
    ensures RecordsRight(u, nodes, records + [record], maxDegree)
  {
  }

  lemma NextNodeRight(u: Target, nodes: seq<nat>, v: nat, records: seq<seq<nat>>, maxDegree: nat)
    requires RecordsRight(u, nodes, records, maxDegree)
    ensures RecordsRight(u, nodes + [v], records, maxDegree)
  {
  }

  // Passing to a new node: the previous one is complete.
  lemma NodeComplete(shards: seq<Shard>, p: seq<Entry>, j: nat)
    requires AllWellFormed(shards) && IsInverseMap(shards, p) && j < |p| && InRange(shards, p)
    requires LastNode(p, j) < p[j].0
    ensures Gathered(shards, p, j, LastNode(p, j)) == UnionOf(shards, LastNode(p, j), |shards|)
    ensures Gathered(shards, p, j, p[j].0) == {}
  {
    GatheredAll(shards, p, j, LastNode(p, j));
    EarlierBelow(p, j);
    GatheredNone(shards, p, j, p[j].0);
  }

  lemma EarlierBelow(p: seq<Entry>, j: nat)
    requires SortedEntries(p) && j < |p| && LastNode(p, j) < p[j].0
    ensures forall i :: 0 <= i < j ==> p[i].0 < p[j].0
  {
    assert forall i :: 0 <= i < j - 1 ==> EntryLess(p[i], p[j - 1]);
  }

  // Writing out the open record when the next entry belongs to another node.
  method FinishNode(ghost u: Target, shards: seq<Shard>, p: seq<Entry>, j: nat, nhoodSet: array<bool>,
                    finalNhood: seq<nat>, ghost nodes: seq<nat>, ghost records: seq<seq<nat>>, maxDegree: nat,
                    out: WordWriter)
    returns (bytes: nat, ghost records': seq<seq<nat>>)
    requires AllWellFormed(shards) && IsTarget(u, shards) && IsInverseMap(shards, p)
    requires j < |p| && InRange(shards, p) && nodes != [] && nodes[|nodes| - 1] == LastNode(p, j)
    requires LastNode(p, j) < p[j].0 && Marks(nhoodSet, finalNhood) && out.pos == |out.file|
    requires Merging(u, shards, p, j, nodes, finalNhood, records, maxDegree)
    modifies nhoodSet, out
    ensures Marks(nhoodSet, []) && Merging(u, shards, p, j, nodes + [p[j].0], [], records', maxDegree)
    ensures |records'| == |records| + 1 && records' == records + [records'[|records|]]
    ensures out.file == old(out.file) + Record(records'[|records|]) && out.pos == |out.file|
    ensures bytes == 4 * |Record(records'[|records|])|
  {
    NodeComplete(shards, p, j);
    ghost var record;
    bytes, record := EmitRecord(out, finalNhood, maxDegree);
    assert Elems(finalNhood) == u(nodes[|records|]);
    OneMoreRight(u, nodes, records, record, maxDegree);
    records' := records + [record];
    NextNodeRight(u, nodes, p[j].0, records', maxDegree);
    ClearMarks(nhoodSet, finalNhood);
  }

  // One entry: read its list and add the renamed neighbours to the open record.
  method MergeEntry(ghost u: Target, shards: seq<Shard>, readers: seq<WordReader>, p: seq<Entry>, j: nat,
                    nhoodSet: array<bool>, finalNhood: seq<nat>, ghost nodes: seq<nat>, ghost records: seq<seq<nat>>,
                    maxDegree: nat)
    returns (finalNhood': seq<nat>)
    requires AllWellFormed(shards) && IsInverseMap(shards, p) && j < |p| && InRange(shards, p)
    requires Within(shards, nhoodSet.Length) && nodes != [] && nodes[|nodes| - 1] == p[j].0
    requires ReadersAt(shards, readers, p, j) && Marks(nhoodSet, finalNhood)
    requires Merging(u, shards, p, j, nodes, finalNhood, records, maxDegree)
    modifies readers, nhoodSet
    ensures ReadersAt(shards, readers, p, j + 1) && Marks(nhoodSet, finalNhood')
    ensures Merging(u, shards, p, j + 1, nodes, finalNhood', records, maxDegree)
  {
    var s := p[j].1;
    var list := ReadEntry(shards, readers, p, j);
    EntryGathered(shards, p, j, list, nhoodSet.Length);
    finalNhood' := AddNeighbours(nhoodSet, finalNhood, shards[s].idmap, list);
  }

  lemma EntryGathered(shards: seq<Shard>, p: seq<Entry>, j: nat, list: seq<nat>, n: nat)
    requires AllWellFormed(shards) && Within(shards, n) && j < |p| && InRange(shards, p)
    requires IsEntryList(shards, p[j], list)
    ensures var (v, s) := p[j];
            && (forall i :: 0 <= i < |list| ==> list[i] < |shards[s].idmap| && shards[s].idmap[list[i]] < n)
            && Gathered(shards, p, j + 1, v) == Gathered(shards, p, j, v) + Elems(RenamedList(shards[s].idmap, list))
  {
    var idmap := shards[p[j].1].idmap;
    assert forall i :: 0 <= i < |list| ==> idmap[list[i]] in idmap;
  }

  // The output so far is a prefix followed by the finished records.
  ghost predicate Wrote(out: WordWriter, prefix: seq<nat>, records: seq<seq<nat>>, bytes: nat)
    reads out
  {
    out.file == prefix + Body(records) && out.pos == |out.file| && bytes == 4 * |Body(records)|
  }

  lemma WroteOne(prefix: seq<nat>, records: seq<seq<nat>>, r: seq<nat>)
    ensures prefix + Body(records) + Record(r) == prefix + Body(records + [r])
    ensures |Body(records + [r])| == |Body(records)| + |Record(r)|
  {
    BodySnoc(records, r);
  }

  // The body of the loop over the inverse map.
  method Advance(ghost u: Target, shards: seq<Shard>, readers: seq<WordReader>, p: seq<Entry>, j: nat,
                 nhoodSet: array<bool>, curId: nat, finalNhood: seq<nat>, maxDegree: nat, out: WordWriter, bytes: nat,
                 ghost prefix: seq<nat>, ghost nodes: seq<nat>, ghost records: seq<seq<nat>>)
    returns (finalNhood': seq<nat>, bytes': nat, ghost nodes': seq<nat>, ghost records': seq<seq<nat>>)
    requires AllWellFormed(shards) && IsTarget(u, shards) && IsInverseMap(shards, p) && j < |p| && InRange(shards, p)
    requires Within(shards, nhoodSet.Length) && curId == LastNode(p, j)
    requires nodes != [] && nodes[|nodes| - 1] == curId
    requires ReadersAt(shards, readers, p, j) && Marks(nhoodSet, finalNhood) && Wrote(out, prefix, records, bytes)
    requires Merging(u, shards, p, j, nodes, finalNhood, records, maxDegree)
    modifies readers, nhoodSet, out
    ensures ReadersAt(shards, readers, p, j + 1) && Marks(nhoodSet, finalNhood') && Wrote(out, prefix, records', bytes')
    ensures nodes' == nodes + if curId < p[j].0 then [p[j].0] else []
    ensures Merging(u, shards, p, j + 1, nodes', finalNhood', records', maxDegree)
  {
    finalNhood', bytes', nodes', records' := finalNhood, bytes, nodes, records;
    assert j > 0 ==> EntryLess(p[j - 1], p[j]);
    if curId < p[j].0 {
      var written;
      written, records' := FinishNode(u, shards, p, j, nhoodSet, finalNhood, nodes, records, maxDegree, out);
      WroteOne(prefix, records, records'[|records|]);
      bytes' := bytes + written;
      finalNhood', nodes' := [], nodes + [p[j].0];
    }
    finalNhood' := MergeEntry(u, shards, readers, p, j, nhoodSet, finalNhood', nodes', records', maxDegree);
  }

  // The last node's record, after the loop.
  method FinishLast(ghost u: Target, shards: seq<Shard>, p: seq<Entry>, finalNhood: seq<nat>, maxDegree: nat,
                    out: WordWriter, bytes: nat, ghost prefix: seq<nat>, ghost nodes: seq<nat>,
                    ghost records: seq<seq<nat>>)
    returns (bytes': nat, ghost records': seq<seq<nat>>)
    requires AllWellFormed(shards) && IsTarget(u, shards) && IsInverseMap(shards, p) && InRange(shards, p)
    requires nodes != [] && nodes[|nodes| - 1] == LastNode(p, |p|)
    requires Merging(u, shards, p, |p|, nodes, finalNhood, records, maxDegree)
    requires Distinct(finalNhood) && Wrote(out, prefix, records, bytes)
    modifies out
    ensures |records'| == |nodes| && RecordsRight(u, nodes, records', maxDegree)
    ensures Wrote(out, prefix, records', bytes')
  {
    GatheredAll(shards, p, |p|, LastNode(p, |p|));
    var written, record := EmitRecord(out, finalNhood, maxDegree);
    WroteOne(prefix, records, record);
    bytes' := bytes + written;
    assert Elems(finalNhood) == u(nodes[|records|]);
    OneMoreRight(u, nodes, records, record, maxDegree);
    records' := records + [record];
  }

  /** The loop over the inverse map: one record for node 0 and for each held node, whatever gaps the ids leave. */
  method MergeEntries(ghost u: Target, shards: seq<Shard>, readers: seq<WordReader>, nodeShard: seq<Entry>,
                      nnodes: nat, maxDegree: nat, out: WordWriter)
    returns (bytes: nat, ghost nodes: seq<nat>, ghost records: seq<seq<nat>>)
    requires AllWellFormed(shards) && IsTarget(u, shards) && IsInverseMap(shards, nodeShard) && Within(shards, nnodes)
    requires ReadersAt(shards, readers, nodeShard, 0) && out.pos == |out.file|
    modifies readers, out
    ensures nodes == NodesBy(nodeShard, |nodeShard|) && |records| == |nodes|
    ensures RecordsRight(u, nodes, records, maxDegree)
    ensures Wrote(out, old(out.file), records, bytes)
  {
    EntriesInRange(shards, nodeShard);
    var nhoodSet := new bool[nnodes](_ => false);
    var finalNhood, curId := [], 0;
    bytes, nodes, records := 0, [0], [];
    ghost var prefix := out.file;
    for j := 0 to |nodeShard|
      invariant ReadersAt(shards, readers, nodeShard, j) && Marks(nhoodSet, finalNhood)
      invariant curId == LastNode(nodeShard, j)
      invariant nodes == NodesBy(nodeShard, j)
      invariant Merging(u, shards, nodeShard, j, nodes, finalNhood, records, maxDegree)
      invariant Wrote(out, prefix, records, bytes)
    {
      NodesNext(nodeShard, j, nodes);
      finalNhood, bytes, nodes, records := Advance(
        u, shards, readers, nodeShard, j, nhoodSet, curId, finalNhood, maxDegree, out, bytes, prefix, nodes, records);
      curId := nodeShard[j].0;
    }
    LastOfNodes(nodeShard, |nodeShard|);
    bytes, records := FinishLast(u, shards, nodeShard, finalNhood, maxDegree, out, bytes, prefix, nodes, records);
  }

  // Everything after the header, and the final size.
  method MergeInto(ghost u: Target, shards: seq<Shard>, readers: seq<WordReader>, nodeShard: seq<Entry>, nnodes: nat,
                   maxDegree: nat, medoid: nat)
    returns (file: seq<nat>, ghost nodes: seq<nat>, ghost records: seq<seq<nat>>)
    requires AllWellFormed(shards) && IsTarget(u, shards)
    requires IsInverseMap(shards, nodeShard) && Within(shards, nnodes) && ReadersAt(shards, readers, nodeShard, 0)
    modifies readers
    ensures nodes == NodesBy(nodeShard, |nodeShard|) && |records| == |nodes|
    ensures RecordsRight(u, nodes, records, maxDegree)
    ensures file == Encoded(records, maxDegree, medoid, 0)
  {
    var out := WriteHeader(maxDegree, medoid, 0);
    var bytes;
    bytes, nodes, records := MergeEntries(u, shards, readers, nodeShard, nnodes, maxDegree, out);
    PatchSize(out, maxDegree, medoid, 0, bytes, records);
    file := out.file;
  }

  /** merge_shards, without labels. One record for node 0 and for each held node, in increasing order: distinct
      neighbours drawn from the union of its renamed shard neighbours, min(|union|, maxDegree) of them; the size field
      equals the number of bytes. Record v is node v's for every v exactly when the ids leave no gap above 0. */
  method MergeShards(shards: seq<Shard>, maxDegree: nat)
    returns (file: seq<nat>, medoidsFile: seq<nat>, ghost nodes: seq<nat>, ghost records: seq<seq<nat>>)
    requires AllWellFormed(shards) && AllMatch(shards) && |shards| > 0
    ensures AreWritten(shards, nodes) && |records| == |nodes|
    ensures forall k :: 0 <= k < |nodes| ==>
              MergedRecord(UnionOf(shards, nodes[k], |shards|), maxDegree, records[k])
    ensures InPlace(nodes) <==> NoGap(shards)
    ensures forall n: nat :: Covers(shards, n) ==> |nodes| == n && InPlace(nodes)
    ensures var last := shards[|shards| - 1];
            file == Encoded(records, maxDegree, last.idmap[last.medoid], 0)
    ensures medoidsFile == [|shards|, 1] + RenamedMedoids(shards)
    ensures |medoidsFile| == 2 + |shards| && medoidsFile[0] == |shards| && medoidsFile[1] == 1
    ensures forall s :: 0 <= s < |shards| ==> medoidsFile[2 + s] == shards[s].idmap[shards[s].medoid]
  {
    ghost var u: Target := v => UnionOf(shards, v, |shards|);
    assert IsTarget(u, shards);
    var nnodes := CountNodes(shards);
    var nodeShard := InverseMap(shards);
    var readers, medoids := OpenReaders(shards, nodeShard);
    LastMedoid(shards);
    var medoid := medoids[|shards| - 1];
    medoidsFile := [|shards|, 1] + medoids;
    file, nodes, records := MergeInto(u, shards, readers, nodeShard, nnodes, maxDegree, medoid);
    WrittenNodes(shards, nodeShard);
    RecordsInPlace(shards, nodes);
    forall n: nat | Covers(shards, n) ensures |nodes| == n && InPlace(nodes) {
      CoveredInPlace(shards, nodes, n);
    }
  }

  // One shard whose ids leave out 1.
  ghost predicate HasGap(shards: seq<Shard>) {
    |shards| == 1 && shards[0].idmap == [0, 2]
  }

  /** An input with a gap: the second record is node 2's. */
  lemma GapShifts(shards: seq<Shard>, nodes: seq<nat>)
    requires HasGap(shards) && AreWritten(shards, nodes)
    ensures nodes == [0, 2] && !NoGap(shards) && !InPlace(nodes)
  {
    forall v: nat ensures Held(shards, v) <==> v in [0, 2] {
      if v in [0, 2] {
        assert v in shards[0].idmap;
      }
    }
    IncreasingUnique(nodes, [0, 2]);
    assert nodes[1] == 2;
    RecordsInPlace(shards, nodes);
  }
}
