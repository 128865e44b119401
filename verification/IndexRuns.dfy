/** Runs of whole operations on a dynamic index, and what save does to one (src/index.cpp:269-399,
    534-660, 2490-3182). */
module IndexRuns {
  import opened GreedySearch
  import opened NeighborOrder
  import opened Occlusion
  import opened RobustPrune
  import opened NaturalNumbers
  import opened Renumbering
  import opened Reposition
  import opened RowSpace
  import opened SlotAccounting
  import opened Stores
  import opened DynamicIndex
  import GraphFile
  import opened Wrappers

  datatype Operation =
    | Insert(point: Vector, tag: Tag, insertParams: WriteParams)
    | Delete(tag: Tag)
    | Consolidate(order: seq<nat>, consolidateParams: WriteParams)
    | Compact

  // What callers owe: vectors of the index's dimension, a nonzero list size, a schedule naming every location once.
  ghost predicate Callable(op: Operation, dim: nat, locations: nat) {
    match op
    case Insert(point, _, wp) => |point| == dim && wp.searchListSize > 0
    case Delete(_) => true
    case Consolidate(order, _) => Lists(order, Below(locations))
    case Compact => true
  }

  // The slot accounting of one operation.
  ghost predicate Performs(op: Operation, s: Slots, s': Slots) {
    match op
    case Insert(_, tag, _) => s' == InsertSlots(s, tag)
    case Delete(tag) => s' == LazyDelete(s, tag).0
    case Consolidate(_, _) => ConsolidatedInSomeOrder(s, s')
    case Compact => exists o :: SlotAccounting.Compact(s, s', o)
  }

  // A compaction that goes through on a full index; a caller can tell before the call.
  predicate CompactsFull(op: Operation, s: Slots) {
    op.Compact? && !s.compacted && s.deleted == {} && s.nd == s.maxPoints
  }

  // The bitset no longer reaches the locations: it did not at the start, or one of the first n operations compacted a
  // full index.
  ghost predicate OutOfReach(short: bool, ops: seq<Operation>, trace: seq<Slots>, n: nat) {
    short || exists i :: 0 <= i < n && i < |ops| && i < |trace| && CompactsFull(ops[i], trace[i])
  }

  // trace[i] is the accounting before operation i.
  ghost predicate IsRunOf(ops: seq<Operation>, trace: seq<Slots>, n: nat) {
    n <= |ops| && |trace| == n + 1 && forall i :: 0 <= i < n ==> Performs(ops[i], trace[i], trace[i + 1])
  }

  /** One operation: all invariants, no dangling reference, and the bitset of the empty slots falls short afterwards
      exactly if it did before or a full index was compacted. */
  method Perform(ix: Index, op: Operation) returns (numDangling: nat)
    requires ix.Valid() && Callable(op, ix.dataStore.dim, ix.maxPoints + ix.numFrozen)
    requires op.Consolidate? ==> ix.maxPoints <= |ix.emptySlots.bits|
    modifies ix, ix.emptySlots, ix.locationToTag, ix.graphStore, ix.dataStore.data
    ensures ix.Valid() && numDangling == 0 && Performs(op, old(ix.Quiet()), ix.Quiet())
    ensures |ix.emptySlots.bits| < ix.maxPoints <==>
              |old(ix.emptySlots.bits)| < ix.maxPoints || CompactsFull(op, old(ix.Quiet()))
  {
    numDangling := 0;
    match op {
      case Insert(point, tag, wp) =>
        var _ := ix.InsertPoint(point, tag, wp);
      case Delete(tag) =>
        var _ := ix.LazyDeleteTag(tag);
      case Consolidate(order, wp) =>
        var _ := ix.ConsolidateDeletes(order, wp);
      case Compact =>
        var o;
        o, numDangling := ix.CompactData();
    }
  }

  // The bitset is short exactly as the run so far says, and no consolidation was out of reach.
  ghost predicate RunSoFar(short: bool, now: bool, ops: seq<Operation>, trace: seq<Slots>, n: nat) {
    && IsRunOf(ops, trace, n)
    && (now <==> OutOfReach(short, ops, trace, n))
    && forall i :: 0 <= i < n && ops[i].Consolidate? ==> !OutOfReach(short, ops, trace, i)
  }

  // A run stops early exactly at its first consolidation that is out of reach.
  ghost predicate StopsThere(short: bool, ops: seq<Operation>, trace: seq<Slots>, n: nat) {
    && (n < |ops| <==>
          exists i :: 0 <= i <= n && i < |ops| && ops[i].Consolidate? && OutOfReach(short, ops, trace, i))
    && (n < |ops| ==> ops[n].Consolidate? && OutOfReach(short, ops, trace, n))
    && (forall i :: 0 <= i < n && i < |ops| && ops[i].Consolidate? ==> !OutOfReach(short, ops, trace, i))
  }

  lemma StepOutOfReach(short: bool, ops: seq<Operation>, trace: seq<Slots>, n: nat, s: Slots)
    requires n < |ops| && |trace| == n + 1
    ensures OutOfReach(short, ops, trace + [s], n + 1) <==>
            OutOfReach(short, ops, trace, n) || CompactsFull(ops[n], trace[n])
    ensures forall i :: 0 <= i <= n ==> (OutOfReach(short, ops, trace + [s], i) <==> OutOfReach(short, ops, trace, i))
  {
    var u := trace + [s];
    assert forall i :: 0 <= i <= n ==> u[i] == trace[i];
    if CompactsFull(ops[n], trace[n]) {
      assert CompactsFull(ops[n], u[n]);
    }
    forall i | 0 <= i <= n ensures OutOfReach(short, ops, u, i) <==> OutOfReach(short, ops, trace, i) {
      if OutOfReach(short, ops, trace, i) && !short {
        var k :| 0 <= k < i && k < |ops| && k < |trace| && CompactsFull(ops[k], trace[k]);
        assert CompactsFull(ops[k], u[k]);
      }
    }
  }

  lemma StepRun(short: bool, now: bool, next: bool, ops: seq<Operation>, trace: seq<Slots>, n: nat, s: Slots)
    requires RunSoFar(short, now, ops, trace, n) && n < |ops| && Performs(ops[n], trace[n], s)
    requires (ops[n].Consolidate? ==> !now) && (next <==> now || CompactsFull(ops[n], trace[n]))
    ensures RunSoFar(short, next, ops, trace + [s], n + 1)
  {
    var u := trace + [s];
    assert forall i :: 0 <= i <= n ==> u[i] == trace[i];
    StepOutOfReach(short, ops, trace, n, s);
  }

  /** Any run of operations on an index in any valid state, new or loaded: every invariant holds at the end, no edge
      names an empty slot, and no compaction counts a dangling reference. The bitset of the empty slots falls short
      exactly when it did at the start (an index loaded full) or the run compacted a full index, and stays so until a
      consolidation is tried; a run stops early, there and only there, at the first consolidation that would read past
      it. */
  method RunAll(ix: Index, ops: seq<Operation>) returns (performed: nat, numDangling: nat, ghost trace: seq<Slots>)
    requires ix.Valid()
    requires forall i :: 0 <= i < |ops| ==> Callable(ops[i], ix.dataStore.dim, ix.maxPoints + ix.numFrozen)
    modifies ix, ix.emptySlots, ix.locationToTag, ix.graphStore, ix.dataStore.data
    ensures ix.Valid() && numDangling == 0
    ensures IsRunOf(ops, trace, performed) && trace[0] == old(ix.Quiet()) && trace[performed] == ix.Quiet()
    ensures var short := |old(ix.emptySlots.bits)| < ix.maxPoints;
            && (|ix.emptySlots.bits| < ix.maxPoints <==> OutOfReach(short, ops, trace, performed))
            && StopsThere(short, ops, trace, performed)
  {
    ghost var short := |ix.emptySlots.bits| < ix.maxPoints;
    performed, numDangling, trace := 0, 0, [ix.Quiet()];
    while performed < |ops|
      invariant ix.Valid() && numDangling == 0
      invariant RunSoFar(short, |ix.emptySlots.bits| < ix.maxPoints, ops, trace, performed)
      invariant trace[0] == old(ix.Quiet()) && trace[performed] == ix.Quiet()
    {
      if ops[performed].Consolidate? && |ix.emptySlots.bits| < ix.maxPoints {
        return;
      }
      ghost var now := |ix.emptySlots.bits| < ix.maxPoints;
      var n := Perform(ix, ops[performed]);
      StepRun(short, now, |ix.emptySlots.bits| < ix.maxPoints, ops, trace, performed, ix.Quiet());
      numDangling, trace, performed := numDangling + n, trace + [ix.Quiet()], performed + 1;
    }
  }

  // ---- two runs that get stuck ----

  function AnyParams(): WriteParams {
    WriteParams(1, 1, 1, 1.0, false)
  }

  // One frozen point, one coordinate.
  function SmallConfig(maxPoints: nat): (c: Config)
    ensures 0 < maxPoints <= 2 ==> c.Usable()
  {
    Config(maxPoints, 1, 1, 1, L2, NoDistance, Unprepared)
  }

  function NoDistance(u: Vector, v: Vector): real {
    0.0
  }

  lemma TwoLocations()
    ensures Lists([0, 1], Below(2))
  {
  }

  // A run whose first consolidation is operation k, out of reach when it is tried, stops there.
  lemma StopsAt(short: bool, ops: seq<Operation>, trace: seq<Slots>, performed: nat, k: nat)
    requires k < |ops| && ops[k].Consolidate? && performed <= |ops|
    requires forall i :: 0 <= i < k ==> !ops[i].Consolidate?
    requires StopsThere(short, ops, trace, performed)
    requires performed >= k ==> OutOfReach(short, ops, trace, k)
    ensures performed == k
  {
  }

  // Fill an index of one slot, clear the flag by a failed delete, compact, consolidate.
  function FillCompactConsolidate(): (ops: seq<Operation>)
    ensures forall i :: 0 <= i < |ops| ==> Callable(ops[i], 1, 2)
  {
    TwoLocations();
    [Insert([1.0], 1, AnyParams()), Delete(2), Compact, Consolidate([0, 1], AnyParams())]
  }

  /** An index filled, compacted and then consolidated: a failed delete clears the flag, the compaction goes through at
      nd == maxPoints, and the consolidation finds a bitset of length 0. */
  method CompactThenConsolidate() returns (performed: nat)
    ensures performed == 3
  {
    var ix := new Index(SmallConfig(1));
    ghost var s := ix.Quiet();
    var n;
    ghost var trace;
    performed, n, trace := RunAll(ix, FillCompactConsolidate());
    FilledRun(s, trace, performed);
  }

  lemma FilledRun(s: Slots, trace: seq<Slots>, n: nat)
    requires IsRunOf(FillCompactConsolidate(), trace, n) && StopsThere(false, FillCompactConsolidate(), trace, n)
    requires trace[0] == s && Loaded(s, []) && s.deleted == {} && s.maxPoints == 1
    ensures n == 3
  {
    if n >= 3 {
      FilledAndCompacted(s, FillCompactConsolidate(), trace, n);
    }
    StopsAt(false, FillCompactConsolidate(), trace, n, 3);
  }

  lemma FilledAndCompacted(s: Slots, ops: seq<Operation>, trace: seq<Slots>, n: nat)
    requires |ops| == 4 && ops[0].Insert? && ops[0].tag == 1 && ops[1] == Delete(2) && ops[2] == Compact
    requires IsRunOf(ops, trace, n) && n >= 3 && trace[0] == s && Loaded(s, []) && s.deleted == {} && s.maxPoints == 1
    ensures CompactsFull(ops[2], trace[2])
  {
    LoadedInv(s, []);
    ReserveOutcome(s);
    assert Performs(ops[0], trace[0], trace[0 + 1]);
    assert Performs(ops[1], trace[1], trace[1 + 1]);
    InjectiveCard(s.tagToLocation, s.locationToTag);
    assert s.locationToTag == map[] && s.tagToLocation == map[];
  }

  // One slot, loaded with one point.
  method LoadFull() returns (ix: Index)
    ensures fresh(ix) && fresh(ix.emptySlots) && fresh(ix.locationToTag) && fresh(ix.graphStore)
    ensures fresh(ix.dataStore) && fresh(ix.dataStore.data)
    ensures ix.Valid() && ix.Built(SmallConfig(1)) && |ix.emptySlots.bits| == 0
  {
    var lists := [[1], [0]];
    ix := new Index.Load(SmallConfig(1), [1], {}, GraphFile.Encoded(lists, 1, 1, 1), [[1.0], [0.0]], lists, 1);
  }

  /** An index loaded full: with no compaction at all, the first consolidation after a delete is out of reach. */
  method LoadThenConsolidate() returns (performed: nat)
    ensures performed == 1
  {
    var ix := LoadFull();
    var ops := [Delete(1), Consolidate([0, 1], AnyParams())];
    TwoLocations();
    var n;
    ghost var trace;
    performed, n, trace := RunAll(ix, ops);
    StopsAt(true, ops, trace, performed, 1);
  }
}
