/** Which location is used for what, across threads (src/index.cpp, lock order in include/index.h:434-442).
    One step is one critical section; `reserved` is the location an inserter took under the tag lock and has
    not tagged yet. The swap of the delete set needs the delete lock only, so it may fall in between. */
module SlotAccounting {
  import opened NeighborOrder
  import opened NaturalNumbers
  import opened Renumbering
  import opened Wrappers

  datatype Slots = Slots(
    maxPoints: nat,
    nd: nat,
    empty: seq<nat>,               // _empty_slots, in vector order
    deleted: set<nat>,             // _delete_set
    inFlight: set<nat>,            // old_delete_set of a running consolidation
    reserved: Option<nat>,         // taken by reserve_location, tag not inserted yet
    tagToLocation: map<Tag, nat>,
    locationToTag: map<nat, Tag>,
    compacted: bool,               // _data_compacted
    consolidating: bool)           // _consolidate_lock is held
  {
    function Live(): set<nat> {
      locationToTag.Keys
    }

    function Taken(): set<nat> {
      if reserved.Some? then {reserved.value} else {}
    }
  }

  // Refused: a failure code is returned. Error: an exception is thrown.
  datatype Outcome = Done | Refused | Error

  function Range(lo: nat, hi: nat): (r: seq<nat>)
    requires lo <= hi
    ensures |r| == hi - lo && forall i :: 0 <= i < hi - lo ==> r[i] == lo + i
  {
    seq(hi - lo, i requires 0 <= i < hi - lo => lo + i)
  }

  // ---- the steps ----

  // After load of a saved index (its tags and delete list); with no tags, after construction.
  ghost predicate Loaded(s: Slots, tags: seq<Tag>) {
    && |tags| <= s.maxPoints
    && s.nd == |tags|
    && s.deleted <= Below(|tags|)
    && s.empty == Range(|tags|, s.maxPoints)
    && s.locationToTag == (map i: nat | i < |tags| && i !in s.deleted :: tags[i])
    && s.inFlight == {} && s.reserved.None? && s.compacted && !s.consolidating
    && Inverse(s.tagToLocation, s.locationToTag)
  }

  ghost predicate Inverse(m: map<Tag, nat>, w: map<nat, Tag>) {
    && (forall t :: t in m ==> m[t] in w && w[m[t]] == t)
    && (forall l :: l in w ==> w[l] in m && m[w[l]] == l)
  }

  // reserve_location: holds the tag and the delete lock.
  function Reserve(s: Slots): (Slots, Outcome) {
    if s.nd >= s.maxPoints then (s, Refused)
    else if s.compacted && s.empty == [] then (s.(nd := s.nd + 1, reserved := Some(s.nd)), Done)
    else if s.empty == [] then (s, Error)
    else
      var l := s.empty[|s.empty| - 1];
      (s.(nd := s.nd + 1, empty := s.empty[..|s.empty| - 1], deleted := s.deleted - {l}, reserved := Some(l)), Done)
  }

  // The rest of insert_point's tag section: holds the tag lock only.
  function Commit(s: Slots, tag: Tag): (Slots, Outcome)
    requires s.reserved.Some? && s.nd > 0
  {
    var l := s.reserved.value;
    if tag in s.tagToLocation then
      if l in s.empty then (s, Error)
      else (s.(nd := s.nd - 1, empty := s.empty + [l], reserved := None), Refused)
    else
      var t2l, l2t := s.tagToLocation[tag := l], s.locationToTag[l := tag];
      (s.(tagToLocation := t2l, locationToTag := l2t, reserved := None), Done)
  }

  // Both sections of an insert, nothing in between; tag 0 is refused first.
  function InsertSlots(s: Slots, tag: Tag): Slots {
    var r := Reserve(s).0;
    if tag != 0 && s.reserved.None? && r.reserved.Some? && r.nd > 0 then Commit(r, tag).0 else s
  }

  function LazyDelete(s: Slots, tag: Tag): (Slots, Outcome) {
    if tag !in s.tagToLocation then (s.(compacted := false), Refused)
    else
      var l := s.tagToLocation[tag];
      (s.(compacted := false, deleted := s.deleted + {l}, locationToTag := s.locationToTag - {l},
          tagToLocation := s.tagToLocation - {tag}), Done)
  }

  // The checks on entry to consolidate_deletes: two of them throw, the middle one is INCONSISTENT_COUNT_ERROR.
  function EntryCheck(s: Slots): Outcome {
    if |s.empty| + s.nd != s.maxPoints then Error
    else if |s.locationToTag| + |s.deleted| != s.nd then Refused
    else if |s.locationToTag| != |s.tagToLocation| then Error
    else Done
  }

  function Swap(s: Slots): Slots {
    s.(inFlight := s.deleted, deleted := {}, consolidating := true)
  }

  // release_locations, the set being iterated in the order `list`.
  ghost function Release(s: Slots, list: seq<nat>): (Slots, Outcome)
    requires |list| <= s.nd
  {
    var empty := s.empty + list;
    if exists i :: 0 <= i < |list| && list[i] in s.empty + list[..i] then (s, Error)
    else if |empty| + (s.nd - |list|) != s.maxPoints then (s, Error)
    else (Released(s, list), Done)
  }

  // The state after a release whose checks passed.
  function Released(s: Slots, list: seq<nat>): Slots
    requires |list| <= s.nd
  {
    s.(empty := s.empty + list, nd := s.nd - |list|, inFlight := {}, consolidating := false)
  }

  ghost predicate Lists(list: seq<nat>, s: set<nat>) {
    Distinct(list) && Elems(list) == s
  }

  // compact_data, on the tag side: holds every lock.
  ghost predicate Compact(s: Slots, s': Slots, o: Outcome) {
    if s.compacted then s' == s && o == Refused
    else if s.deleted != {} then s' == s && o == Error
    else
      && o == Done
      && s.nd <= s.maxPoints
      && s' == s.(empty := Range(s.nd, s.maxPoints), compacted := true, tagToLocation := s'.tagToLocation,
                  locationToTag := s'.locationToTag)
      && s'.tagToLocation == (map t | t in s.tagToLocation :: NewLocation(s.Live(), s.tagToLocation[t]))
      && Inverse(s'.tagToLocation, s'.locationToTag)
  }

  /** One critical section of one thread. The guards are the lock protocol: with a location reserved the tag
      lock is held, so only the swap (delete lock) can run besides the inserter; a swap takes the
      consolidate lock, which save and compaction also need. */
  ghost predicate Step(s: Slots, s': Slots) {
    || (s.reserved.None? && s' == Reserve(s).0)
    || (s.reserved.Some? && s.nd > 0 && exists tag :: s' == Commit(s, tag).0)
    || (s.reserved.None? && exists tag :: s' == LazyDelete(s, tag).0)
    || (!s.consolidating && s' == Swap(s))
    || (s.reserved.None? && s.consolidating && exists list ::
          Lists(list, s.inFlight) && |list| <= s.nd && s' == Release(s, list).0)
    || (s.reserved.None? && !s.consolidating && exists o :: Compact(s, s', o))
  }

  // ---- the invariant ----

  ghost predicate Inv(s: Slots) {
    && Partition(s)
    && |s.empty| + s.nd == s.maxPoints
    && Inverse(s.tagToLocation, s.locationToTag)
    && (!s.consolidating ==> s.inFlight == {})
  }

  // In how many of the five roles a location is.
  function Uses(s: Slots, x: nat): nat {
    (if x in s.locationToTag then 1 else 0) + (if x in s.deleted then 1 else 0) + (if x in s.inFlight then 1 else 0) +
    (if s.reserved == Some(x) then 1 else 0) + if x in s.empty then 1 else 0
  }

  // Live, pending-deleted, in-flight, reserved and empty locations partition [0, maxPoints).
  ghost predicate Partition(s: Slots) {
    Distinct(s.empty) && forall x: nat :: Uses(s, x) == if x < s.maxPoints then 1 else 0
  }

  // The same, as sets.
  lemma PartitionSets(s: Slots)
    requires Partition(s)
    ensures s.Live() + s.deleted + s.inFlight + s.Taken() + Elems(s.empty) == Below(s.maxPoints)
    ensures s.Live() !! s.deleted !! s.inFlight !! s.Taken() !! Elems(s.empty)
  {
    assert forall x: nat :: Uses(s, x) <= 1 && (x in Below(s.maxPoints) <==> Uses(s, x) == 1);
  }

  lemma NdIsSum(s: Slots)
    requires Partition(s) && |s.empty| + s.nd == s.maxPoints
    ensures s.nd == |s.Live()| + |s.deleted| + |s.inFlight| + |s.Taken()|
  {
    PartitionSets(s);
    BelowCard(s.maxPoints);
    DistinctCard(s.empty);
    var a := s.Live() + s.deleted;
    var b := a + s.inFlight;
    var c := b + s.Taken();
    assert |a| == |s.Live()| + |s.deleted|;
    assert |b| == |a| + |s.inFlight|;
    assert |c| == |b| + |s.Taken()|;
    assert |c + Elems(s.empty)| == |c| + |Elems(s.empty)|;
  }

  lemma {:induction false} InjectiveCard(m: map<Tag, nat>, w: map<nat, Tag>)
    requires Inverse(m, w)
    ensures |m| == |w|
    decreases |m|
  {
    if m == map[] {
      assert w == map[] by {
        assert forall l :: l !in w;
      }
    } else {
      var t :| t in m;
      var m', w' := m - {t}, w - {m[t]};
      InjectiveCard(m', w');
      assert m.Keys == m'.Keys + {t} && w.Keys == w'.Keys + {m[t]};
    }
  }

  /** The entry checks: the thrown ones never fail, and the count check fails exactly while another
      consolidation has deletions in flight. */
  lemma EntryCheckOutcome(s: Slots)
    requires Inv(s) && s.reserved.None?
    ensures EntryCheck(s) == if s.inFlight == {} then Done else Refused
  {
    NdIsSum(s);
    InjectiveCard(s.tagToLocation, s.locationToTag);
    assert |s.locationToTag| == |s.Live()|;
  }

  /** No step throws, a location is available exactly when nd < maxPoints, it always comes from the empty
      slots, and erasing it from the delete set does nothing. */
  lemma ReserveOutcome(s: Slots)
    requires Inv(s) && s.reserved.None?
    ensures Reserve(s).1 == if s.nd < s.maxPoints then Done else Refused
    ensures s.nd < s.maxPoints ==>
              s.empty != [] && s.empty[|s.empty| - 1] !in s.deleted && s.empty[|s.empty| - 1] < s.maxPoints
  {
    if s.nd < s.maxPoints {
      assert Uses(s, s.empty[|s.empty| - 1]) <= 1;
    }
  }

  lemma CommitOutcome(s: Slots, tag: Tag)
    requires Inv(s) && s.reserved.Some?
    ensures s.nd > 0 && s.reserved.value !in s.empty && s.reserved.value !in s.locationToTag
    ensures Commit(s, tag).1 == if tag in s.tagToLocation then Refused else Done
  {
    NdIsSum(s);
    assert Uses(s, s.reserved.value) == 1;
    assert s.reserved.value in s.Taken();
  }

  lemma ReleaseOutcome(s: Slots, list: seq<nat>)
    requires Inv(s) && Lists(list, s.inFlight)
    ensures |list| == |s.inFlight| <= s.nd
    ensures Release(s, list) == (Released(s, list), Done)
  {
    NdIsSum(s);
    DistinctCard(list);
    forall i | 0 <= i < |list| ensures list[i] !in s.empty + list[..i] {
      assert list[i] in Elems(list) && Uses(s, list[i]) == 1;
    }
  }

  // ---- preservation ----

  lemma RangeElems(lo: nat, hi: nat)
    requires lo <= hi
    ensures Distinct(Range(lo, hi)) && Elems(Range(lo, hi)) == Below(hi) - Below(lo)
  {
    forall x | x in Below(hi) - Below(lo) ensures x in Range(lo, hi) {
      assert Range(lo, hi)[x - lo] == x;
    }
  }

  lemma LoadedInv(s: Slots, tags: seq<Tag>)
    requires Loaded(s, tags)
    ensures Inv(s)
  {
    forall x: nat ensures Uses(s, x) == if x < s.maxPoints then 1 else 0 {
      if |tags| <= x < s.maxPoints {
        assert s.empty[x - |tags|] == x;
      }
      assert x in s.deleted ==> x in Below(|tags|);
    }
  }

  lemma ReserveInv(s: Slots)
    requires Inv(s) && s.reserved.None?
    ensures Inv(Reserve(s).0)
  {
    ReserveOutcome(s);
    if s.nd < s.maxPoints {
      var l, rest := s.empty[|s.empty| - 1], s.empty[..|s.empty| - 1];
      assert s.empty == rest + [l] && l !in rest;
      forall x: nat ensures Uses(Reserve(s).0, x) == Uses(s, x) {
        assert x in s.empty <==> x in rest || x == l;
      }
    }
  }

  lemma CommitInv(s: Slots, tag: Tag)
    requires Inv(s) && s.reserved.Some? && s.nd > 0
    ensures Inv(Commit(s, tag).0)
  {
    CommitOutcome(s, tag);
    assert forall x: nat :: Uses(Commit(s, tag).0, x) == Uses(s, x);
  }

  lemma LazyDeleteInv(s: Slots, tag: Tag)
    requires Inv(s) && s.reserved.None?
    ensures Inv(LazyDelete(s, tag).0)
  {
    forall x: nat ensures Uses(LazyDelete(s, tag).0, x) == Uses(s, x) {
      assert Uses(s, x) <= 1;
    }
  }

  lemma SwapInv(s: Slots)
    requires Inv(s) && !s.consolidating
    ensures Inv(Swap(s))
  {
    assert forall x: nat :: Uses(Swap(s), x) == Uses(s, x);
  }

  lemma ReleaseInv(s: Slots, list: seq<nat>)
    requires Inv(s) && Lists(list, s.inFlight) && |list| <= s.nd
    ensures Inv(Release(s, list).0) && Inv(Released(s, list))
  {
    ReleaseOutcome(s, list);
    var s' := Released(s, list);
    forall x: nat ensures Uses(s', x) == Uses(s, x) {
      assert x in s'.empty <==> x in s.empty || x in Elems(list);
      assert Uses(s, x) <= 1;
    }
    forall i, j | 0 <= i < j < |s'.empty| ensures s'.empty[i] != s'.empty[j] {
      if i < |s.empty| <= j {
        assert Uses(s, s'.empty[i]) <= 1 && s'.empty[j] in Elems(list);
      }
    }
  }

  // After a compaction the live locations are exactly [0, nd).
  lemma CompactLive(s: Slots, s': Slots)
    requires Inv(s) && s.reserved.None? && !s.consolidating && Compact(s, s', Done)
    ensures s'.Live() == Below(s.nd)
  {
    NdIsSum(s);
    PartitionSets(s);
    var live := s.Live();
    forall l | l in s'.Live() ensures l in Below(s.nd) {
      NewLocationBounds(live, s.tagToLocation[s'.locationToTag[l]]);
    }
    forall k | k in Below(s.nd) ensures k in s'.Live() {
      NewLocationAll(live, s.maxPoints);
      var x := NewLocationOnto(live, k, s.maxPoints);
      var t := s.locationToTag[x];
      assert s'.tagToLocation[t] == k;
    }
  }

  lemma CompactInv(s: Slots, s': Slots, o: Outcome)
    requires Inv(s) && s.reserved.None? && !s.consolidating && Compact(s, s', o)
    ensures Inv(s')
  {
    if o == Done {
      CompactLive(s, s');
      forall x: nat ensures Uses(s', x) == if x < s.maxPoints then 1 else 0 {
        assert x in s'.locationToTag <==> x in Below(s.nd);
        if s.nd <= x < s.maxPoints {
          assert s'.empty[x - s.nd] == x;
        }
      }
    }
  }

  lemma StepInv(s: Slots, s': Slots)
    requires Inv(s) && Step(s, s')
    ensures Inv(s')
  {
    if s.reserved.None? && s' == Reserve(s).0 {
      ReserveInv(s);
    } else if s.reserved.Some? && s.nd > 0 && exists tag :: s' == Commit(s, tag).0 {
      var tag :| s' == Commit(s, tag).0;
      CommitInv(s, tag);
    } else if s.reserved.None? && exists tag :: s' == LazyDelete(s, tag).0 {
      var tag :| s' == LazyDelete(s, tag).0;
      LazyDeleteInv(s, tag);
    } else if !s.consolidating && s' == Swap(s) {
      SwapInv(s);
    } else if s.reserved.None? && s.consolidating && exists list ::
        Lists(list, s.inFlight) && |list| <= s.nd && s' == Release(s, list).0 {
      var list :| Lists(list, s.inFlight) && |list| <= s.nd && s' == Release(s, list).0;
      ReleaseInv(s, list);
    } else {
      var o :| Compact(s, s', o);
      CompactInv(s, s', o);
    }
  }

  ghost predicate Run(states: seq<Slots>, tags: seq<Tag>) {
    && |states| > 0
    && Loaded(states[0], tags)
    && forall i :: 0 <= i < |states| - 1 ==> Step(states[i], states[i + 1])
  }

  /** Slot accounting over every run: the partition holds in every state, nd is the sum of its used parts, and
      whenever no insert is between its two sections the tag maps have equal size. */
  lemma {:induction false} RunInv(states: seq<Slots>, tags: seq<Tag>, i: nat)
    requires Run(states, tags) && i < |states|
    ensures Inv(states[i])
    ensures states[i].nd == |states[i].Live()| + |states[i].deleted| + |states[i].inFlight| + |states[i].Taken()|
    ensures |states[i].tagToLocation| == |states[i].locationToTag|
  {
    if i == 0 {
      LoadedInv(states[0], tags);
    } else {
      RunInv(states, tags, i - 1);
      assert Step(states[i - 1], states[i - 1 + 1]);
      StepInv(states[i - 1], states[i]);
    }
    NdIsSum(states[i]);
    InjectiveCard(states[i].tagToLocation, states[i].locationToTag);
  }
}
