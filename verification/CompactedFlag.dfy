/** What _data_compacted says about the live locations over a whole run. Inserts leave the flag set, lazy deletes
    clear it and only a completed compaction sets it again (src/index.cpp:2614-2623, 2739, 2746-2771, 3168). */
module CompactedFlag {
  import opened NeighborOrder
  import opened NaturalNumbers
  import opened Renumbering
  import opened SlotAccounting
  import opened Wrappers

  /** Since the last load or completed compaction, whichever came later: nd then, the delete list loaded with it, the
      successful inserts before that list was released, the order it was released in, and the successful inserts
      since. */
  datatype History = History(base: nat, loaded: set<nat>, before: nat, released: seq<nat>, after: nat) {
    // Inserts that found no released slot took theirs from the top.
    function Top(): nat {
      before + if after > |released| then after - |released| else 0
    }

    // Released slots not taken again yet.
    function Rest(): seq<nat> {
      if after > |released| then [] else released[..|released| - after]
    }
  }

  ghost function NextHistory(h: History, s: Slots, s': Slots): History {
    if !s.compacted && s'.compacted then History(s'.nd, {}, 0, [], 0)
    else if s.consolidating && !s'.consolidating && |s.empty| < |s'.empty| then
      h.(released := s'.empty[|s.empty|..], after := 0)
    else if s.reserved.Some? && s'.reserved.None? && s.reserved.value in s'.locationToTag then
      if h.released == [] then h.(before := h.before + 1) else h.(after := h.after + 1)
    else h
  }

  ghost function HistoryAt(states: seq<Slots>, i: nat): History
    requires i < |states|
  {
    if i == 0 then History(states[0].nd, states[0].deleted, 0, [], 0)
    else NextHistory(HistoryAt(states, i - 1), states[i - 1], states[i])
  }

  function Reserved(s: Slots): seq<nat> {
    if s.reserved.Some? then [s.reserved.value] else []
  }

  // While the flag is set, the slot list is determined by the history: a stack over [base, maxPoints).
  ghost predicate Follows(s: Slots, h: History) {
    && h.base + h.Top() <= s.maxPoints
    && h.loaded <= Below(h.base)
    && s.empty + Reserved(s) == Range(h.base, s.maxPoints - h.Top()) + h.Rest()
    && s.deleted + s.inFlight == (if h.released == [] then h.loaded else {})
    && (h.released == [] ==> h.after == 0)
    && (h.released != [] ==> Lists(h.released, h.loaded))
    && (s.consolidating ==> s.deleted == {})
  }

  // One more successful insert takes the top of the stack.
  lemma TakeTop(maxPoints: nat, h: History, h': History)
    requires h.base + h.Top() <= maxPoints && (h.released == [] ==> h.after == 0)
    requires h' == if h.released == [] then h.(before := h.before + 1) else h.(after := h.after + 1)
    requires Range(h.base, maxPoints - h.Top()) + h.Rest() != []
    ensures h'.base + h'.Top() <= maxPoints
    ensures var stack := Range(h.base, maxPoints - h.Top()) + h.Rest();
            Range(h'.base, maxPoints - h'.Top()) + h'.Rest() == stack[..|stack| - 1]
  {
    var stack := Range(h.base, maxPoints - h.Top()) + h.Rest();
    if h.Rest() == [] {
      assert h'.Top() == h.Top() + 1;
    } else {
      assert h'.Rest() == h.Rest()[..|h.Rest()| - 1];
    }
  }

  lemma CommitFollows(s: Slots, h: History, tag: Tag)
    requires Inv(s) && s.reserved.Some? && s.nd > 0 && s.compacted && Follows(s, h)
    ensures Follows(Commit(s, tag).0, NextHistory(h, s, Commit(s, tag).0))
  {
    CommitOutcome(s, tag);
    var s' := Commit(s, tag).0;
    if tag !in s.tagToLocation {
      TakenFollows(s, s', h, NextHistory(h, s, s'));
    } else {
      assert s'.empty == s.empty + Reserved(s);
    }
  }

  // The reserved slot is no longer in the list.
  lemma TakenFollows(s: Slots, s': Slots, h: History, h': History)
    requires Follows(s, h) && s.reserved.Some? && s'.reserved.None?
    requires s'.empty == s.empty && s'.maxPoints == s.maxPoints && s'.deleted == s.deleted && s'.inFlight == s.inFlight
    requires s'.consolidating == s.consolidating
    requires h' == if h.released == [] then h.(before := h.before + 1) else h.(after := h.after + 1)
    ensures Follows(s', h')
  {
    TakeTop(s.maxPoints, h, h');
    assert (s.empty + Reserved(s))[..|s.empty|] == s.empty;
  }

  lemma ReserveFollows(s: Slots, h: History)
    requires Inv(s) && s.reserved.None? && s.compacted && Follows(s, h)
    ensures Follows(Reserve(s).0, h)
  {
    ReserveOutcome(s);
    if s.nd < s.maxPoints {
      assert s.empty == s.empty[..|s.empty| - 1] + [s.empty[|s.empty| - 1]];
    }
  }

  lemma ReleaseFollows(s: Slots, h: History, list: seq<nat>)
    requires Inv(s) && s.reserved.None? && s.consolidating && s.compacted && Follows(s, h)
    requires Lists(list, s.inFlight) && |list| <= s.nd
    ensures Follows(Released(s, list), NextHistory(h, s, Released(s, list)))
  {
    var s' := Released(s, list);
    assert s'.empty[|s.empty|..] == list;
    if list == [] {
      assert Elems(list) == {};
      assert s'.empty == s.empty;
    } else {
      assert list[0] in Elems(list);
      assert h.released == [] && h.Rest() == [];
      assert s.empty + Reserved(s) == s.empty;
      assert s.empty == Range(h.base, s.maxPoints - h.Top());
      var h' := NextHistory(h, s, s');
      assert h' == h.(released := list, after := 0);
      assert h'.Rest() == list && h'.Top() == h.Top();
      assert s'.empty + Reserved(s') == s.empty + list;
    }
  }

  lemma SwapFollows(s: Slots, h: History)
    requires !s.consolidating && Inv(s) && s.compacted && Follows(s, h)
    ensures Follows(Swap(s), NextHistory(h, s, Swap(s)))
  {
  }

  lemma CompactFollows(s: Slots, s': Slots, h: History, o: Outcome)
    requires Inv(s) && s.reserved.None? && !s.consolidating && Compact(s, s', o) && (s.compacted ==> Follows(s, h))
    ensures s'.compacted ==> Follows(s', NextHistory(h, s, s'))
  {
  }

  lemma LazyDeleteClears(s: Slots, tag: Tag)
    ensures !LazyDelete(s, tag).0.compacted
  {
  }

  lemma StepFollows(s: Slots, s': Slots, h: History)
    requires Inv(s) && Step(s, s') && (s.compacted ==> Follows(s, h))
    ensures s'.compacted ==> Follows(s', NextHistory(h, s, s'))
  {
    if s.reserved.None? && s' == Reserve(s).0 {
      if s.compacted {
        ReserveFollows(s, h);
      }
    } else if s.reserved.Some? && s.nd > 0 && exists tag :: s' == Commit(s, tag).0 {
      var tag :| s' == Commit(s, tag).0;
      if s.compacted {
        CommitFollows(s, h, tag);
      }
    } else if s.reserved.None? && exists tag :: s' == LazyDelete(s, tag).0 {
      var tag :| s' == LazyDelete(s, tag).0;
      LazyDeleteClears(s, tag);
    } else if !s.consolidating && s' == Swap(s) {
      if s.compacted {
        SwapFollows(s, h);
      }
    } else if s.reserved.None? && s.consolidating && exists list ::
        Lists(list, s.inFlight) && |list| <= s.nd && s' == Release(s, list).0 {
      var list :| Lists(list, s.inFlight) && |list| <= s.nd && s' == Release(s, list).0;
      ReleaseOutcome(s, list);
      if s.compacted {
        ReleaseFollows(s, h, list);
      }
    } else {
      var o :| Compact(s, s', o);
      CompactFollows(s, s', h, o);
    }
  }

  lemma NextFollows(states: seq<Slots>, tags: seq<Tag>, i: nat)
    requires Run(states, tags) && i + 1 < |states|
    requires states[i].compacted ==> Follows(states[i], HistoryAt(states, i))
    ensures states[i + 1].compacted ==> Follows(states[i + 1], HistoryAt(states, i + 1))
  {
    RunInv(states, tags, i);
    StepFollows(states[i], states[i + 1], HistoryAt(states, i));
  }

  lemma {:induction false} RunFollows(states: seq<Slots>, tags: seq<Tag>, i: nat)
    requires Run(states, tags) && i < |states|
    ensures states[i].compacted ==> Follows(states[i], HistoryAt(states, i))
  {
    if i > 0 {
      RunFollows(states, tags, i - 1);
      NextFollows(states, tags, i - 1);
    }
  }

  // ---- the live locations ----

  // [lo, hi)
  function Between(lo: nat, hi: nat): set<nat> {
    Below(hi) - Below(lo)
  }

  // Live locations below base less `gone`, and top ones at the end.
  function Split(base: nat, gone: set<nat>, top: nat, maxPoints: nat): set<nat>
    requires base + top <= maxPoints
  {
    (Below(base) - gone) + Between(maxPoints - top, maxPoints)
  }

  /** With the flag set and no insert between its sections: the top locations hold the inserts that found no released
      slot, below base everything is live but the pending and the released slots not taken again. */
  lemma FlaggedLive(s: Slots, h: History)
    requires Inv(s) && s.reserved.None? && Follows(s, h)
    ensures s.Live() == Split(h.base, (s.deleted + s.inFlight) + Elems(h.Rest()), h.Top(), s.maxPoints)
    ensures Elems(h.Rest()) <= h.loaded && s.nd == h.base - |h.Rest()| + h.Top()
  {
    PartitionSets(s);
    StackSets(s, h);
    Remainder(s.Live(), s.deleted + s.inFlight, Elems(s.empty), h.base, Elems(h.Rest()), h.Top(), s.maxPoints);
  }

  // The empty slots the history determines.
  lemma StackSets(s: Slots, h: History)
    requires s.reserved.None? && Follows(s, h)
    ensures Elems(s.empty) == Between(h.base, s.maxPoints - h.Top()) + Elems(h.Rest())
    ensures |s.empty| == s.maxPoints - h.Top() - h.base + |h.Rest()|
    ensures Elems(h.Rest()) <= h.loaded && s.deleted + s.inFlight <= h.loaded <= Below(h.base)
  {
    assert s.empty == s.empty + Reserved(s);
    ElemsConcat(Range(h.base, s.maxPoints - h.Top()), h.Rest());
    RangeElems(h.base, s.maxPoints - h.Top());
    assert forall x :: x in h.Rest() ==> x in Elems(h.released);
  }

  // Before the delete list is released all of it is pending.
  lemma AllPending(s: Slots, h: History)
    requires Follows(s, h) && h.released == []
    ensures (s.deleted + s.inFlight) + Elems(h.Rest()) == h.loaded && h.Rest() == [] && h.Top() == h.before
  {
  }

  lemma Remainder(live: set<nat>, pending: set<nat>, empty: set<nat>, base: nat, rest: set<nat>, top: nat,
                  maxPoints: nat)
    requires base + top <= maxPoints && pending <= Below(base) && rest <= Below(base)
    requires live + pending + empty == Below(maxPoints) && live !! pending && live !! empty && pending !! empty
    requires empty == Between(base, maxPoints - top) + rest
    ensures live == Split(base, pending + rest, top, maxPoints)
  {
    assert live == Below(maxPoints) - empty - pending;
  }

  lemma SplitWhole(base: nat, top: nat, maxPoints: nat)
    requires base + top <= maxPoints
    ensures Split(base, {}, top, maxPoints) == Below(base + top) <==> top == 0 || base + top == maxPoints
  {
    if Split(base, {}, top, maxPoints) == Below(base + top) && top > 0 {
      assert maxPoints - 1 in Split(base, {}, top, maxPoints);
    }
  }

  lemma SplitPending(base: nat, gone: set<nat>, top: nat, maxPoints: nat)
    requires base + top <= maxPoints && gone <= Below(base)
    ensures Split(base, gone, top, maxPoints) + gone == Split(base, {}, top, maxPoints)
    ensures gone != {} ==> Split(base, gone, top, maxPoints) != Below(base + top)
  {
    if gone != {} {
      var x :| x in gone;
      assert x in Below(base + top) && x !in Split(base, gone, top, maxPoints);
    }
  }

  lemma SplitReleased(base: nat, gone: set<nat>, top: nat, maxPoints: nat, nd: nat)
    requires base + top <= maxPoints && gone <= Below(base) && nd == base - |gone| + top
    ensures Split(base, gone, top, maxPoints) == Below(nd) <==>
              (top == 0 && gone == Between(nd, base)) || (gone == {} && nd == maxPoints)
  {
    if gone == {} {
      SplitWhole(base, top, maxPoints);
      assert top == 0 ==> Between(nd, base) == {};
    } else if top > 0 {
      SplitGap(base, gone, top, maxPoints, nd);
    } else {
      SplitTail(base, gone, maxPoints, nd);
    }
  }

  lemma SplitGap(base: nat, gone: set<nat>, top: nat, maxPoints: nat, nd: nat)
    requires base + top <= maxPoints && gone <= Below(base) && gone != {} && top > 0
    ensures Split(base, gone, top, maxPoints) != Below(nd)
  {
    var x :| x in gone;
    assert x !in Split(base, gone, top, maxPoints) && maxPoints - 1 in Split(base, gone, top, maxPoints);
    assert x in Below(nd) || maxPoints - 1 !in Below(nd);
  }

  lemma SplitTail(base: nat, gone: set<nat>, maxPoints: nat, nd: nat)
    requires base <= maxPoints && gone <= Below(base) && nd <= base
    ensures Split(base, gone, 0, maxPoints) == Below(nd) <==> gone == Between(nd, base)
  {
    assert Split(base, gone, 0, maxPoints) == Below(base) - gone;
    assert gone == Below(base) - (Below(base) - gone);
    assert Below(nd) == Below(base) - Between(nd, base);
  }

  /** No delete list loaded, k inserts since: the live locations are [0, base) and the top k, so a prefix exactly when
      k is 0 or the index is full. */
  lemma FlagWithoutDeletes(s: Slots, h: History)
    requires Inv(s) && s.reserved.None? && Follows(s, h) && h.loaded == {}
    ensures s.Live() == Split(h.base, {}, h.before, s.maxPoints) && s.nd == h.base + h.before
    ensures s.Live() == Below(s.nd) <==> h.before == 0 || s.nd == s.maxPoints
  {
    NoneReleased(h);
    FlaggedLive(s, h);
    SplitWhole(h.base, h.before, s.maxPoints);
  }

  lemma NoneReleased(h: History)
    requires h.loaded == {} && (h.released != [] ==> Lists(h.released, h.loaded))
    ensures h.released == []
  {
    assert |h.released| > 0 ==> h.released[0] in Elems(h.released);
  }

  /** A delete list loaded and not released yet: never [0, nd); with the pending ones, exactly under the same
      condition. */
  lemma FlagWithPending(s: Slots, h: History)
    requires Inv(s) && s.reserved.None? && Follows(s, h) && h.loaded != {} && h.released == []
    ensures s.Live() != Below(s.nd)
    ensures s.Live() + h.loaded == Below(s.nd) <==> h.before == 0 || s.nd == s.maxPoints
  {
    FlaggedLive(s, h);
    AllPending(s, h);
    PendingPrefix(h.base, h.loaded, h.before, s.maxPoints);
  }

  lemma PendingPrefix(base: nat, gone: set<nat>, top: nat, maxPoints: nat)
    requires base + top <= maxPoints && gone <= Below(base) && gone != {}
    ensures Split(base, gone, top, maxPoints) != Below(base + top)
    ensures Split(base, gone, top, maxPoints) + gone == Below(base + top) <==> top == 0 || base + top == maxPoints
  {
    SplitPending(base, gone, top, maxPoints);
    SplitWhole(base, top, maxPoints);
  }

  /** The delete list released: inserts first take its slots again, last released first. The live locations are
      [0, nd) exactly when no insert went to the top and the slots not taken again are the last ones below base, or all
      were taken again and the index is full. */
  lemma FlagAfterRelease(s: Slots, h: History)
    requires Inv(s) && s.reserved.None? && Follows(s, h) && h.released != []
    ensures s.Live() == Below(s.nd) <==>
              || (h.Top() == 0 && Elems(h.Rest()) == Between(s.nd, h.base))
              || (h.Rest() == [] && s.nd == s.maxPoints)
  {
    FlaggedLive(s, h);
    DistinctCard(h.Rest());
    assert h.Rest() == [] <==> Elems(h.Rest()) == {};
    SplitReleased(h.base, Elems(h.Rest()), h.Top(), s.maxPoints, s.nd);
  }

  /** Every state of every run in which the flag is set and no insert is under way: which locations are live, and
      exactly when they are [0, nd), by what the run did since the last load or completed compaction. */
  lemma FlagMeaning(states: seq<Slots>, tags: seq<Tag>, i: nat)
    requires Run(states, tags) && i < |states| && states[i].compacted && states[i].reserved.None?
    ensures var s, h := states[i], HistoryAt(states, i);
            && h.base + h.Top() <= s.maxPoints && s.nd == h.base - |h.Rest()| + h.Top()
            && s.Live() == Split(h.base, (s.deleted + s.inFlight) + Elems(h.Rest()), h.Top(), s.maxPoints)
            && (s.Live() == Below(s.nd) <==> Prefix(s, h))
  {
    var s, h := states[i], HistoryAt(states, i);
    RunInv(states, tags, i);
    RunFollows(states, tags, i);
    FlaggedLive(s, h);
    FlaggedPrefix(s, h);
  }

  // No delete list: no insert since, or a full index. One not released: never. One released: see FlagAfterRelease.
  predicate Prefix(s: Slots, h: History) {
    if h.loaded == {} then h.before == 0 || s.nd == s.maxPoints
    else if h.released == [] then false
    else (h.Top() == 0 && Elems(h.Rest()) == Between(s.nd, h.base)) || (h.Rest() == [] && s.nd == s.maxPoints)
  }

  lemma FlaggedPrefix(s: Slots, h: History)
    requires Inv(s) && s.reserved.None? && Follows(s, h)
    ensures s.Live() == Below(s.nd) <==> Prefix(s, h)
  {
    if h.loaded == {} {
      FlagWithoutDeletes(s, h);
    } else if h.released == [] {
      FlagWithPending(s, h);
    } else {
      FlagAfterRelease(s, h);
    }
  }

  /** An input with a loaded delete list: three slots, two tags, location 0 deleted. One insert fills the index and
      leaves the flag set, but location 0 is not live. */
  lemma FlagLies(s: Slots, tag: Tag)
    requires Loaded(s, [1, 2]) && s.maxPoints == 3 && s.deleted == {0} && tag !in s.tagToLocation
    ensures var s' := Commit(Reserve(s).0, tag).0;
            s'.compacted && s'.nd == s'.maxPoints && s'.Live() != Below(s'.nd)
  {
    LoadedInv(s, [1, 2]);
    ReserveOutcome(s);
    assert 0 in Below(3) && 0 !in s.Live();
  }
}
