# A verified model of the Vamana/DiskANN index

This project models, in Dafny, the mutable in-memory Vamana index and the offline pipeline that shards, merges and lays it
out on disk, and proves what that code relies on. The model follows the code's branches, constants and error returns; where
the code changes state in place, the model is a class or an array method proved against a specification.
`dafny verify dfyconfig.toml` checks everything.

## What is modelled

- **Search.** `NeighborOrder`, `NeighborQueue`, `GreedySearch`: the bounded candidate queue with its cursor, and greedy beam
  search. The queue always holds the first `capacity` of everything offered to it; the search terminates by a
  lexicographic measure and ends at a fixed point, and when the reachable set fits in the queue the queue is that set.
- **Pruning and linking.** `RobustPrune`, `Occlusion`, `Pruning`, `LinkBuild`: α-pruning in rounds (sound, covering,
  terminating by a real-valued measure). `RobustPrune` says what pruning promises in ids and distances alone, without a term
  of the loops, and the loops are proved to keep it; further the fallbacks of an insert, and parallel construction as a step
  relation in which a prune computed from an old snapshot may overwrite newer additions, down to the degree bound after the
  final cleanup.
- **The dynamic index.** `NaturalNumbers`, `Stores`, `Renumbering`, `SlotAccounting`, `Consolidation`, `Compaction`,
  `Reposition`, `DynamicIndex`: slots, tags, lazy deletes, consolidation, in-place compaction and moves of the frozen
  points. `SlotAccounting` covers every interleaving of the critical sections under the lock protocol
  (`include/index.h:434-442`), and `CompactedFlag` says what `_data_compacted` means in every state of every such run.
  `DynamicIndex.Index` puts graph, vectors, slots and tags together, new or loaded, and `RowSpace` says what inserts and
  consolidations leave in the distances between stored rows. `IndexRuns` proves runs of whole operations on it, and
  `SavedIndex` what `save` with compaction does to it, what it writes and what `load` gives back.
- **The pipeline.** `Partition`, `GraphFile`, `MergeShards`, `Blocks`, `DiskLayout`, `CachedIO`, `Pipeline`: partitioning
  into shards establishes the invariants the streaming merge needs; graph files and sector layouts round-trip; cached
  streams behave like plain ones; and from the base points to the disk index every node reads back right.
- **Numerics over the reals.** `ClosestCenters`, `Lloyd`, `InnerProduct`: exact nearest centers by norms expansion, descent
  of Lloyd's iteration, and the reduction of inner-product search to L2 search.

`Wrappers` holds the option type and the set-size facts the others share.

Distances are an arbitrary function into the reals; where the code needs them nonnegative (the L2 and cosine metrics) the
model says so (`Metrized`). A location's distance to a query is a function of its id.

## What the proofs found

- `CompactedFlag.FlagMeaning`: an insert does not clear `_data_compacted` (only a lazy delete does,
  `src/index.cpp:3163-3182`), so with the flag set `compact_data` returns early whether or not the index is compact. Let n0
  be `nd` at the last load or completed compaction and k the successful inserts since. Without a loaded delete list the live
  locations are [0, n0) and the top k, a prefix exactly when k is 0 or the index is full. With one not yet consolidated they
  are never a prefix (`FlagLies`: a full index, flag set, location 0 not live). Once it is consolidated, inserts first take
  its slots again, last released first, and the live locations are a prefix exactly when no insert went to the top and the
  slots not taken again are the last ones below n0, or all were taken again and the index is full.
- `IndexRuns.RunAll`: `load` of a full index and a compaction that goes through on a full index leave the bitset of
  `_empty_slots` with length 0, and `is_in_set` has no bounds check. The bitset is too short exactly after such a load or
  compaction (`nd == maxPoints` before the call) and stays so until a consolidation is tried, which then reads past it; a run
  stops early exactly there. `CompactThenConsolidate` and `LoadThenConsolidate` are two such runs.
- `SavedIndex.Save`: `save` goes on to move the frozen points down to nd and back when its compaction was refused because
  the flag was set. The rows from nd on that the frozen block landed on are then zero, so every tag keeps its vector exactly
  when each live location among them held a zero row. `SaveLosesVector` is an index with one point that loses it. (The check
  in `reposition_points` that the target lists are empty is a debug assertion, `src/index.cpp:2838-2873`.) After a completed
  compaction the move down and back is the identity.
- `SavedIndex.TagsComeBack`: the tags a later `load` finds in the files are the index's own exactly when the live locations
  are [0, nd) without the delete list; a save refused in any other state drops the tags past nd.
- `Reposition.RoundTrip`: moving the frozen points down and back is the identity on the lists exactly when no list names a
  slot the block lands on.
- `Partition.ShardDataIntoClustersOnlyIds`: with `k_base` above the number of shards the selection buffer is never written,
  all points go k times to shard 0, and the function still returns 0; the shard lists are strictly increasing exactly when
  `k_base` is at most the number of shards. `OneShardTwice` is an input.
- `GraphFile.LoadGraph`: the recorded degree is trusted; it bounds the store's lists exactly when it bounds the loaded ones
  and every list left beyond them. `LoadNarrow` is an input.
- `CachedIO.WriteThenPatch`: the size a `cached_ofstream` reports counts rewritten bytes twice, so after `reset` it equals
  the file's size only if nothing was overwritten.
- `Partition.RetrieveShardDataFromIds`: the single pass writes all requested rows exactly when the ids are strictly
  increasing and in range; otherwise it stops at the longest prefix that is.
- `MergeShards.RecordsInPlace`: the merge writes one record for node 0, held or not, and one per held node. Record v is node
  v's for every v exactly when the ids leave no gap above 0; after a gap all records shift (`GapShifts`).
- `MergeShards.MergeShards`: the entry point and the medoid list of the merged index come from the shards' own medoids, the
  last shard's medoid being the entry point.

## Model

| member | source | states |
|---|---|---|
| NeighborOrder.TopKUnique | include/neighbor.h:26-35 | the first k of a set in (distance, id) order is one list, so "bounded sorted set" is a specification |
| NeighborOrder.RankedUnique | include/neighbor.h:26-35 | a set of ids has one ranked listing |
| NeighborQueue.InsertKeepsTopK | include/neighbor.h:55-94 | inserting at the position the binary search finds and cutting off at capacity keeps "first k of everything seen" |
| NeighborQueue.InsertKeepsQueue | include/neighbor.h:37-94 | the same with flags and cursor: expanded exactly when popped, cursor on the first unexpanded entry, a re-entering id never popped before |
| NeighborQueue.DropKeepsQueue | include/neighbor.h:57-60 | dropping a duplicate or an id ranked after the last entry of a full queue loses nothing |
| NeighborQueue.PopKeepsQueue | include/neighbor.h:96-105 | marking the cursor's entry and advancing over expanded entries keeps the queue invariant and the ids |
| NeighborQueue.NeighborPriorityQueue.FindPosition | include/neighbor.h:62-79 | the binary search finds the id or splits the queue into what ranks before and after it |
| NeighborQueue.NeighborPriorityQueue.Insert | include/neighbor.h:50-94 | the queue afterwards is the first `capacity` of everything ever inserted, with the id added to what was seen |
| NeighborQueue.NeighborPriorityQueue.Place | include/neighbor.h:81-93 | the block move is insertion at a position, truncated; the cursor moves back only if needed |
| NeighborQueue.NeighborPriorityQueue.ClosestUnexpanded | include/neighbor.h:96-105 | returns the best entry never returned before; contents unchanged |
| GreedySearch.ReachableInClosed | src/index.cpp:900-991 | a set closed under edges and holding the starting points holds everything reachable |
| GreedySearch.EndIsFixedPoint | src/index.cpp:900-993 | when every queue entry is expanded the queue is a fixed point, and if at most L nodes are reachable it is exactly the reachable set |
| GreedySearch.Seed | src/index.cpp:859-895 | the starting points are seen, and an out-of-range one is refused |
| GreedySearch.Expand | src/index.cpp:900-991 | one expansion shrinks (reachable minus visited, visited minus expanded) lexicographically and keeps the search invariant |
| GreedySearch.Progress | src/index.cpp:900-991 | the termination measure decreases for any node expanded for the first time |
| GreedySearch.IterateToFixedPoint | src/index.cpp:808-993 | refusal on a bad starting point, else a fixed point, top L of what was visited, the exact reachable set when it fits, and the expanded nodes once each |
| Occlusion.ConsiderJustified | src/index.cpp:1135-1179 | taking position i keeps the meaning of every later occlusion factor |
| Occlusion.StepTraced | src/index.cpp:1117-1180 | one position of a pass keeps the trace: separation of kept pairs and justification of every factor |
| Occlusion.PassInduction | src/index.cpp:1117-1180 | whatever one position keeps, a pass keeps |
| Occlusion.RoundsInduction | src/index.cpp:1110-1182 | whatever a pass keeps, all rounds keep, ending above alpha or with a full list |
| Occlusion.OccludedListOutcome | src/index.cpp:1089-1183 | soundness and coverage: kept pairs separated at thresholds no higher than α whether or not the list is full, at most `degree`, and with room left every candidate never considered is occluded by a considered closer one at the last threshold |
| RobustPrune.WithoutOrder | src/index.cpp:1123-1133 | two ids of the list, one before the other, were considered in that order |
| Occlusion.FirstPick | src/index.cpp:1117-1133 | the closest candidate is considered first |
| Occlusion.OutcomePruned | src/index.cpp:1089-1183 | the outcome in pool positions, ids and `dist` alone: considered candidates separated, the others covered, position 0 first |
| Occlusion.KeptSeparated | src/index.cpp:1135-1179 | L2 and cosine: for u kept before v and closer in the pool, 0 < dist(v, u) and the distance of v is at most α dist(v, u), full list or not |
| Occlusion.OccludedListShape | src/index.cpp:1089-1183 | at most `degree` ids, from the pool, never the location or a deleted id, distinct if the pool is |
| Occlusion.KeptDistinct | src/index.cpp:1123-1133 | positions considered once give distinct ids |
| Occlusion.FullPass | src/index.cpp:1111-1117 | a full list stops a pass from changing anything |
| Occlusion.OccludeLater | src/index.cpp:1135-1179 | the in-place update of the factors behind position i |
| Occlusion.Round | src/index.cpp:1117-1180 | one pass over the pool, in place, is the specification's pass |
| Occlusion.OccludeList | src/index.cpp:1089-1183 | the whole method: the maxc closest of the pool; the specified list, its outer loop terminating by the real distance of cur_alpha to alpha; the same said in ids and `dist`: separation in both metric families, coverage with room left, α-spread |
| RobustPrune.PoolPrunedIds | src/index.cpp:1089-1183 | pruned by position in a ranked pool is pruned by id: candidates are the maxc closest, the least is considered first, everything else covered by a closer one |
| RobustPrune.PrunedList | src/index.cpp:1089-1183 | the pruned list: distinct, at most range, holds the least candidate, α-spread |
| RobustPrune.ChosenList | src/index.cpp:1269-1308 | the same of the choice with saturation, spread when nothing was filled up |
| RobustPrune.SpreadByPosition | src/index.cpp:1135-1179 | separation at thresholds within α is spread at α |
| Pruning.SortPool | src/index.cpp:1290-1291 | a sorted rearrangement of the pool |
| Pruning.SortedRanked | src/index.cpp:1290-1291 | sorting distinct candidates gives the one ranked list |
| Pruning.FirstKept | src/index.cpp:1269-1308 | the closest candidate is always kept |
| Pruning.FillUpFull | src/index.cpp:1298-1308 | leaving the saturation loop when the list is full loses nothing |
| Pruning.FillUpFacts | src/index.cpp:1298-1308 | saturation adds the closest candidates first, up to range, and all of them with room left |
| Pruning.ChosenMeaning | src/index.cpp:1269-1308 | the choice by ids and distances alone: α-pruned, unchanged without saturation, otherwise filled up closest first |
| Pruning.PruneNeighbors | src/index.cpp:1269-1308 | the occluded list of the sorted, truncated pool, saturated from the pool when asked; never empty for a usable pool |
| Pruning.Saturate | src/index.cpp:1298-1308 | fills up in pool order; with room left every candidate is in |
| Pruning.SearchCandidates | src/index.cpp:1003-1060 | the candidates are the expanded nodes of a search that reached a fixed point, without the location |
| Pruning.SearchForPointAndPrune | src/index.cpp:995-1086 | what is linked is the pruned search result or a fallback: nonempty, distinct, reachable, at most `range`, the location itself only as the entry-point fallback |
| Pruning.FoundMeaning | src/index.cpp:995-1086 | the same by ids and distances alone: a search at rest, the choice among its expanded nodes, or the closest of them, or the entry point |
| Pruning.WithoutLocation | src/index.cpp:1053-1060 | erasing the location keeps the others |
| LinkBuild.AddOrSnapshot | src/index.cpp:1327-1345 | the critical section: present, appended below floor(1.3 R), or a snapshot of the full list with n behind |
| LinkBuild.PruneSnapshot | src/index.cpp:1348-1366 | the pruned snapshot without repeats and without the node itself |
| LinkBuild.InsertBackEdge | src/index.cpp:1319-1373 | one target's back edge, run alone |
| LinkBuild.InterInsert | src/index.cpp:1311-1374 | run alone, every target v keeps a list with n, gets n appended below the slack, or the α-pruned choice among exactly its entries and n without v; n is in the new list whenever there was room or it is the closest; no other list changes |
| LinkBuild.BackEdgeMeaning | src/index.cpp:1348-1366 | a full list becomes the choice among its entries and n, by ids and distances alone |
| LinkBuild.BackEdgeSet | src/index.cpp:1319-1373 | the back edge is set unless a full list holds a closer entry |
| LinkBuild.LinkNode | src/index.cpp:1425-1449 | a node's own list is the pruned search result, one the interleaving model lets a thread start with |
| LinkBuild.StepInv | src/index.cpp:1311-1374 | each step of each thread keeps: distinct in-range ids, no self-loop but at the entry point, at most floor(1.3 R) entries |
| LinkBuild.VisitInv | src/index.cpp:1327-1345 | the same for the visit of one target under its lock |
| LinkBuild.RunInv | src/index.cpp:1425-1458 | the list invariant in every state of every interleaving, stale commits included |
| LinkBuild.SearchRacing | src/index.cpp:900-991 | a search that reads different lists at each expansion still ends, and expands nodes only |
| LinkBuild.LinkRacing | src/index.cpp:1425-1449 | search, prune and fallback over lists changing between expansions give a list the interleaving model lets a thread start with |
| LinkBuild.RunSnapshots | src/index.cpp:900-991 | the graphs of a run, seen at any of its states, are such changing lists |
| LinkBuild.CleanNode | src/index.cpp:1467-1490 | one node of the cleanup: pruned if longer than R, else unchanged |
| LinkBuild.Cleanup | src/index.cpp:1460-1491 | after the cleanup at most R entries each, lists within R unchanged, longer ones pruned |
| LinkBuild.FinishBuild | src/index.cpp:1425-1491 | any interleaved run come to rest, then the cleanup: every list in order with at most R entries |
| NaturalNumbers.NaturalNumberSet.Insert | src/natural_number_set.cpp:27-34 | adds the id and grows the bitset to cover it; an id already present is appended again, and the vector is then no longer a set |
| NaturalNumbers.NaturalNumberSet.PopAny | src/natural_number_set.cpp:37-49 | removes and returns the last inserted member, error exactly on the empty set |
| NaturalNumbers.NaturalNumberSet.SizeIsCard | src/natural_number_set.cpp:58-61 | the vector's size is the number of members |
| NaturalNumbers.NaturalNumberSet.Clear | src/natural_number_set.cpp:52-56 | empties vector and bitset alike |
| NaturalNumbers.NaturalNumberMap.Set | src/natural_number_map.cpp:31-45 | map update, with the size kept right for new and old keys |
| NaturalNumbers.NaturalNumberMap.Erase | src/natural_number_map.cpp:48-58 | map removal, a missing key being no error |
| NaturalNumbers.NaturalNumberMap.TryGet | src/natural_number_map.cpp:66-75 | the value, or nothing for an absent key |
| NaturalNumbers.NaturalNumberMap.Clear | src/natural_number_map.cpp:103-109 | the empty map |
| NaturalNumbers.NaturalNumberMap.NextBit | src/natural_number_map.cpp:77-90 | the least set bit at or after an index |
| NaturalNumbers.NaturalNumberMap.FindFirst | src/natural_number_map.cpp:77-81 | the least key, none for the empty map |
| NaturalNumbers.NaturalNumberMap.FindNext | src/natural_number_map.cpp:83-90 | the next larger key, none after the last, counting keys passed |
| Stores.GraphStore.AddNeighbour | src/in_mem_graph_store.cpp:34-40 | appends; the observed degree still bounds every list |
| Stores.GraphStore.SwapNeighbours | src/in_mem_graph_store.cpp:46-49 | exchanges two lists and nothing else |
| Stores.GraphStore.SetNeighbours | src/in_mem_graph_store.cpp:51-58 | replaces one list; the observed degree still bounds every list |
| Stores.GraphStore.ClearNeighbours | src/in_mem_graph_store.cpp:42-45 | empties one list |
| Stores.DataStore.SetVector | src/in_mem_data_store.cpp:165-174 | the row becomes the vector padded with zeros and prepared for the distance (normalised for normalised cosine, itself otherwise) |
| Stores.DataStore.GetVector | src/in_mem_data_store.cpp:159-163 | the unpadded row |
| Stores.DataStore.Load | src/in_mem_data_store.cpp:74-107 | rows padded and stored as they are, the others untouched |
| Stores.DataStore.Save | src/in_mem_data_store.cpp:109-112 | the first n rows without their padding |
| Stores.DataStore.CopyVectors | src/in_mem_data_store.cpp:331-339 | a block copy, right for overlapping ranges |
| Stores.DataStore.MoveVectors | src/in_mem_data_store.cpp:284-329 | a block move, right for overlaps in both directions, vacated rows zeroed |
| Consolidation.Expand | src/index.cpp:2442-2460 | gathers exactly (N(v) minus D) union (neighbours of deleted neighbours, minus D and v) |
| Consolidation.SortedCandidates | src/index.cpp:2473-2479 | the expanded set as the one ranked pool |
| Consolidation.CopySet | src/index.cpp:2466-2469 | a list that is the set, in some order |
| Consolidation.ProcessDelete | src/index.cpp:2422-2487 | writes v's list only: unchanged, the expanded set, or for a large one its α-pruning with the caller's range, maxc and α by ids and distances alone |
| Consolidation.LargeListPruned | src/index.cpp:2473-2486 | a large expanded set is α-pruned with the caller's bounds |
| Consolidation.LargeListFacts | src/index.cpp:2473-2486 | of a large expanded set at most range distinct members stay, the closest among them, α-spread |
| Consolidation.ProcessedListDetermined | src/index.cpp:2422-2487 | the neighbour set is determined by the graph before the pass |
| Consolidation.ProcessedListClean | src/index.cpp:2422-2487 | no edge into the deleted set; every new edge goes through a deleted neighbour |
| Consolidation.ReadsOwnAndDeleted | src/index.cpp:2433-2460 | processing v depends on v's list and the deleted nodes' lists only |
| Consolidation.GraphPassDetermined | src/index.cpp:2553-2570 | schedule independence: any two orders give the same neighbour sets |
| Consolidation.GraphPassComplete | src/index.cpp:2553-2570 | completeness: no processed node keeps a deleted neighbour, and a small expanded set is taken whole |
| Renumbering.NewLocationMonotone | src/index.cpp:2635-2655 | ranks preserve order |
| Renumbering.NewLocationInjective | src/index.cpp:2635-2655 | two live locations have different new ones |
| Renumbering.NewLocationOnto | src/index.cpp:2635-2655 | every slot below the number of live locations is the rank of one |
| Renumbering.NewLocationBounds | src/index.cpp:2635-2655 | a location never moves up |
| SlotAccounting.PartitionSets | src/index.cpp:2496-2539 | live, pending, in-flight, reserved and empty locations are disjoint and make up [0, maxPoints) |
| SlotAccounting.NdIsSum | src/index.cpp:2500-2513 | nd is the sum of the sizes of all but the empty ones |
| SlotAccounting.InjectiveCard | src/index.cpp:2515-2519 | mutually inverse tag maps have the same size |
| SlotAccounting.EntryCheckOutcome | src/index.cpp:2500-2519 | the first and third checks never fail, the second exactly when another consolidation is in flight |
| SlotAccounting.ReserveOutcome | src/index.cpp:2746-2771 | a location is given out exactly below capacity, from a nonempty slot list, and was never pending delete |
| SlotAccounting.CommitOutcome | src/index.cpp:3074-3087 | -1 exactly for a tag already present, and its release passes its checks |
| SlotAccounting.ReleaseOutcome | src/index.cpp:2772-2802 | releasing the in-flight set never throws |
| SlotAccounting.LoadedInv | src/index.cpp:639-645 | the accounting holds after load |
| SlotAccounting.ReserveInv | src/index.cpp:2746-2771 | reserving keeps the accounting |
| SlotAccounting.CommitInv | src/index.cpp:3074-3087 | tagging or giving back keeps it |
| SlotAccounting.LazyDeleteInv | src/index.cpp:3163-3182 | a lazy delete keeps it |
| SlotAccounting.SwapInv | src/index.cpp:2526-2539 | taking the delete set over keeps it, even between a reservation and its commit |
| SlotAccounting.ReleaseInv | src/index.cpp:2784-2802 | releasing keeps it, in any order of the set |
| SlotAccounting.CompactInv | src/index.cpp:2614-2741 | a compaction keeps it |
| SlotAccounting.CompactLive | src/index.cpp:2709-2739 | after a compaction the live locations are [0, nd) |
| SlotAccounting.StepInv | include/index.h:434-442 | every step the lock protocol allows keeps the accounting |
| SlotAccounting.RunInv | src/index.cpp:2490-2590 | every state of every run: the accounting, nd as a sum, tag maps of one size |
| CompactedFlag.CommitFollows | src/index.cpp:3074-3087 | while the flag is set, a commit keeps the slot list a stack over [base, maxPoints) that the history of the run determines |
| CompactedFlag.ReleaseFollows | src/index.cpp:2784-2802 | so does the release of a loaded delete list, in any order |
| CompactedFlag.StepFollows | include/index.h:434-442 | so does every step the lock protocol allows |
| CompactedFlag.RunFollows | src/index.cpp:2490-2590 | in every state of every run with the flag set, history determines the slot list |
| CompactedFlag.FlaggedLive | src/index.cpp:2746-2802 | with the flag set, live is [0, base) without the pending and the still released slots, plus the top ones; nd counts them |
| CompactedFlag.FlagWithoutDeletes | src/index.cpp:2614-2623 | no delete list loaded, k inserts since: live is [0, base) and the top k; a prefix exactly when k is 0 or the index is full |
| CompactedFlag.FlagWithPending | src/index.cpp:511-530 | delete list loaded and not released: live is never a prefix; with the pending ones it is, under the same condition |
| CompactedFlag.FlagAfterRelease | src/index.cpp:2784-2802 | delete list released: exactly when the live locations are a prefix |
| CompactedFlag.FlagMeaning | src/index.cpp:2614-2623 | all three over runs: in every state with the flag set and no insert under way, which locations are live and exactly when they are [0, nd) |
| CompactedFlag.FlagLies | src/index.cpp:2614-2623 | three slots, two tags, location 0 deleted, one insert: index full, flag set, location 0 not live |
| Compaction.NumberLocations | src/index.cpp:2635-2654 | new location = number of live locations below; frozen ones stay |
| Compaction.RenumberList | src/index.cpp:2671-2684 | the surviving entries renumbered in order, the others counted |
| Compaction.RenumberedImage | src/index.cpp:2671-2684 | without dangling entries the list is the pointwise image |
| Compaction.CompactOne | src/index.cpp:2663-2706 | one step in place keeps: earlier survivors at their targets, the gap blank, later lists and rows untouched |
| Compaction.Moves | src/index.cpp:2686-2700 | moving a survivor never overwrites one already placed or still to be read |
| Compaction.Drops | src/index.cpp:2702-2705 | clearing a dead location disturbs no survivor |
| Compaction.CompactGraph | src/index.cpp:2662-2707 | the in-place loop refines the renumbering, lists and vectors alike, and counts dangling references exactly |
| Compaction.RebuildTagToLocation | src/index.cpp:2709-2714 | every tag goes to the new number of its old location |
| Compaction.RebuildLocationToTag | src/index.cpp:2715-2719 | the inverse map is rebuilt |
| Compaction.CompactedIsomorphic | src/index.cpp:2635-2739 | adjacency on live and frozen nodes is carried over isomorphically, with every survivor's row |
| DynamicIndex.ReachableOccupied | src/index.cpp:3091-3104 | a search only meets occupied locations |
| DynamicIndex.InsertConnected | src/index.cpp:3106-3129 | the new list and the back edges keep "no edge into an empty slot", the new location now being occupied |
| DynamicIndex.ConsolidateNoDangling | src/index.cpp:2553-2570 | after the pass no surviving edge names an empty or just deleted location |
| DynamicIndex.NoneDangling | src/index.cpp:2662-2707 | then compaction counts zero dangling references |
| DynamicIndex.CompactResult | src/index.cpp:2662-2731 | after the moves: edges within the occupied prefix and the frozen points, lists past it empty |
| DynamicIndex.TagSection | src/index.cpp:2994-3087 | reserve and commit together: the slot taken is empty, untagged and in range, or nothing changes |
| DynamicIndex.Index.constructor | src/index.cpp:2392-2420 | every location an empty slot, the bitset covering all |
| DynamicIndex.Index.Load | src/index.cpp:534-660 | lists and vectors loaded, frozen points moved to the end, tags of the locations not deleted, the slots between empty; valid, the bitset of length 0 exactly when there are none |
| DynamicIndex.LoadTags | src/index.cpp:405-455 | the two tag maps of the locations not in the delete list, mutually inverse |
| DynamicIndex.LoadedGraph | src/index.cpp:625-650 | after the frozen points moved to the end nothing names the empty slots between |
| DynamicIndex.Index.ReserveLocation | src/index.cpp:2746-2771 | the specified reservation, on the real structures |
| DynamicIndex.Index.CommitTag | src/index.cpp:3074-3087 | the specified commit, on the real structures |
| DynamicIndex.Index.LazyDeletePoint | src/index.cpp:3163-3182 | the specified lazy delete, on the real structures |
| DynamicIndex.Index.EntryChecks | src/index.cpp:2500-2519 | the specified entry check |
| DynamicIndex.Index.ReleaseLocation | src/index.cpp:2773-2782 | gives the slot back, or the error exactly for a slot already empty |
| DynamicIndex.Index.ReleaseLocations | src/index.cpp:2784-2802 | gives back exactly the released set; no check throws |
| DynamicIndex.Index.InsertPoint | src/index.cpp:2981-3131 | error for tag 0, -1 exactly when full or present; else the tag resolves to the padded and prepared point, other tags as before; in the distances between stored rows with the write's own bounds: the search at rest, the closest expanded node in the list, at most range entries, α-spread, and the back edges |
| DynamicIndex.ConnectedMeaning | src/in_mem_data_store.cpp:216-220 | an insert's effect on the lists in row distances |
| RowSpace.ClosestListed | src/index.cpp:1003-1086 | the expanded node closest to the new row is in its list, chosen or as the fallback |
| RowSpace.InsertedMeaning | src/index.cpp:995-1086 | the new list in row distances: fixed point, closest node, range, α-spread |
| RowSpace.RepairedMeaning | src/index.cpp:2473-2486 | a repaired list in row distances: range, closest member, α-spread |
| RowSpace.PassRepairs | src/index.cpp:2553-2570 | every survivor with a large expanded set after the pass, in row distances |
| DynamicIndex.Index.ConnectPoint | src/index.cpp:3091-3129 | the graph part of an insert |
| DynamicIndex.LinkLists | src/index.cpp:3106-3129 | the new list set and its back edges added, nothing else changed |
| DynamicIndex.Index.LazyDeleteTag | src/index.cpp:3163-3182 | removes the tag, adds its location to the delete set, clears the flag, keeps every invariant, fails exactly for an unknown tag |
| DynamicIndex.Index.ProcessSurvivors | src/index.cpp:2553-2570 | every location neither deleted nor empty is processed, whatever the schedule |
| DynamicIndex.Index.ConsolidateDeletes | src/index.cpp:2490-2590 | succeeds, empties the delete set, returns its slots, leaves the specified graph and no dangling edge; large expanded sets pruned with the write's own bounds in row distances |
| DynamicIndex.Index.CompactData | src/index.cpp:2614-2741 | refusal, error or the compaction; zero dangling references; every tag resolves to the same vector; frozen rows unchanged; isomorphic adjacency; lists past nd empty; bitset of length 0 exactly after compacting a full index |
| DynamicIndex.Index.CompactTags | src/index.cpp:2709-2719 | both tag maps renumbered and still inverse |
| IndexRuns.Perform | src/index.cpp:2490-3182 | one whole operation: its slot accounting, all invariants, and the bitset too short afterwards exactly if before or a full index was compacted |
| IndexRuns.StepOutOfReach | src/index.cpp:2614-2741 | one more operation adds a cause for a short bitset exactly when it compacts a full index |
| IndexRuns.RunAll | src/index.cpp:2490-3182 | over every run of inserts, lazy deletes, consolidations and compactions, from a new or loaded index: all invariants, no dangling reference ever counted; the bitset is short exactly if it was at the start or a full index was compacted; the run stops early exactly at a consolidation after that |
| IndexRuns.CompactThenConsolidate | src/index.cpp:2721-2739 | insert, failed delete, compaction of the full index, consolidation: stuck at the fourth operation |
| IndexRuns.LoadThenConsolidate | src/index.cpp:639-645 | an index loaded full, a delete, a consolidation: stuck without any compaction |
| SavedIndex.CompactedRoundTrip | src/index.cpp:2593-2611 | after a completed compaction moving the frozen points down and back changes no list and no tag's row |
| SavedIndex.UnharmedIff | src/index.cpp:2886-2898 | every tag keeps its vector exactly when the cleared live locations held zero rows |
| SavedIndex.SaveTags | src/index.cpp:198-233 | the tags of [0, nd) by location, 0 where there is none and for the frozen points |
| SavedIndex.Save | src/index.cpp:269-399 | save with compaction: the four files of the state after compact_data; then compacted and restored, or after a refusal exactly which rows are zero and when every tag keeps its vector |
| SavedIndex.SaveFiles | src/index.cpp:353-374 | the files hold the lists, rows, tags and delete list of the occupied prefix and the frozen points |
| SavedIndex.SaveLosesVector | src/index.cpp:279-283 | two slots, one frozen point, one insert, one save: the tag's vector is zero afterwards |
| SavedIndex.TagsComeBack | src/index.cpp:405-455 | the location map loaded is the one saved exactly when the live locations are [0, nd) without the delete list |
| SavedIndex.ListsComeBack | src/index.cpp:534-650 | down into the file and up after loading, every occupied or frozen list is itself again |
| SavedIndex.RowsComeBack | src/index.cpp:460-505 | every occupied or frozen row has its coordinates again |
| SavedIndex.Reload | src/index.cpp:534-660 | with the occupied slots a prefix, load of what save wrote is the saved index: tags, delete list, lists, coordinates |
| SavedIndex.SaveThenLoad | src/index.cpp:269-399 | after a completed compaction the loaded index has the same tags, each with its vector, and a graph isomorphic to the one before the save |
| Reposition.WrapAround | src/index.cpp:2813-2827 | adding the uint32 difference wraps to the right location in both directions |
| Reposition.RenameList | src/index.cpp:2818-2829 | entries of the moved block renamed, the others kept |
| Reposition.RepositionPoints | src/index.cpp:2804-2884 | entries renamed and lists swapped one by one, whatever the target holds; over a blank target the graph relabelled; vectors moved with vacated rows zero, for any overlap |
| Reposition.MoveListsDown | src/index.cpp:2838-2851 | front to back, a downward overlapping move loses no list |
| Reposition.MoveListsUp | src/index.cpp:2860-2873 | back to front, an upward overlapping move loses no list |
| Reposition.RelabelledIsomorphic | src/index.cpp:2804-2884 | every node outside the overwritten block keeps its edges under the renaming |
| Reposition.SwapsDownTake | src/index.cpp:2838-2851 | downward swaps bring the block's lists to the target in order, whatever lay there |
| Reposition.MovedDownLists | src/index.cpp:250-253 | the first nd + frozen lists are then those to save |
| Reposition.ThereAndBack | src/index.cpp:2804-2884 | moving the block down and up again puts every list back in its place, with entries naming the landing slots renamed |
| Reposition.RoundTrip | src/index.cpp:2593-2611 | down and back is the identity on the lists exactly when none names a slot the block lands on |
| Reposition.RowsThereAndBack | src/in_mem_data_store.cpp:284-329 | the rows of the landing slots end zero, all others, live and frozen, are restored |
| Reposition.FrozenIndex.CompactFrozenPoint | src/index.cpp:2593-2611 | the frozen block moves to nd, whatever lies there, and the entry point follows; nothing happens to a full index or without frozen points |
| Reposition.FrozenIndex.RepositionFrozenPointToEnd | src/index.cpp:2886-2898 | the frozen block moves to maxPoints and the entry point follows |
| Reposition.FrozenIndex.MoveThereAndBack | src/index.cpp:277-379 | both moves with the graph and data files written between, whatever lies past nd: what the files hold; entry point and list places restored, the graph exactly when no list names a landing slot, rows all but the landing slots' |
| GraphFile.U64RoundTrip | src/in_mem_graph_store.cpp:209-226 | a 64-bit field reads back as written |
| GraphFile.SaveGraph | src/in_mem_graph_store.cpp:199-229 | the file encodes the lists, with the real maximum degree and its own size in bytes |
| GraphFile.NextRecord | src/in_mem_graph_store.cpp:166-192 | the reader is at the end exactly after the last record, otherwise at the next one |
| GraphFile.ReadRecord | src/in_mem_graph_store.cpp:171-185 | one record into its node; short files and surplus nodes told apart |
| GraphFile.LoadGraph | src/in_mem_graph_store.cpp:134-197 | any encoding with room for its lists is loaded back; the store is valid exactly when the width bounds the loaded lists and those left beyond them |
| GraphFile.LoadedDegrees | src/in_mem_graph_store.cpp:187-197 | a recorded degree bounds the store exactly when it bounds both parts |
| GraphFile.LoadNarrow | src/in_mem_graph_store.cpp:146-150 | a list of one entry under recorded degree 0 |
| GraphFile.HeaderFields | src/in_mem_graph_store.cpp:146-150 | the header's fields are where the reader looks |
| GraphFile.SaveThenLoad | src/in_mem_graph_store.cpp:134-229 | save then load gives the same lists, start and frozen count, and a store whose degree bound holds |
| MergeShards.NodesOfIncreasing | src/disk_utils.cpp:271-285 | the sorted entries name each shard's nodes in the shard's own order |
| MergeShards.NextNode | src/disk_utils.cpp:416-459 | each shard reader is positioned at exactly the record the next entry needs |
| MergeShards.NodesByEntries | src/disk_utils.cpp:416-438 | the nodes cur_id stands for: 0 and the nodes of the entries read, in increasing order |
| MergeShards.WrittenNodes | src/disk_utils.cpp:405-473 | in the end node 0 and every held node |
| MergeShards.RecordsInPlace | src/disk_utils.cpp:416-438 | record v is node v's for every v exactly when the ids leave no gap above 0 |
| MergeShards.CoveredInPlace | src/disk_utils.cpp:257-268 | covering id maps give exactly n records in place |
| MergeShards.GapShifts | src/disk_utils.cpp:416-438 | ids 0 and 2: the second record is node 2's |
| MergeShards.InverseMap | src/disk_utils.cpp:271-285 | the sorted list of all (node, shard) pairs |
| MergeShards.CountNodes | src/disk_utils.cpp:257-268 | one more than the largest id, with or without gaps; the number of nodes when the maps cover |
| MergeShards.GatheredAll | src/disk_utils.cpp:416-459 | when the entries of a node are used up, everything its shards know was gathered |
| MergeShards.AddNeighbours | src/disk_utils.cpp:450-458 | adds exactly the renamed neighbours not yet marked |
| MergeShards.EmitRecord | src/disk_utils.cpp:422-428 | a duplicate-free record of min(gathered, max degree) ids |
| MergeShards.MergeEntry | src/disk_utils.cpp:439-458 | one entry advances one reader and keeps the streaming invariant |
| MergeShards.MergeEntries | src/disk_utils.cpp:405-473 | the loop writes one right record for node 0 and per held node, gaps or not, and counts their bytes |
| MergeShards.MergeShards | src/disk_utils.cpp:243-482 | for any increasing id maps: which nodes have a record, in order; each record min(union, max degree) distinct ids of the union of the node's renamed shard neighbours; in place exactly without gaps; the size field is the size |
| DiskLayout.NumberOfBytes | src/disk_utils.cpp:1007-1012 | a little-endian integer reads back |
| DiskLayout.Regions | src/disk_utils.cpp:925-950 | node regions are disjoint, in order, inside the file, after the metadata sector, and never straddle a sector when packed |
| DiskLayout.NodeReadBack | src/disk_utils.cpp:1002-1012 | a node's bytes decode to its coordinates, degree and neighbours |
| DiskLayout.ReadNode | src/disk_utils.cpp:987-1012 | the next graph record and the coordinates make the node's bytes |
| DiskLayout.PackSector | src/disk_utils.cpp:983-1020 | one sector of packed nodes |
| DiskLayout.WritePacked | src/disk_utils.cpp:975-1024 | the packed branch stores every node at its offset and fills the recorded size |
| DiskLayout.WriteSpread | src/disk_utils.cpp:1025-1066 | the multi-sector branch does the same |
| DiskLayout.CreateDiskLayout | src/disk_utils.cpp:848-1099 | every node's bytes at its sector and offset; the nine metadata fields read points, dimensions, medoid, node length, nodes per sector, frozen points and their place, 0, and the file's length |
| DiskLayout.MetaDescribes | src/pq_flash_index.cpp:1037-1060 | the fields a loader reads, one by one |
| DiskLayout.Addresses | src/pq_flash_index.cpp:103-114 | sector, offset and file length in plain numbers |
| DiskLayout.ByteAt | src/disk_utils.cpp:1007-1012 | integers are little-endian |
| DiskLayout.MetaReadBack | src/disk_utils.cpp:1098-1099 | each metadata field reads back from the file |
| DiskLayout.LayoutReadBack | src/pq_flash_index.cpp:103-125 | the round trip: the sectors of node i, decoded at its offset, give its coordinates and its neighbours cut to the degree field |
| Pipeline.UnionIds | src/disk_utils.cpp:450-458 | merged neighbours are ids below the number of nodes |
| Pipeline.BuildDiskIndex | src/disk_utils.cpp:848-1099 | merge, then layout: each node's sectors decode to its coordinates and its min(union, max degree) merged neighbours; the metadata names the last shard's renamed medoid as entry point |
| Pipeline.BuildFromBase | src/disk_utils.cpp:660-764 | from the base: partition, one graph per shard, merge, layout; every base point right on disk unless a shard got no point |
| Blocks.RoundUpCovers | include/utils.h:42-44 | ROUND_UP is the least multiple at or above, DIV_ROUND_UP its quotient |
| Blocks.BlocksTile | src/partition.cpp:361-371 | the blocks tile the rows, every one nonempty, the last ending at the end |
| ClosestCenters.NormsExpansion | src/math_utils.cpp:87-97 | norms and products give the true squared distance |
| ClosestCenters.CalcDistance | src/math_utils.cpp:14-22 | the loop is the squared distance |
| ClosestCenters.DistanceRow | src/math_utils.cpp:87-97 | each row of the matrix holds true squared distances |
| ClosestCenters.ArgMin | src/math_utils.cpp:99-114 | the first minimum |
| ClosestCenters.TopK | src/math_utils.cpp:115-133 | k distinct smallest entries in order |
| ClosestCenters.ComputeClosestCenters | src/math_utils.cpp:63-203 | k truly nearest centers of every point, the lowest-numbered for k = 1; the inverted index lists for each center its points in order; refusal exactly for k above the number of centers |
| ClosestCenters.Invert | src/math_utils.cpp:186-199 | a block adds each of its points to the lists of its centers |
| Lloyd.DeviationShift | src/math_utils.cpp:261-282 | the parallel-axis identity per cluster and coordinate |
| Lloyd.CentroidMinimises | src/math_utils.cpp:261-282 | the centroid minimises its cluster's sum of squares over all points |
| Lloyd.AssignImproves | src/math_utils.cpp:256-257 | nearest centers cost no more than any assignment |
| Lloyd.IterationImproves | src/math_utils.cpp:242-303 | an iteration never raises the cost, whatever it starts from and even with zeroed empty clusters |
| Lloyd.SumOverMembers | src/math_utils.cpp:266-275 | summing over the inverted index is summing over the cluster |
| Lloyd.PointsAreMembers | src/math_utils.cpp:256-257 | for one center per point the inverted index is the cluster |
| Lloyd.NewCenter | src/math_utils.cpp:259-282 | the centroid, or zero for an empty cluster |
| Lloyd.Residual | src/math_utils.cpp:284-300 | the chunked residual is the cost |
| Lloyd.LloydsIter | src/math_utils.cpp:242-303 | nearest assignment, updated centers, exact residual, no more than any assignment to the old centers |
| Lloyd.RunLloyds | src/math_utils.cpp:312-354 | residuals never increase, the run stops exactly at the first stopping test met or at max_reps, the result is the last residual |
| Lloyd.DescentMeaning | src/math_utils.cpp:312-354 | the stopping rule in plain numbers: every residual but the last at least FLT_EPSILON with a relative gain of at least 0.00001 after the first |
| Partition.PointsOfSelected | src/partition.cpp:378-390 | a shard's list holds exactly the points that selected it |
| Partition.PointsOfIncreasing | src/partition.cpp:378-390 | selections without repeats give strictly increasing lists |
| Partition.IncreasingIff | src/partition.cpp:378-390 | all shard lists are strictly increasing exactly when no point selects a shard twice |
| Partition.SelectedAssigned | src/partition.cpp:375-390 | every point has k selections, without repeats exactly when k_base is at most the number of shards |
| Partition.SizesSum | src/partition.cpp:393-402 | shard sizes sum to k_base times the number of points |
| Partition.FeedsMerge | src/partition.cpp:327-402 | the id maps are strictly increasing and cover exactly all points, as the merge requires |
| Partition.EmitPoint | src/partition.cpp:380-389 | a point is appended to each of its shards once |
| Partition.SortIntoShards | src/partition.cpp:361-390 | across block boundaries every point goes to its k nearest shards, or k times to shard 0 when k exceeds their number |
| Partition.ShardDataIntoClustersOnlyIds | src/partition.cpp:327-408 | -1 exactly for another dimension; else complete id files with true counts, each point in its k nearest shards, lists increasing exactly when k is at most the number of shards |
| Partition.OneShardTwice | src/partition.cpp:327-408 | one shard, k_base 2: code 0, the point twice in the one list |
| Partition.ServeOne | src/partition.cpp:452-465 | one row of the pass: served exactly when it is the id wanted next |
| Partition.ShardServable | src/partition.cpp:410-474 | the id maps of the partition are ones the pass serves in full |
| Partition.RetrieveShardDataFromIds | src/partition.cpp:410-474 | writes the longest servable prefix in order; all of it exactly for increasing ids in range |
| CachedIO.CachedInput.Open | include/cached_io.h:31-53 | opens at position 0 with the cache filled |
| CachedIO.CachedInput.Read | include/cached_io.h:60-101 | the bytes at the logical position, or a rejection, exactly as a plain read |
| CachedIO.CachedInput.ReadAll | include/cached_io.h:60-101 | for any sizes, what sequential plain reads give, rejected reads included |
| CachedIO.OverwriteTwice | include/cached_io.h:168-190 | two writes in a row are one |
| CachedIO.CachedOutput.Write | include/cached_io.h:168-190 | the bytes land at the logical position, cached or written through |
| CachedIO.CachedOutput.FlushCache | include/cached_io.h:192-199 | flushing changes where bytes are, not what the file is |
| CachedIO.CachedOutput.Reset | include/cached_io.h:201-205 | the same contents, position 0 |
| CachedIO.CachedOutput.Close | include/cached_io.h:142-158 | everything is on disk |
| CachedIO.CachedOutput.WriteAll | include/cached_io.h:168-190 | any writes give their concatenation |
| CachedIO.WriteThenPatch | include/cached_io.h:142-205 | body then rewritten header is the header over the body's beginning; when the reported size is right |
| InnerProduct.DistanceOfPadded | include/utils.h:908-917 | the distance to a unit row falls linearly with the product |
| InnerProduct.OrderReversed | include/utils.h:838-922 | L2 order on the output is the reverse of inner-product order on the input |
| InnerProduct.NearestIsBestProduct | include/utils.h:838-922 | the k nearest output rows are exactly the k rows of largest inner product |
| InnerProduct.FirstPass | include/utils.h:883-899 | all norms and their maximum, block by block |
| InnerProduct.Lift | include/utils.h:910-916 | one row scaled and padded to unit norm |
| InnerProduct.SecondPass | include/utils.h:901-919 | all rows, block by block |
| InnerProduct.PrepareBase | include/utils.h:845-922 | the largest norm, and unit-norm output rows exactly when some row is nonzero |

## Left out

- Filtered indexes and labels: filtered search, per-label medoids, label files and the filtered insert path.
- Bulk `build` on a dynamic index: it sets `_nd` without taking slots; runs here start from an empty or a loaded index.
- Edges under concurrent consolidation: a prune snapshot may be committed after `process_delete`; only slot accounting is
  stated for interleaved consolidations, and `insert_point`'s filtering of a concurrently deleted neighbour is not modelled.
- `save` without compaction, `resize` on load and on a full index (off by default, `include/index.h:30`),
  `prune_all_neighbors`, bulk lazy delete. The data, tag and delete files of a save are sequences of rows, tags and ids;
  their headers, and the errors of `load` for files that do not fit each other, are left out.
- DynamicIndex.Index.Load: requires files that fit each other, as `SavedIndex.Save` writes them.
- MergeShards.MergeShards: no shards at all is left out; the code then writes a header without an entry point.
- The norm a distance divides by is not computed: preparing a row is any map that keeps its length and its zero coordinates.
- The error for a deleted start point: the start of a dynamic index is frozen and never has a tag.
- GraphFile.LoadGraph: malformed files are covered for a short read and for more records than nodes only; the code has no
  check for other corruption.
- GraphFile.SaveGraph: identifiers and degrees are numbers, taken to fit in 32 bits as their types promise; a file is a
  sequence of 32-bit words. `_max_range_of_graph` is not modelled.
- Floating point: reals throughout, no rounding, NaN, SIMD or BLAS; the largest-float start value of the single-center scan
  is not modelled. The slack factor 1.3 is taken as 13/10.
- Row-major buffers are sequences of rows, and the matrix products the dot products they stand for.
- ClosestCenters.ComputeClosestCenters: no points divides by zero in the code; the model returns the empty result.
- Parallel loops of the numeric code run in order; the inverted index then lists points in increasing order.
- DynamicIndex.Index.ConsolidateDeletes: requires a bitset covering every location; without one the code's read beyond the
  bitset has no defined result, and `IndexRuns.RunAll` says exactly when that happens.
- DynamicIndex.Index.ProcessSurvivors: the same requirement, for the same reason.
- Partition.ShardDataIntoClustersOnlyIds: `k_base` above zero with no shards at all writes outside the counts and is
  left out, and so is an empty base file.
- Random choices: k-means++ seeding, sampling and the RAM-budget loop are left out, and the shuffle of a merged list is any
  permutation. The choice of α per node is an arbitrary parameter of the pruning.
- Partition.RetrieveShardDataFromIds: the header patch of the written file is the returned count.
- Reader and writer objects of the pipeline's other files are plain; `CachedIO` shows that caching changes nothing.
- Reorder data and PQ in the disk layout, product quantisation, search counters, timers, logging, locks as objects,
  asynchronous I/O and the command-line tools.
