# A model of the overlap library

The library overlaps the tiles of a matrix multiplication with multi-GPU collectives.  This project
models the small protocols and index calculations that its correctness rests on, and proves what they
promise, for all inputs, all runs and all interleavings.

| part | modules | what is modelled |
|---|---|---|
| tile signalling | `TileSignal`, `TileSignalRuns`, `TileMonitor`, `Epilogue` | warp groups bump a tile counter, the last arrival finds the tile's segment and bumps the segment counter, the communication stream consumes each segment counter with a compare-and-swap |
| packed output | `PackedLayout`, `PackedOutput`, `Overlap` | where reordered tiles are stored, the round trip through `unpack`, and the element range handed to the collective of each segment |
| broker | `Barrier`, `BarrierProgress`, `BrokerCalls`, `ExchangeData`, `ExchangeDataProgress`, `BrokerVault`, `ExchangeFds`, `ExchangeFdsSteps`, `ExchangeFdsProgress`, `Broker`, `BrokerProgress` | the generation barrier, the all-gather through a shared vault, descriptor passing over mailboxes, and whole runs in which all four kinds of calls share one barrier |
| reduce-scatter overlap | `RowRemap`, `RowKernel`, `SliceShares`, `ScatterRows` | the row map, the kernel that moves rows by it, and the equal slices that the collectives hand to the ranks |
| search | `StableHint`, `SearchHint`, `SearchPartitions`, `SearchLatency`, `SearchSelect`, `StableSort`, `Pipeline` | from observed completion orders to a permutation, segment sizes and a predicted latency |
| configuration tool | `GenConfig` | the permutation and segments of a configuration run |
| collectives | `FastPath`, `FastAllGather`, `Shares`, `CollectiveUtils`, `WorkRanges` | fast-path decisions of all ranks, and the exact split of buffers |
| tuning | `LaunchConfigs`, `TuningPolicy`, `PolicyLoad`, `SelectionCache`, `SelectionRuns` | policy loading, the launch-config selection and its two-level cache |
| torch layer | `SlotPool`, `SlotPoolNode`, `Tensors`, `GatherLayout` | reused slots of one rank and of a whole node, and all-gather along any dimension |

`Arith`, `Sequences` and `Wrappers` hold shared facts.  Protocols are state machines whose run is any list of
atomic steps.  Where such a step is also written as code on memory - the epilogue's tail, the waiting kernel, the
barrier's critical section, the vault copies, the cached selection - it is proved to be the step, or the sequence
of steps, of the machine.  `Pipeline` joins the parts: what the search produces satisfies the assumptions of the
signalling protocol and of the row map.

## What the proofs found

- Overlap with a packed width above one tile: all collectives up to any one of them read only finished tiles
  exactly when each of their segments ends at a multiple of the width, or tiles are one row high, or no tile
  follows (`Overlap.OverlapSafety`).  A single collective is safe exactly when no row of a later tile lies in its
  slice (`Overlap.SliceSafety`), which can hold at an end that is not clean (`Overlap.SafeAtUncleanEnd`).  The
  launch code only checks that the width is positive; `Overlap.SideBySideRaces` is a launch that fails.  The tuner
  always uses width one, which is safe.
- `reorder_indices` yields a permutation if and only if its hint names no tile twice.  It accepts negative tile
  numbers, which `build_full_order_and_reorder_map` rejects.  Every hint that `compute_stable_hint_from_rounds`
  accepts is free of both.
- The reordered row ids of `generate_row_remap_array` are a permutation if and only if the tile height divides the
  row count M*N/BN; otherwise some entries are uninitialised memory.  The tuner cannot get there: its segments add
  up to the rounded-up tile count, so the routine reports a size mismatch unless the tiles fit the matrix.
- `gemm_scatter` hands every rank exactly the rows that are congruent to it, in order and summed over the ranks, if
  and only if the world size divides the rows of every segment (`ScatterRows.GemmScatter` with
  `SliceShares.SlicesAreRanksRows`); a world size that divides the tile height suffices.  The launch code does not check it.
- `fast_search` finds a segmentation if and only if an evaluated latency is below its start value 1e100; it
  always evaluates the single segment, so a GEMM time plus one collective below that value suffices, and the choice
  is never predicted slower (`SearchSelect.NeverWorseThanSerial`).  `SearchSelect.SearchCanFail` is a model in which
  it finds nothing.  The rescaling of the GEMM time by the new wave count cancels.
- The sort of the policy points leaves points of equal world size, collective and size in either order.  The answers
  are the same for every such order if and only if points that tie are answered alike
  (`PolicyLoad.OrderIgnoredIffTiesAgree`); `PolicyLoad.TiesCanDiffer` is a policy where they are not.
- Reduce-scatter ranks agree on the fast path for every element size that is not a multiple of 16 bytes.  The
  library's element sizes are 2 and 4, so this covers every call it can make; `FastPath.SixteenByteElementsDisagree`
  shows that the agreement rests on this hypothesis.  All-gather ranks agree for every element size.
- The broker's calls return, in any mix of the four kinds: each spurious wakeup costs at most a fixed number of fair
  rounds, and apart from that enough fair rounds return every rank from its k-th call (`BrokerProgress.FairRoundsReturn`).
- The comment of `compute_stable_hint_from_rounds` gives the effective group as a minimum over full windows; the
  code also caps it by the nominal group and falls back to the wave count when no window is full.  The model follows the code.
- A slot view is overwritten when the N-th later collective starts, even if that collective then fails.
- The 32-bit shard check of the all-gather fast path never decides: the CTA budget is far smaller.

## Model

| member | source | states |
|---|---|---|
| TileSignal.SegmentOfUnique | src/epilogue/reorder_epilogue.h:537-543 | the segment found for a tile is the only one whose prefix-sum range holds it, empty segments allowed |
| TileSignal.TilesOfSegment | src/epilogue/reorder_epilogue.h:534-545 | a segment receives exactly as many tiles as its size, under any permutation |
| TileSignal.RowArrive | src/epilogue/reorder_epilogue.h:534-536 | an arrival keeps: counter equals arrivals, and one warp group exactly sees the last |
| TileSignal.RowSignalled | src/epilogue/reorder_epilogue.h:534-545 | a tile becomes signalled only at the segment bump of its last arrival |
| TileSignal.WarpInv | src/epilogue/reorder_epilogue.h:515-588 | every atomic step of any warp group keeps the invariant linking tile counters, pending signallers and segment counters |
| TileSignal.PollInv | src/wait.cuh:5-9 | every turn of the waiting stream keeps the same invariant |
| TileSignal.ApplyInv | src/epilogue/reorder_epilogue.h:515-588 | every step of every agent keeps the invariant |
| TileSignalRuns.WaitIsSafe | src/wait.cuh:5-9 | in every interleaving, once the stream is past segment s, every warp group of every tile of s has arrived |
| TileSignalRuns.CounterBound | src/wait.cuh:5-9 | a segment counter never exceeds the segment size |
| TileSignalRuns.FullCounterStays | src/wait.cuh:5-9 | a counter that has reached the segment size stays there until its own wait consumes it |
| TileSignalRuns.Conservation | src/epilogue/reorder_epilogue.h:534-545 | in every reachable state, segment counters plus consumed tiles plus pending signallers are the completed tiles |
| TileSignalRuns.SomeStepEnabled | src/wait.cuh:5-9 | a run that is not finished can always take a step that changes something |
| TileSignalRuns.FairRunsFinish | src/wait.cuh:5-9 | liveness: enough fair rounds finish every warp group and every wait, so no wakeup is lost |
| TileSignalRuns.FinalTotals | tool/verify_signal_tile_counts.py:161-209 | in a finished run each tile counter is the expected arrivals, each tile signalled once, and unconsumed segment counters add up to the tile count |
| TileMonitor.MonitorStep | src/epilogue/reorder_epilogue.h:549-588 | the order counter counts the numbered tiles and all numbers taken are different, kept by every step |
| TileMonitor.MonitorOrderIsPermutation | src/epilogue/reorder_epilogue.h:549-588 | after every finished monitored run, monitor_order is a rearrangement of 0..tile_num-1 |
| Epilogue.ExpectedArrivals | src/epilogue/reorder_epilogue.h:525-532 | a positive arrival count is the answer, otherwise a positive warp-group count, otherwise one |
| Epilogue.UnsetShape | src/epilogue/reorder_epilogue.h:344-393 | without a tile shape or tile columns the problem shape is passed on unchanged |
| Epilogue.StoreIsWhereUnpackReads | src/epilogue/reorder_epilogue.h:376-393 | the coordinate that the epilogue passes on is the packed place from which `unpack` copies that tile back |
| Epilogue.StoredAddress | src/overlap_impl.cu:546-581 | the addresses of the overlap theorems are the places of the stored elements in the row-major packed matrix |
| Epilogue.ReorderSignalEpilogue.constructor | src/epilogue/reorder_epilogue.h:336-341 | a new epilogue object remembers no tile |
| Epilogue.ReorderSignalEpilogue.Store | src/epilogue/reorder_epilogue.h:344-393 | the remembered tile is the packed number of tile ctaM * columns + ctaN; its coordinates are that number split by the packed width, inside the least packed shape that holds all tiles |
| Epilogue.ReorderSignalEpilogue.AtomicAdd | src/epilogue/reorder_epilogue.h:534-545 | one cell of the shared array grows, the old value is returned |
| Epilogue.ReorderSignalEpilogue.FindSegment | src/epilogue/reorder_epilogue.h:537-543 | the segment walk stays inside the segment array and stops at the tile's only segment |
| Epilogue.ReorderSignalEpilogue.StoreTailStep | src/epilogue/reorder_epilogue.h:515-588 | each step is one step of the state machine; with no override a warp group signals exactly when its arrival makes the counter the warp-group count; which cell each step changes, in MM's layout |
| Epilogue.ReorderSignalEpilogue.TileNumIs | src/epilogue/reorder_epilogue.h:549-588 | the recomputed tile count is the number of logical tiles when the monitored columns just hold the problem |
| Epilogue.AtomicCas | src/wait.cuh:5-9 | compare-and-swap on one cell |
| Epilogue.CommStream.constructor | src/overlap_impl.cu:551-557 | a new stream has passed no wait |
| Epilogue.CommStream.WaitFlagTurn | src/wait.cuh:5-9 | one spin is one poll of the state machine: a full counter of the awaited segment is cleared and the wait passed, otherwise nothing changes |
| PackedLayout.CellsDisjoint | src/epilogue/reorder_epilogue.h:376-389 | different elements of different tiles have different packed cells |
| PackedLayout.CellInShape | src/epilogue/reorder_epilogue.h:371-377 | every packed cell lies inside the packed shape |
| PackedLayout.BoundaryExact | src/overlap_impl.cu:546-581 | the element range up to a segment end separates the tiles before it from the others if and only if the end is aligned |
| PackedLayout.MisalignedTail | src/overlap_impl.cu:546-581 | at a misaligned end the last row of the last tile lies beyond the range |
| PackedOutput.PackedApart | src/epilogue/reorder_epilogue.h:376-389 | distinct logical tiles occupy disjoint blocks of the packed matrix |
| PackedOutput.StoredMeans | tool/gen_config_sm90.py:315-319 | that a tile is stored means the same in blocks and in single elements |
| PackedOutput.StoreTile | src/epilogue/reorder_epilogue.h:376-393 | element by element, tile (r, c) is stored at row q / w and column q % w of the packed tiles with q = ra[r * columns + c]; every other stored tile is kept |
| PackedOutput.UnpackTile | tool/gen_config_sm90.py:315-319 | element by element, tile (r, c) is restored from that place; the other tiles are kept |
| PackedOutput.Unpack | tool/gen_config_sm90.py:311-320 | element by element, every tile (r, c) of the result is packed tile ra[r * columns + c], w tiles to a packed row |
| PackedOutput.PackThenUnpack | tool/gen_config_sm90.py:311-320 | for any permutation, width and store order, unpacking the packed output gives the original matrix |
| Overlap.AlignedIsSafe | src/overlap_impl.cu:546-581 | at a clean end, the slice given to the collective of the segment holds only finished tiles, in every interleaving |
| Overlap.StreamRunsAhead | src/overlap_impl.cu:551-581 | the stream can pass segment s while no later tile has started |
| Overlap.SliceSafety | src/overlap_impl.cu:546-581 | one collective reads only finished tiles in every run if and only if no row of a later tile lies in its slice |
| Overlap.OverlapSafety | src/overlap_impl.cu:546-581 | the first n collectives (all of them for n = the segment count) read only finished tiles in every run if and only if each of their ends is aligned or no tile follows |
| Overlap.SideBySideRaces | src/overlap_impl.cu:546-581 | two tiles of two rows side by side, one segment each: the first collective reads unfinished data in some run |
| Overlap.SafeAtUncleanEnd | src/overlap_impl.cu:546-581 | a launch in which one collective is safe although its segment ends inside a packed row, while an earlier one races |
| Overlap.SingleColumnIsSafe | src/overlap_impl.cu:546-581 | with packed width one every segment is safe and is one contiguous element range |
| Barrier.ApplyInv | src/system/broker.cpp:168-208 | every step of every rank, spurious wakeups included, keeps the barrier invariant |
| Barrier.CountedAll | src/system/broker.cpp:181-188 | the last arrival sees a full count only when every other rank is in |
| Barrier.Lockstep | src/system/broker.cpp:168-208 | completed counts of two ranks differ by at most one and the count stays below the world size |
| Barrier.BarrierSafety | src/system/broker.cpp:168-208 | for any number of reuses, whoever returned from its k-th sync, all ranks have entered their k-th |
| Barrier.NoDeadlock | src/system/broker.cpp:168-208 | in every reachable state some rank can move without a spurious wakeup |
| BarrierProgress.StepTotal | src/system/broker.cpp:168-208 | every effective step of a rank brings the whole barrier on; a spurious wakeup sets it back by at most two |
| BarrierProgress.FairRoundsReturn | src/system/broker.cpp:168-208 | liveness: enough fair rounds return every rank from its k-th sync, a spurious wakeup costing at most three rounds |
| BrokerCalls.PlaceOf | src/system/broker.cpp:582-843 | after the barriers of the calls before k, and `at` of its own, a rank stands in that phase of call k, whatever the kinds of the calls |
| BrokerCalls.BarriersOf | src/system/broker.cpp:582-843 | a sync is one barrier, an exchange of data three, a call that passes descriptors two |
| BrokerCalls.CallsDone | src/system/broker.cpp:582-843 | k calls are over exactly when the barriers of the first k calls are |
| BrokerCalls.LastDataMeans | src/system/broker.cpp:596-636 | the exchange whose answer a rank holds is the latest one among the calls that are over |
| BrokerCalls.LastFdsMeans | src/system/broker.cpp:647-843 | the same for the calls that pass descriptors |
| ExchangeData.NoStaleSlot | src/system/broker.cpp:621-634 | while a rank reads call k, every slot holds what its owner passed to call k |
| ExchangeData.ApplyInv | src/system/broker.cpp:596-636 | every byte copied and every barrier step of every rank keeps the invariant, between calls of any kind |
| BrokerVault.Vault.constructor | src/system/broker.cpp:31-42 | a fresh vault with zero count, generation and bytes |
| BrokerVault.Vault.Arrive | src/system/broker.cpp:168-199 | the critical section moves the vault fields as the barrier step does, and rejects a wrong world size unchanged |
| BrokerVault.Vault.Recheck | src/system/broker.cpp:193-200 | a woken rank sleeps again exactly while the generation is the one it saw |
| BrokerVault.Vault.CopyIn | src/system/broker.cpp:603-626 | the rank's own slot gets its bytes and nothing else changes, which is its write steps of the protocol; bad sizes are refused |
| BrokerVault.Vault.PackSlots | src/system/broker.cpp:630-635 | byte j of rank r's slot, byte r * 256 + j of the vault, is byte r * size + j of the answer |
| BrokerVault.Vault.CopyOut | src/system/broker.cpp:630-635 | for a rank that reads its current call, the answer is what its read steps of the protocol collect |
| BrokerVault.Vault.CopySlot | src/system/broker.cpp:631-634 | one slot is copied, the rest of the answer is kept |
| ExchangeFds.ClosedIsEmpty | src/system/broker.cpp:671-772 | a rank that is done with its call has an empty mailbox |
| ExchangeFds.HubActInv | src/system/broker.cpp:699-727 | every turn of rank 0's send loops keeps the mailbox invariant |
| ExchangeFds.SpokeActInv | src/system/broker.cpp:728-744 | sending and closing by any other rank keep it |
| ExchangeFds.BroadcastActInv | src/system/broker.cpp:797-817 | the broadcast's send loop keeps it |
| ExchangeFds.AcceptRefuses | src/system/broker.cpp:688-833 | a received message is an error exactly if its source is no other rank, or in a broadcast not the root, or if a broadcast carries no descriptor |
| ExchangeFds.RecvInv | src/system/broker.cpp:675-697 | receiving any message that has arrived keeps it, and never takes an error exit |
| ExchangeFdsSteps.ApplyInv | src/system/broker.cpp:647-843 | every step of every rank in any sequence of calls keeps the invariant of mailboxes and variables |
| ExchangeFdsSteps.TurnOver | src/system/broker.cpp:168-208 | the last rank into a barrier opens a call with everyone's variables fresh, or closes it with everyone done |
| ExchangeFdsSteps.BodyOrClosed | src/system/broker.cpp:647-843 | with everybody asleep or inside the call, every rank is inside it or done with it |
| Broker.SyncParts | src/system/broker.cpp:582-843 | a sync is one and the same barrier step for the vault protocol and for the mailbox protocol |
| Broker.ApplyInv | src/system/broker.cpp:582-843 | every step of every rank, in any mix of the four kinds of calls, keeps the invariants of both protocols |
| Broker.CallsAreBarriers | src/system/broker.cpp:582-594 | whoever has returned from call k, all ranks have entered its last barrier |
| Broker.ExchangeIsAllGather | src/system/broker.cpp:596-636 | after `exchange_data`, whatever calls come before and after it, every rank's dst is the concatenation of what the ranks passed to that call, in every interleaving |
| Broker.CallResult | src/system/broker.cpp:647-843 | after a call that passes descriptors, rank r holds source s's descriptor at dst[s] and -1 at dst[r], or the root's descriptor in a broadcast |
| Broker.RoundsNeverMix | src/system/broker.cpp:647-843 | no error exit is ever taken and no message survives into a later call of any kind |
| Broker.NoDeadlock | src/system/broker.cpp:582-843 | from every reachable state some rank can move without a spurious wakeup |
| BrokerProgress.StepTotal | src/system/broker.cpp:582-843 | every effective step of a rank brings the ranks' total on; a spurious wakeup takes away a bounded amount |
| BrokerProgress.FairRoundsReturn | src/system/broker.cpp:582-843 | liveness: enough rounds that give every rank its turns and offer every waiting message return every rank from its first k calls |
| StableHint.StableMask | tool/search.py:687-695 | the mask holds the tiles that land in the window in every sample of every round |
| StableHint.MeasureWindows | tool/search.py:665-721 | the stable tiles of every window and the effective group, over full windows or the fallback |
| StableHint.WindowIs | tool/search.py:680-695 | window w is the positions from w to w + 1 times the window size that exist, and it is full exactly if all of them do |
| StableHint.CollectHint | tool/search.py:737-744 | the hint is the windows' tiles in order, each once |
| StableHint.ComputeStableHintFromRounds | tool/search.py:639-754 | accepts exactly when the effective group reaches the minimum, and then returns that hint |
| StableHint.HintTiles | tool/search.py:737-744 | the hint has no duplicates and holds exactly the tiles that always land in one window |
| StableHint.HintInOrder | tool/search.py:737-744 | the hint's order is window by window, and by tile number inside a window |
| StableHint.FullWindowsAreStable | tool/search.py:705-707 | every full window has at least effective group times compute SMs stable tiles |
| StableHint.WindowsApart | tool/search.py:687-695 | with a sample, no tile always lands in two windows |
| StableHint.EarlyTilesFinishEarly | tool/search.py:654-659 | the first x groups of the hint finished in the first x windows, in every sample of every round |
| SearchHint.ReorderIndices | tool/search.py:318-330 | hint tiles, negative numbers counted from the end, get their last hint position, the others the positions after the hint; a number out of range is an error |
| SearchHint.ReorderIsPermutation | tool/search.py:318-330 | the result is a permutation if and only if the hint has no repeats |
| SearchHint.BuildFullOrderAndReorderMap | tool/search.py:333-352 | the order lists every tile once, hint first, and the map is its inverse |
| SearchHint.DedupInOrder | tool/search.py:333-352 | each hint tile is kept for the first place that names it, in the order of these places |
| SearchHint.InvertOrder | tool/search.py:348-350 | inverting an order |
| SearchHint.ReorderRoutinesAgree | tool/search.py:318-352 | both routines give the same permutation for a hint without repeats |
| SearchHint.FullOrderSize | tool/search.py:345-346 | hint plus tail is a permutation of the tiles |
| SearchPartitions.IntegerPartitions | tool/search.py:1260-1271 | the list holds every composition of n and nothing else, each once, in dictionary order, 2^(n-1) in all |
| SearchPartitions.ExpandPartition | tool/search.py:1274-1285 | the in-place loop scales all parts and cuts the last one |
| SearchPartitions.ExpansionCovers | tool/search.py:1274-1285 | expanding any composition of the normalized wave count gives positive sizes that add up to the tile count |
| SearchLatency.MakeModel | tool/search.py:1030-1032 | the time per wave is the measured time over the old waves: the rescaling cancels; the rest is passed on |
| SearchLatency.CompWaves | tool/search.py:1040 | a segment costs the time per wave for each wave of the least number that holds it, a partly filled one included |
| SearchLatency.WavesExist | tool/search.py:1040 | every segmentation has its least wave counts |
| SearchLatency.FreeCommunication | tool/search.py:1034-1048 | with free communication several segments take the time of all their waves |
| SearchLatency.RecurrenceIsCriticalPath | tool/search.py:1034-1048 | the recurrence is the longest path: compute up to j, then communicate from j on |
| SearchLatency.PredictLat | tool/search.py:1022-1048 | one segment adds up; several give the longest path through least wave counts and collectives of their elements |
| SearchLatency.PredictLatWithDebug | tool/search.py:1051-1117 | the same value in waves, with a trace whose turns follow each other and end at it |
| SearchSelect.Segments | tool/search.py:1526-1549 | every candidate gives positive segment sizes that add up to the tiles |
| SearchSelect.SegmentsAre | tool/search.py:1274-1285 | every part but the last stands for whole groups of waves, the last one for the tiles that are left |
| SearchSelect.UnitsHold | tool/search.py:1526 | the search units are the least number of groups of waves that hold the tiles |
| SearchSelect.SkippedExactly | tool/search.py:1541-1547 | skipped are exactly the candidates of six or more segments whose first part is three units or more |
| SearchSelect.StartValue | tool/search.py:1535 | the start value is 10 to the power of 100 |
| SearchSelect.SelectSegmentation | tool/search.py:1535-1575 | the earliest minimum over all evaluated candidates, found if and only if one is below the start value; how many are evaluated |
| SearchSelect.NeverWorseThanSerial | tool/search.py:1541-1570 | a segmentation is found whenever the GEMM time plus one collective of all tiles is below the start value, and the one found is never predicted slower than that |
| SearchSelect.SlowCollectives | tool/search.py:1535-1575 | where every collective takes at least the start value, no evaluated candidate is below it |
| SearchSelect.SearchCanFail | tool/search.py:1574-1575 | a concrete model in which nothing is found |
| SearchSelect.AllOnes | tool/search.py:1541-1547 | the finest candidate is never skipped |
| StableSort.StableSortUnique | tool/search.py:308-309 | a stable sort has one result |
| RowRemap.ScatterPositions | tool/search.py:313-315 | every row named by an entry gets the position of an entry naming it, for any scatter order; an index error exactly when an entry is out of range |
| RowRemap.GenerateRowRemapArray | tool/search.py:296-315 | a size mismatch is an error; otherwise the scatter of the reordered rows, which is their inverse whenever they are a permutation |
| RowRemap.TileCountsAgree | tool/search.py:297-299 | the rounded-up tile count equals the routine's own count if and only if the tiles fit the matrix, and the tile height then divides the row count |
| RowRemap.ChunksCoverRows | tool/search.py:296-311 | the chunks stay inside the rows and cover them if and only if the tile height divides their number |
| RowRemap.PermutationIffWholeTiles | tool/search.py:296-315 | the reordered rows are a permutation for any memory contents if and only if the tile height divides the row count |
| RowRemap.RankSlice | tool/search.py:304-311 | when the world size divides a segment, slice k at place j is the j-th row congruent to k |
| RowRemap.RowsOfRank | tool/search.py:304-311 | those rows are all the segment's rows of that residue |
| RowRemap.RemapGathersRanks | tool/search.py:313-315 | the map sends each row of a rank to its place in that rank's slice |
| RowRemap.RemapStaysInSegment | tool/search.py:304-315 | the map never moves a row out of its segment |
| RowKernel.ScatterThread | src/gemm/scatter_row_remap_sm90.cuh:42-60 | a thread writes the element that the map gives it, or nothing when its row would leave the segment |
| RowKernel.ScatterRowRemap | src/gemm/scatter_row_remap_sm90.cuh:62-82 | the kernel is its threads one after the other, in any order |
| RowKernel.ThreadsWrite | src/gemm/scatter_row_remap_sm90.cuh:48-59 | the last thread that writes an element decides it |
| RowKernel.TargetsApart | src/gemm/scatter_row_remap_sm90.cuh:48-59 | under a permutation no two threads write the same element |
| SliceShares.AlignedRow | tool/search.py:304-311 | the j-th row of rank k in a segment that starts at base times world is row (base + j) times world plus k |
| SliceShares.SliceNumbers | src/overlap_impl.cu:672-700 | element f of slice k of a segment: its place among the sorted rows and the element of the output that belongs there |
| SliceShares.SlicesAreRanksRows | src/overlap_impl.cu:692-700 | slices of equal element counts consist of exactly the ranks' rows if and only if the world size divides the segment's rows |
| SliceShares.GeneratedMapIsGood | tool/search.py:296-315 | a generated map serves a launch whose world size divides the tile height |
| ScatterRows.SortedSum | src/overlap_impl.cu:681-700 | after the kernels, a place of a segment adds up the ranks' elements of the row that was sorted there |
| ScatterRows.ReduceScatter | src/overlap_impl.cu:692-700 | one rank receives its slice summed over the ranks, the rest of its result is kept |
| ScatterRows.SlicesFit | src/overlap_impl.cu:692-700 | all slices lie inside the buffers, also where the division is not exact |
| ScatterRows.DeliveredStep | src/overlap_impl.cu:672-702 | the collective of a segment extends what a rank has received by the right rows |
| ScatterRows.CollectSegments | src/overlap_impl.cu:670-702 | after the segment loop every rank holds the sums of exactly its rows, in order |
| ScatterRows.GemmScatter | src/overlap_impl.cu:614-702 | an error exactly when the matrix is not made of whole tiles; otherwise, on one rank or many, the same delivery |
| ScatterRows.RankRows | src/overlap_impl.cu:672-702 | row r of rank k's result is row r times world plus k of the output, summed over the ranks |
| GenConfig.MakeRa | tool/gen_config_sm90.py:286-297 | identity or column-major order, both permutations; an unknown order is an error |
| GenConfig.MakeSegments | tool/gen_config_sm90.py:300-308 | whole groups and one positive rest adding up to the tiles; one segment for a non-positive group |
| GenConfig.GroupingStarts | tool/gen_config_sm90.py:300-308 | segment s starts at s groups |
| GenConfig.GroupingCount | tool/gen_config_sm90.py:300-308 | the number of segments is the rounded-up quotient |
| Pipeline.HintIsGood | tool/search.py:737-754 | the accepted hint lists valid tiles without repeats |
| Pipeline.TunedOverlapIsSafe | tool/search.py:1160-1161 | any candidate with any good hint meets the protocol's assumptions and its overlap is race-free |
| Pipeline.SegmentBoundary | tool/search.py:1274-1285 | every segment but the last ends on a whole number of groups |
| Pipeline.SegmentsFollowObservedOrder | tool/search.py:654-659 | the tiles before a boundary of x groups were observed in the first x windows, in every sample |
| Pipeline.Tune | tool/search.py:1503-1575 | hint, permutation and earliest cheapest segmentation; a plan exists exactly when the hint is accepted and some latency is below the start value |
| Pipeline.PlanIsSafe | tool/search.py:1150-1161 | every plan is a valid configuration whose collectives read only finished tiles |
| Pipeline.RemapRows | tool/search.py:296-315 | for segments that add up to the rounded-up tile count the row map is an error exactly when the tiles do not fit, and otherwise a permutation for any memory contents |
| FastPath.FindPeer | src/comm/fast_multi_gpu_reduce_scatter_sm90.h:106-114 | the first peer entry of a rank, or none |
| FastPath.ShardChecks | src/comm/fast_multi_gpu_reduce_scatter_sm90.h:70-96 | the range and overflow checks never fail; the shard must be non-empty and 16-byte aligned |
| FastPath.FastReduceScatterEligible | src/comm/fast_multi_gpu_reduce_scatter_sm90.h:36-147 | the loop with early returns decides the eligibility predicate |
| FastPath.RankInRange | src/comm/fast_multi_gpu_reduce_scatter_sm90.h:36-147 | an eligible rank is below the world size although the code does not test it |
| FastPath.EligibleIsEven | src/comm/fast_multi_gpu_reduce_scatter_sm90.h:59-147 | eligibility implies that the world size divides the count and the CTA total is one equal term per other rank |
| FastPath.RsDecision | src/comm/fast_multi_gpu_reduce_scatter_sm90.h:36-147 | with consistent launch states the decision equals a verdict that does not mention the rank |
| FastPath.ReduceScatterIsPlain | src/comm/fast_multi_gpu_reduce_scatter_sm90.h:36-147 | in plain terms: two to five peer-to-peer ranks in place, equal shards of whole 16-byte units on aligned pointers, six tasks of 64 KiB at most for all other ranks together |
| FastPath.ReduceScatterAgrees | src/comm/fast_multi_gpu_reduce_scatter_sm90.h:36-147 | all ranks take the fast path or none does |
| FastPath.SixteenByteElementsDisagree | src/comm/fast_multi_gpu_reduce_scatter_sm90.h:128-147 | the element-size hypothesis of the agreement is needed: with 16-byte elements, which the library does not have, two ranks would decide differently |
| FastAllGather.CollectPointers | src/comm/fast_multi_gpu_all_gather_sm90.h:54-79 | the rank table holds exactly the peers' pointers; repeats and missing pointers are refused |
| FastAllGather.FastAllGatherEligible | src/comm/fast_multi_gpu_all_gather_sm90.h:33-147 | the two loops decide the eligibility predicate |
| FastAllGather.FewCtasAreSmall | src/comm/fast_multi_gpu_all_gather_sm90.h:119-142 | the CTA budget implies the 32-bit size check |
| FastAllGather.AllGatherIsPlain | src/comm/fast_multi_gpu_all_gather_sm90.h:33-147 | in plain terms: the same guards, distinct complete peers with aligned pointers, and every shard non-empty, of whole 16-byte units and at most three tasks of 64 KiB |
| FastAllGather.AllGatherAgrees | src/comm/fast_multi_gpu_all_gather_sm90.h:33-147 | all ranks take the fast path or none does, for every element size |
| CollectiveUtils.RankPartition | src/comm/utils/collective_utils.h:34-61 | a valid rank gets its balanced share inside the count, another rank an error and zeros |
| Shares.ShareOf | src/comm/utils/collective_utils.h:34-61 | exact cover: every item is in exactly one share |
| Shares.ShareEnd | src/comm/utils/collective_utils.h:52-58 | a share ends where the next one begins |
| Shares.ShareEnds | src/comm/utils/collective_utils.h:34-61 | the shares begin at 0 and end at the total |
| Shares.ShareFits | src/comm/utils/collective_utils.h:52-58 | shares stay inside the total and differ by at most one |
| Shares.SharesShrink | src/comm/utils/collective_utils.h:52-58 | the first shares are the larger ones |
| WorkRanges.OwnerMatchesRange | src/comm/utils/utils.h:81-111 | the owner lookup and the rank ranges agree on every window |
| WorkRanges.OwnerIs | src/comm/utils/utils.h:76-89 | rank 0 owns the first half of the windows, with the middle one of an odd number |
| WorkRanges.NothingOutside | src/comm/utils/utils.h:81-202 | invalid rank, CTA and window numbers get the empty range or window at position 0 |
| WorkRanges.RanksBalanced | src/comm/utils/utils.h:76-122 | the two ranks share the windows, rank 0 getting the odd one |
| WorkRanges.CtaOf | src/comm/utils/utils.h:134-158 | every window of a range belongs to exactly one CTA |
| WorkRanges.CtaCountForWindows | src/comm/utils/utils.h:124-132 | one CTA per window or the cap, whichever is less; none without windows or with a cap that allows none |
| WorkRanges.CtasBalanced | src/comm/utils/utils.h:124-158 | the launched CTAs, as many as windows or as the cap allows, all get work, within one window of the others |
| WorkRanges.CtasInOrder | src/comm/utils/utils.h:134-158 | the CTAs' ranges follow each other through the whole range, the larger ones first |
| WorkRanges.RunsInside | src/comm/utils/utils.h:81-158 | only existing windows are run, by their owner, on a CTA below the cap |
| WorkRanges.WindowRunsOnce | src/comm/utils/utils.h:81-158 | every window is run by exactly one CTA of exactly one rank |
| WorkRanges.WindowIs | src/comm/utils/utils.h:160-201 | a window's chunks are those whose index divides to its own, and its owner is that window's |
| WorkRanges.WindowCountIs | src/comm/utils/utils.h:57-61 | the least number of windows that hold the chunks |
| WorkRanges.WindowBytes | src/comm/utils/utils.h:160-219 | a window holds exactly the bytes whose offset divides to its index |
| WorkRanges.ByteRunsOnce | src/comm/utils/utils.h:57-219 | every byte of the buffer is moved exactly once |
| TuningPolicy.ValidCandidateMeans | src/comm/tuning/tuning_policy.cpp:326-355 | a measured pair is kept with 1 to 32 CTAs, of which one reduce task may use no more than there are |
| LaunchConfigs.ValidMeans | src/comm/launch_config.h:143-232 | a configuration is valid exactly with whole warps up to 1024 threads, 1 to 32 CTAs in all and on one task, window chunks of whole 16-byte units, stages in pairs, and two CTAs for the overlapped all-reduce |
| TuningPolicy.SelectNearestPolicyPoint | src/comm/tuning/tuning_policy.cpp:590-632 | of the points of the collective and world size, the earliest one whose ratio to the request is least, ties to the smaller size; the ratios are compared in whole numbers |
| TuningPolicy.NearestByRatio | src/comm/tuning/tuning_policy.cpp:624-631 | the reference definition is that point: Max(b, q) * Min(a, q) <= Max(a, q) * Min(b, q) for the chosen size b and any other size a, and b <= a on equality |
| TuningPolicy.ApplyRuntimeCaps | src/comm/tuning/tuning_policy.cpp:536-566 | the largest CTA counts that the configuration and the caps allow, nothing else changed; what fits is kept and what is valid stays valid |
| TuningPolicy.CappedIsMeant | src/comm/tuning/tuning_policy.cpp:536-566 | that description has exactly one solution |
| TuningPolicy.ConfigFromPolicyPoint | src/comm/tuning/tuning_policy.cpp:653-698 | the first ranked pair that fits, or the best-ranked one, under the caps |
| TuningPolicy.FallbackConfig | src/comm/tuning/tuning_policy.cpp:568-588 | always valid and for its collective; the default with the largest CTA counts that the caps allow |
| TuningPolicy.SelectUncached | src/comm/tuning/tuning_policy.cpp:803-837 | the selection without a cache |
| TuningPolicy.SelectionIsValid | src/comm/launch_config.h:143-232 | the selection is always a valid configuration for its collective within both caps: 32 threads, 1 window chunk, chunks of 8192 bytes, 16 stages, between 1 and 32 CTAs |
| TuningPolicy.SelectionUsesMeasuredPair | src/comm/tuning/tuning_policy.cpp:653-698 | at the nearest point, the best-ranked measured pair that exceeds neither cap is used as measured |
| TuningPolicy.SelectionClampsBestPair | src/comm/tuning/tuning_policy.cpp:676-698 | when every pair exceeds a cap, the best-ranked one is clamped |
| TuningPolicy.SelectionWithoutPoint | src/comm/tuning/tuning_policy.cpp:568-588 | without a matching point, or for an empty request: 32 CTAs, 8 on one reduce task, or what the caps allow |
| SelectionCache.KeyIsFaithful | src/comm/tuning/tuning_policy.cpp:700-723 | the key determines the selection, and different requests have different keys |
| SelectionCache.Selector.constructor | src/comm/tuning/tuning_policy.cpp:122-130 | a new cache is empty |
| PolicyLoad.LoadPolicy | src/comm/tuning/tuning_policy.cpp:486-515 | the environment's points, or else the default file's, in order of world size, collective and bytes |
| PolicyLoad.OrderedMeans | src/comm/tuning/tuning_policy.cpp:504-515 | the order is by world size, then all-reduce before reduce-scatter before all-gather, then by size |
| PolicyLoad.NearestSizeIgnoresOrder | src/comm/tuning/tuning_policy.cpp:504-515 | the measured size that is selected does not depend on the order of the points |
| PolicyLoad.OrderIgnoredIffTiesAgree | src/comm/tuning/tuning_policy.cpp:504-515 | under given caps, every request is answered alike for every order that the sort can leave if and only if points with equal keys are answered alike |
| PolicyLoad.DistinctKeys | src/comm/tuning/tuning_policy.cpp:504-515 | without two points of equal key the whole selection ignores the order |
| PolicyLoad.TiesCanDiffer | src/comm/tuning/tuning_policy.cpp:504-515 | a concrete policy whose answer depends on the order of its ties |
| SelectionCache.Selector.EnsurePolicyLoaded | src/comm/tuning/tuning_policy.cpp:478-515 | the policy is loaded at the first call only |
| SelectionCache.Selector.SelectLaunchConfigForCollective | src/comm/tuning/tuning_policy.cpp:762-844 | the answer is the uncached selection at either cache level, and only the request's entries change |
| SelectionRuns.ApplyInv | src/comm/tuning/tuning_policy.cpp:725-844 | every step of every thread keeps all cached and pending values correct |
| SelectionRuns.CacheIsTransparent | src/comm/tuning/tuning_policy.cpp:725-844 | in every interleaving every returned and cached value is the uncached selection's |
| SelectionRuns.ReturnedIsValid | src/comm/tuning/tuning_policy.cpp:762-844 | every returned configuration is valid and within the caps |
| SelectionRuns.CallProgresses | src/comm/tuning/tuning_policy.cpp:762-844 | each own step brings a call nearer to its return |
| SelectionRuns.AloneIsSelector | src/comm/tuning/tuning_policy.cpp:762-844 | six steps of one thread alone leave the state that the selector's code leaves |
| SlotPool.RoundRobinPool.constructor | src/torch_collectives_pybind.cpp:408-478 | a fresh pool of distinct slots at index 0 |
| SlotPool.RoundRobinPool.Acquire | src/torch_collectives_pybind.cpp:480-489 | the view of the slot whose turn it is, or an error when it does not fit |
| SlotPool.RoundRobinPool.CopyInto | src/torch_collectives_pybind.cpp:515-521 | a view is overwritten, everything else kept |
| SlotPool.RoundRobinPool.Finish | src/torch_collectives_pybind.cpp:506-507 | only a success moves the pool on to the following slot |
| SlotPool.RoundRobinPool.AllReducePreloadedSlot | src/torch_collectives_pybind.cpp:491-513 | the slot gets the elementwise sum of what the ranks' slots of this turn hold |
| SlotPool.RoundRobinPool.AllGatherPreloadedSlot | src/torch_collectives_pybind.cpp:625-662 | the slot gets every rank's own block of its slot of this turn; an output that does not fit is an error |
| SlotPool.RoundRobinPool.AllReduceRoundRobin | src/torch_collectives_pybind.cpp:480-521 | call k copies its input into slot k mod N and reduces what is then in the ranks' slots |
| SlotPool.RoundRobinPool.AllGatherRoundRobin | src/torch_collectives_pybind.cpp:605-670 | call k copies its shard to rank times size of slot k mod N and gathers what is then in the ranks' slots; the cases that do not fit |
| SlotPool.RanksStayInStep | src/torch_collectives_pybind.cpp:506-507 | ranks that see the same calls succeed use the same slot next |
| SlotPool.ViewUntouched | src/torch_collectives_pybind.cpp:509-512 | a view keeps its contents until the N-th later collective starts |
| SlotPool.ViewReused | src/torch_collectives_pybind.cpp:509-512 | the N-th later collective does overwrite it |
| SlotPool.OtherBlocksKept | src/torch_collectives_pybind.cpp:605-623 | the ranks' blocks are disjoint: one rank's copy leaves every other block alone |
| SlotPool.ShardsFill | src/torch_collectives_pybind.cpp:632-642 | the output of world times size elements holds shard r at r times size, and the shards fill it |
| SlotPoolNode.GatherDelivers | src/torch_collectives_pybind.cpp:605-662 | with every shard at its rank's block, the library gathers exactly the inputs in rank order |
| SlotPoolNode.ReduceDelivers | src/torch_collectives_pybind.cpp:480-505 | with every input at the head of its slot, the library sums exactly the inputs |
| SlotPool.ColumnSumAdds | src/torch_collectives_pybind.cpp:491-513 | an element of the sum is zero without ranks and grows by the element of each rank |
| SlotPoolNode.StageAll | src/torch_collectives_pybind.cpp:664-668 | every rank's tensor stands at its place in its own slot of this turn |
| SlotPoolNode.RunOnNode | src/torch_collectives_pybind.cpp:480-670 | after all ranks' copies and the library call, every rank's view reads the concatenation, or the sum, of all inputs, and all pools move on together |
| Tensors.UnravelRavel | patches/vllm/v0.25.0/vllm/distributed/device_communicators/ooverlap_all_reduce.py:687-696 | row-major positions and multi-indices correspond |
| Tensors.RavelOrder | patches/vllm/v0.25.0/vllm/distributed/device_communicators/ooverlap_all_reduce.py:687-696 | the order is row-major: the first differing index decides |
| Tensors.MoveDim0Moves | patches/vllm/v0.25.0/vllm/distributed/device_communicators/ooverlap_all_reduce.py:689-690 | every element of the moved tensor is the element at the index with the first dimension put back |
| GatherLayout.GatherIsConcatenation | patches/vllm/v0.25.0/vllm/distributed/device_communicators/ooverlap_all_reduce.py:635-696 | for every shape, rank count and dimension, counted from either end, the result is the concatenation, its shape the input's with that dimension multiplied; other dimensions and empty tensors are refused |
| GatherLayout.GatherRefuses | patches/vllm/v0.25.0/vllm/distributed/device_communicators/ooverlap_all_reduce.py:643-670 | which of the three errors a refused call gets |

## Left out

- The deep cooperative signal path of the epilogue lives in a patched CUTLASS that is not part of this model; atomics are single steps and stores are visible at the arrival.
- The counters, the barrier generation and the sizes in `WorkRanges` are unbounded; machine wrap-around is modelled only where the eligibility checks test for it.
- `WaitIsSafe` and the overlap theorems take the reset values of MM (zeros) and one waiter per segment in segment order, as the launch code does; the single-rank early return and the debug arrival counter are not modelled.
- The broker's system calls, error exits after a failed system call, closing of descriptors and shared-memory set-up are not modelled; a mailbox is reliable and unordered, and the initialisation wait is taken as passed.
- The descriptor exchange and the concurrent runs are state machines on values, since their steps interleave; `BrokerVault` and `Epilogue` give the shared-memory steps in place.
- `ScatterRows` adds exact integers and takes each collective at one moment, when every rank has moved its rows; that the rows are finished by then is `Overlap`'s part.
- Latencies are reals and size ratios exact rationals; rounding, and the interpolation of measured bandwidths, are not modelled (communication time is any function of the element count).
- Console output, sample collection, process spawning and file formats of the search, and the pybind argument checks, are not modelled.
- The parsers of the policy file and of the environment are represented by what they let through (`ParsedPolicy`, `ParsedCaps`); a file that does not load gives no points.
- The limit kOoMaxLocalDevices is not part of this model; the rank table size is any value that covers the fan-out limit.
- A library collective acts at one moment, when every rank has copied its tensor, on the slots of that turn; its transfers and its waiting are not modelled, sums are exact integers, and a failing call leaves anything in its slot.
- Tensor properties other than shape and contents (device, dtype, contiguity, capacity of the gather slots) are not part of `GatherLayout`; capacity is checked in `SlotPool`.
- Transfer planners, lowering, executor kernels, topology discovery and model code are not modelled.
