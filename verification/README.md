# Scarab core verification

Scarab simulates an out-of-order processor cycle by cycle. This project models the speculative core of the
simulator in Dafny and proves what its modules rely on but never state in one place: that the pipeline
stages always partition the sequential op list, that the dependence maps always agree with a scan of the
ops in flight, that wake-ups are neither lost nor premature, and so on. To verify everything, run
`dafny verify dfyconfig.toml`.

Each part has the same two layers. The code's own objects are classes whose methods carry the loops of the
source; each method is proved against a function of the old state. The functions are the steps of a state
machine, and lemmas about runs of that machine state the properties.

* **Pipeline** (`Ops`, `OpPool`, `Stages`, `Pipeline`, `PipelineSteps`, `PipelineRuns`, `RetirementRuns`,
  `StepEffects`, `Core`): ops are allocated from a pool, numbered at fetch, moved through the icache, decode and
  map stages and the node table, retired from the head, and cut off by recoveries that flush the four places
  independently. One global invariant is kept by every step, in any order of the steps.
* **Dependence maps** (`ByteTraversal`, `StoreMap`, `DependenceMaps`, `RegisterMap`, `MapRuns`): the
  two-half register map and the byte-wise store hash with their off-path flags, the recovery by clearing the
  flags and replaying the surviving off-path ops, and the store dependences of loads. The reference is a
  scan in program order for the youngest writer.
* **Wake-up lists** (`WakeUp`, `WakeUpSteps`, `WakeUpRuns`, `WakeUpSignals`, `WakeUpPool`,
  `WakeUpLists`): waiters named by slot and unique number, kept in linked entries of a shared pool, while slots
  are recycled.
* **Dataflow** (`Dataflow`, `DataflowRuns`): pipeline, maps and wake-up lists in one machine. The sources an
  op waits for are the ones the maps give it at fetch, and readiness is compared with a scan of the older ops
  in program order.
* **Scheduling** (`Stations`, `StationRuns`, `StationLimits`, `StationSlots`, `StationBacklog`,
  `StationCycles`, `StationCode`, `Scheduler`, `ExecStage`, `SchedulingCycle`, `StationTiming`, `ResultTypes`):
  reservation stations, the ready list, oldest-first selection, the two-phase exec stage, one whole cycle
  through all of them, the cycle an op is due, and the configurations for which the bookkeeping of the
  stations holds.
* **Clocks** (`Freq`): frequency domains under one event clock, the closed form of their counters, and the
  conversion of future cycles between domains.
* **Branch prediction state** (`CallReturnStack`, `BranchHistory`): the shadowed call-return stack and the
  checkpointed global history.
* **Memory interface** (`Ramulator`, `AddrTrans`): coalesced DRAM reads, and the page scrambling of virtual
  addresses bit by bit.

Several things came out that the source does not say.

* A fill of the stations leaves `next_op_into_rs` on the right op if and only if `RS_FILL_WIDTH` is zero or
  larger than the number of ops the stations have room for (`Stations.FillStopsWhere`). Otherwise the pointer
  stays on the op filled last, which has left the issued state, and the next fill that finds a station for
  that op fails its assertion (`StationLimits.FillAssertsIff`). With the steps in any order this happens in
  some run if and only if the width is neither zero nor above the smaller of `NODE_TABLE_SIZE` and the number
  of slots (`StationLimits.FillsWellIffRoomy`). With the steps in the order of the code, at most `ISSUE_WIDTH`
  ops being issued in a cycle, a width is safe for all stations if and only if it is zero, larger than
  `NODE_TABLE_SIZE`, or equal to it and larger than `ISSUE_WIDTH` (`StationCycles.SafeWidthIff`). One op issued
  in a cycle is enough to break any width from two up to below `NODE_TABLE_SIZE`
  (`StationBacklog.BacklogBreaksPointer`).
* `flush_window` looks for slot holders in three states only. Its slot counts are right if and only if every
  flushed op that holds a slot is in one of them (`StationRuns.FlushCountsExact`). Over every run a count is
  the number of slot holders plus the slots forgotten by recoveries (`StationRuns.SlotsAccounted`). It is exact
  in all runs of a configuration if and only if `STALL_ON_WAIT_MEM` is on, or the node table has room for one
  op only, or no station has a slot, or the fill width is one (`StationSlots.SlotsKeptIff`). In all other
  configurations a tentatively latched memory op that is flushed by the recovery of an older branch takes its
  slot with it for good (`StationSlots.SlotLost`).
* The header of `freq_convert_future_cycle` promises the earliest destination cycle at or after the start
  of the source cycle. The code never answers with a cycle that started in the past; the two agree if and
  only if no destination cycle starts between that moment and the present (`Freq.EarliestIffNoneMissed`;
  `Freq.EarliestMissed` is a case where they do not). `freq_future_time` is late by the phase of the domain
  and exact only when the domain is ready (`Freq.FutureTimeError`).
* A branch predicted in the wrong direction whose predicted address is right all the same is never recovered,
  and its wrong bit stays in the global history (`BranchHistory.WrongDirectionStays`). Once the recoveries due
  have been carried out, the history is the true one if and only if there is no such branch among the 32
  newest conditional ones (`BranchHistory.HistoryTrueIffNoneLucky`).
* The wrap-around masks of the call-return stack work on every position if and only if the size is a power
  of two (`CallReturnStack.MaskNeedsPowerOfTwo`), and the eight-bit counter of its recovery loop reaches the
  size if and only if that is at most 255 (`CallReturnStack.CounterReachesSize`). So the stack is modelled for
  powers of two up to 128.
* The page scrambling promises that no two pages share a frame. Its own assertion holds for every address and
  hash if and only if at least 29 address bits are kept (`AddrTrans.PageAssertionHolds`). From there on the
  promise holds for every hash if and only if the mode is not random or at least 35 bits are kept
  (`AddrTrans.InjectiveIffEnoughKept`): below 35 the scrambled bits run into the saved ones, but in the other
  modes what stays readable still tells the pages apart.
* When the exec stage takes an op that is no memory op, or a store for the first time, it signals every dependence
  type the op is waited for with, if and only if that is not a register written by a store
  (`ResultTypes.SignalsWhatIsWaitedFor`): of a store it signals address and data, but never REG_DATA.
* There is one saved call-return stack, as of the last op on the path. A recovery at an off-path branch goes
  back to it as well and so restores the stack at the branch if and only if the two are the same
  (`CallReturnStack.RecoveryAtOffPathBranch`).

Assumptions shared by all parts: one core and one thread; an op is flushed exactly when its number exceeds
that of the recovering op; counters are unbounded natural numbers except where a width is part of the
result; `USE_LATE_BP` is off, `MEM_OBEY_STORE_DEP` and `OBEY_REG_DEP` are on; an op has no more sources than its
not-ready vector has bits; an op signals every dependence type its waiters wait for before it retires. The
front end, the caches, the memory system and the DRAM timing are nondeterministic choices.

## Model

| member | source | states |
|---|---|---|
| Ops.KeptIsPrefix | scarab/src/node_stage.c:225-265 | flushing by op number cuts consecutively numbered ops: what stays is a prefix, what goes is exactly the rest |
| OpPool.AllocTakesFreshSlot | scarab/src/op_pool.c:113-133 | an allocation hands out a slot nobody holds, grows an exhausted pool first, and changes no other slot; free plus active stays the pool size |
| OpPool.FreeReturnsSlot | scarab/src/op_pool.c:138-169 | a freed slot, and only it, stops being in use, with the free list and the counters still matching |
| OpPool.FreeAllConserves | scarab/src/op_pool.c:138-169 | freeing a batch of distinct ops in use removes exactly their slots, each once, and lowers the active count by their number |
| OpPool.OpPoolList.ExpandPool | scarab/src/op_pool.c:260-279 | the threaded block of new entries in front of the old free list is the pool grown by one block |
| OpPool.OpPoolList.AllocOp | scarab/src/op_pool.c:113-133 | on the linked free list: the slot returned was at its head, or is the first of a new block when it was empty, and becomes the only one more in use |
| OpPool.OpPoolList.FreeOp | scarab/src/op_pool.c:138-169 | on the linked free list: the slot goes to its head, no longer in use, and no other slot changes |
| Stages.ShiftKeepsOrder | scarab/src/decode_stage.c:157-197 | advancing by array swaps loses, duplicates and reorders no op, whichever stages were empty |
| Stages.ShiftMovesUp | scarab/src/decode_stage.c:157-197 | the stages move up by one into the first empty place, which goes to the back, and not at all if none is empty |
| Stages.StagePipe.Advance | scarab/src/map_stage.c:162-209 | the swapping loop over the stage array, source stage included: the stages behind the first empty one move up by one, in order, and nothing else changes |
| Stages.StagePipe.RecoverInPlace | scarab/src/decode_stage.c:120-137 | recovery nulls exactly the younger ops of every stage and hands them to free_op in stage order |
| Stages.StagePipe.RecoverCollapsing | scarab/src/map_stage.c:121-142 | recovery of the map stages slides the survivors to the front in order and frees exactly the others |
| Stages.FlushInPlace | scarab/src/icache_stage.c:187-206 | one stage: survivors stay where they are, the count is their number, the flushed ops are given back in order |
| Stages.KeepStaysCompact | scarab/src/icache_stage.c:187-206 | flushing in place leaves no hole, because ops in program order are flushed from the back |
| Pipeline.ClipIsKept | scarab/src/thread.c:130-155 | clipping the sequential list at the recovering op keeps exactly the ops a flush by number keeps |
| PipelineSteps.OnPathMispredictWins | scarab/src/bp/bp.c:122-167 | a mispredict found on the correct path is at least as old as any pending recovery, so it is the one that will be carried out |
| PipelineSteps.RetireAssertionsHold | scarab/src/node_stage.c:716-853 | the head of the node table is the head of the sequential list, has number ret_op, is allocated and has its recovery behind it |
| PipelineSteps.RecoverKeepsInv | scarab/src/cmp_model.c:309-349 | a recovery, done place by place, keeps the global invariant, and every op it frees is allocated at that time |
| PipelineSteps.FlushOrderInUse | scarab/src/cmp_model.c:337-348 | the ops freed by the four flushes are the clipped part of the sequential list, each of them once |
| PipelineRuns.StepKeepsInv | scarab/src/cmp_model.c:196-220 | every step of the core keeps the global invariant, whatever the order of the stages in a cycle |
| PipelineRuns.StagesPartitionSeqOpList | scarab/src/node_stage.c:407-477 | in every reachable state the sequential list is node list, map stages, decode stages and icache ops in that order, numbered without gap from ret_op to op_count - 1, off-path ops last |
| PipelineRuns.RetirementInOrder | scarab/src/node_stage.c:716-853 | over every run the retired ops are numbered 1, 2, 3, ... and none is off-path, although flushed numbers are used again |
| PipelineRuns.OpsConserved | scarab/src/op_pool.c:113-169 | in every reachable state the allocated slots are those of the ops in flight and free plus active is the pool size |
| PipelineRuns.RecoveryCutsWrongPath | scarab/src/icache_stage.c:208-224 | a recovery removes only off-path ops, keeps the recovering op, and brings fetch back on path if that op was on it |
| PipelineRuns.RecoveryFreesClippedOps | scarab/src/cmp_model.c:337-348 | a recovery frees each clipped op exactly once and no other op |
| StepEffects.FetchResumesOnPath | scarab/src/icache_stage.c:208-224 | after a recovery at an op of the correct path nothing is fetched until fetch starts again, and the first op fetched then is on the correct path |
| StepEffects.DecodeMovesUp | scarab/src/decode_stage.c:157-197 | in a decode step the decode stages with the icache stage behind them move up by one, if any is empty |
| StepEffects.MapMovesUp | scarab/src/map_stage.c:162-218 | in a map step so do the map stages, with the last decode stage behind them and no other touched |
| StepEffects.IssueTakes | scarab/src/node_stage.c:407-477 | in an issue step exactly the waiting ops are taken that fit, a synchronizing op only into an empty table and as the last of its group, and there is a reason to stop where it stops |
| StepEffects.ExecuteDetects | scarab/src/bp/bp.c:122-167 | an op latched counts as executed, and with a wrong next address a recovery at least as old is pending and, on the correct path, it may not retire before that |
| StepEffects.RetiredHadFinished | scarab/src/node_stage.c:1012-1015 | in every state the invariant allows, the head retires if and only if it has finished, is on the correct path and waits for no recovery; and then it has been executed |
| RetirementRuns.RetiredHaveFinished | scarab/src/node_stage.c:716-853 | over every run an op in flight counts as executed, or as finished, if and only if that happened to it itself, and both happened to every op that retired |
| PipelineRuns.NoRecoveryForgotten | scarab/src/bp/bp.c:122-167 | a detected mispredict stays covered by a pending recovery at least as old, and an op held back by recovery_scheduled is the one that recovery releases |
| PipelineRuns.RetiredBranchesRecovered | scarab/src/node_stage.c:1012-1015 | a mispredicted branch retires only after its recovery has been carried out |
| PipelineRuns.LinkedExactlyOnce | scarab/src/map_stage.c:162-218 | the ops linked to their sources are those in the node table and the last map stage, each of them once |
| Core.FetchBatchIsARun | scarab/src/icache_stage.c:457-681 | the fetch loop is a run of fetch steps, so all that holds of runs holds of it |
| Core.FetchBatchFetches | scarab/src/icache_stage.c:457-681 | the fetch loop fetches all ops supplied before the packet must break, or as many as the stage has room for: numbered on from op_count, off-path behind a mispredict, each in a fresh slot and in the next place of the stage |
| Core.FrontEnd.IssueFetched | scarab/src/icache_stage.c:457-681 | the loop that allocates from the linked pool, numbers, appends and stores: n ops enter list and stage, the i-th with the i-th instruction and the numbers op_count + i and unique_count + i, where n is used up by the supply, a break or the room left |
| Core.FrontEnd.RecoverSeqOps | scarab/src/thread.c:130-155 | walking the list and clipping it gives the recovered sequential list, or the empty one |
| Core.IssueRestDrains | scarab/src/node_stage.c:407-477 | the issue loop takes a prefix of the waiting ops, limited by table space and synchronizing ops, and clears exactly their slots |
| Core.NodeTable.NodeIssue | scarab/src/node_stage.c:407-477 | the loop over the slots of the last map stage moves k ops to the end of the node list and empties their slots; k is within the table, respects synchronizing ops, and no larger number would be right |
| Core.RetireUpToIsARun | scarab/src/node_stage.c:716-853 | the retire loop is a run of single retirements |
| Core.RetireUpToRetires | scarab/src/node_stage.c:716-853 | k ops leave from the head, each finished, on the correct path and not waiting for a recovery; if the width is not used up the next op is not all of that; exactly their slots are freed |
| Core.NodeTable.NodeRetire | scarab/src/node_stage.c:716-853 | the loop takes those k ops off the list, adds k to ret_op and frees exactly their slots |
| Core.NodeTable.FlushWindow | scarab/src/node_stage.c:225-265 | survivors stay linked in order, the flushed ops are given back in order |
| Core.CmpRecover | scarab/src/cmp_model.c:309-349 | the stage recoveries in the code's order, each handing its ops one by one to the linked pool, together are the recovery step of the machine |
| ByteTraversal.VisitBytes | scarab/src/map.c:370-415 | the nested traversal terminates and visits each byte of the access once, in order, across entries and the 48-bit wrap, and none for size 0 |
| ByteTraversal.BytesInOrder | scarab/src/map.c:370-415 | the i-th byte lies i places behind the first in the 48-bit space, round its end if need be |
| ByteTraversal.BytesDistinct | scarab/src/map.c:370-415 | no byte address is visited twice |
| StoreMap.MemMap.UpdateStoreHash | scarab/src/map.c:524-555 | after a store its bytes, and only they, name it in its own half and carry its path as flag |
| StoreMap.MemMap.DeleteStoreHashEntry | scarab/src/map.c:420-450 | a freed store disappears from the bytes of its own half that still name it, and from nowhere else; empty entries go |
| StoreMap.MemMap.RecoverFlags | scarab/src/map.c:194-197 | the scan clears every flag and keeps every recorded store |
| StoreMap.GatherFinds | scarab/src/map.c:455-518 | what the walk collects: every store supplying a byte once, or none; and the youngest of them, unless there is none |
| StoreMap.MemMap.AddStoreDeps | scarab/src/map.c:455-518 | the loops over entries and bytes collect that, and every mark is taken away again |
| DependenceMaps.LookupIsYoungest | scarab/src/map.c:263-278 | under the map invariant the half a flag selects is the youngest writer in program order |
| DependenceMaps.PutOnHalf | scarab/src/map.c:304-337 | writing the maps at fetch keeps the on-path half equal to the youngest on-path writer |
| DependenceMaps.RetireOnHalf | scarab/src/map.c:420-450 | retirement takes a store out of the byte map and leaves register writers remembered |
| DependenceMaps.RecoverKeepsMaps | scarab/src/map.c:181-222 | clearing the flags, replaying the surviving off-path ops and then freeing the flushed ones in any order gives exactly the maps of the surviving window |
| RegisterMap.RegMap.MapOp | scarab/src/map.c:251-337 | an op's register sources and, with in-order memory ops, the last store are read before its own results are written, and the write changes exactly its destinations |
| RegisterMap.RebuildOffpathMap | scarab/src/map.c:204-222 | the list walk replays the ops from the oldest off-path one on, in all maps |
| RegisterMap.RecoverMaps | scarab/src/map.c:181-189 | the arrays, flags and hash after a recovery show the recovered view, the flushed stores deleted after the rebuild |
| MapRuns.StepKeepsMaps | scarab/src/cmp_model.c:337-348 | whatever step the pipeline takes, the maps keep up with the ops in flight |
| MapRuns.StoreLookupIsYoungest | scarab/src/map.c:455-518 | after any run the hash lookup of a byte is the youngest store in flight covering it, and empty if there is none |
| MapRuns.RegisterReadIsLastWriter | scarab/src/map.c:263-298 | after any run a register, or the last-store register, reads as its youngest writer that was not flushed, retired ones included |
| MapRuns.RecoveryForgetsFlushed | scarab/src/map.c:181-222 | after a recovery every lookup is as if the flushed ops had never been fetched |
| MapRuns.SourcesAreOlder | scarab/src/map.c:761-789 | the assertion on sources: what a lookup returns has a smaller op number and unique number than the op being mapped |
| MapRuns.LoadSources | scarab/src/map.c:455-518 | with out-of-order stores a load depends on exactly the youngest stores in flight of its bytes, each once; otherwise none of them is younger than its one source |
| MapRuns.LastIsSupplier | scarab/src/map.c:494-517 | that one source is itself the youngest store in flight of some byte of the load |
| WakeUpSteps.SignalKeepsInv | scarab/src/map.c:560-603 | signalling marks this type of this op and no other, and keeps the bits of linked sources exact |
| WakeUpSteps.SignalClearsExactly | scarab/src/map.c:560-603 | the bits it clears are those of linked sources that name this op and this type, and no others |
| WakeUp.LinkKeepsInv | scarab/src/map.c:608-698 | linking all sources of an op clears the bits of those that are gone or have signalled and leaves a waiter with each one in flight |
| WakeUpSteps.NewOpKeepsInv | scarab/src/op_pool.c:187-254 | a recycled op starts with all bits set, no waiters and nothing signalled, whatever the slot was before; no old waiter names it, and no other op changes |
| WakeUpSteps.RetireKeepsWakeInv | scarab/src/map.c:704-722 | retiring an op that has signalled what its waiters wait for changes nobody's readiness |
| WakeUpSteps.CutKeepsWakeInv | scarab/src/map.c:704-722 | after a recovery the entries flushed ops left on surviving lists wake nobody, and freed lists are empty |
| WakeUpRuns.NotReadyIffWaiting | scarab/src/map.c:560-698 | in every reachable state, a bit of an op past the map stage is set if and only if that source is in flight and has not signalled that type |
| WakeUpRuns.UnlinkedNotWoken | scarab/src/map.c:580-582 | before the map stage no bit of an op is ever cleared, whatever stale waiters name its slot |
| WakeUpRuns.WakeEntriesConserved | scarab/src/map.c:704-722 | free plus active entries make up the pool and the active ones are those on the lists of the ops in flight |
| WakeUpSignals.SignaledIffSent | scarab/src/map.c:560-603 | over every run an op in flight has a type signalled if and only if it has sent that signal itself |
| WakeUpPool.EntryPool.Expand | scarab/src/map.c:228-242 | the new block is threaded in front of the free list and every op's list is as before |
| WakeUpPool.EntryPool.AddToList | scarab/src/map.c:642-671 | the head of the free list becomes the last entry of one list; every other list is as before |
| WakeUpPool.EntryPool.FreeWakeUpList | scarab/src/map.c:704-722 | splicing a whole list in front of the free list gives back all its entries and touches no other list |
| WakeUpLists.WakeTable.AddToWakeUpLists | scarab/src/map.c:608-698 | the loop over the sources, on linked entries, does that linking |
| WakeUpLists.WakeTable.WakeUpOps | scarab/src/map.c:560-603 | following the next pointers of one list clears exactly the bits its live entries of this type name, and marks the type as signalled |
| Dataflow.RecordedIsProducer | scarab/src/map.c:251-518 | what is recorded at fetch: an op in flight is a source if and only if, in program order, it is the last writer of a source register, the last store an in-order memory op waits for, or a store a load reads from |
| Dataflow.RecordedFromMapOp | scarab/src/map.c:251-298 | the register and last-store sources recorded are those map_op reads from the maps |
| DataflowRuns.FlowIsWake | scarab/src/map.c:761-789 | the sources the maps give are such as the wake-up lists rely on: older than the op |
| DataflowRuns.FlowKeepsInv | scarab/src/cmp_model.c:196-220 | every step of pipeline, maps and wake-up lists together keeps all three invariants and the recorded sources right |
| DataflowRuns.ReadyIffProducersSignalled | scarab/src/map.c:560-698 | in every reachable state, an op past the map stage has an empty not-ready vector if and only if every op in flight that produces, in program order, something it waits for has signalled it |
| Stations.Emptiest | scarab/src/node_stage.c:865-896 | the station chosen can take the op, has the most free slots, and is the first of those; none is chosen only if none can take it |
| Stations.FillStopsWhere | scarab/src/node_stage.c:903-952 | next_op_into_rs is right after a fill if and only if the width is zero or larger than the number of ops there is room for; then no station can take the next op; otherwise the pointer is on the op filled last |
| Stations.FillKeepsInv | scarab/src/node_stage.c:903-952 | filling keeps slot counts, ready list and the split of the node list consistent, and loses no slot |
| Stations.WakeKeepsInv | scarab/src/cmp_model.c:276-304 | a wake-up puts an op on the ready list exactly when its last bit is cleared while it is in a station |
| StationRuns.HandleIsExact | scarab/src/node_stage.c:958-976 | exactly the ops taken by a unit leave the ready list, and nothing else about any op changes |
| StationRuns.FillDoes | scarab/src/node_stage.c:903-952 | the ops up to where the fill stops enter a station that can take them, on the ready list if no operand is missing, ready if due in the next cycle; it stops at the end of the list, at the width, or where no station can take the op |
| StationRuns.LeavesIffLatched | scarab/src/exec_stage.c:287-360 | once the units have latched their ops and the node stage has run, an op has left the ready list if and only if it was latched for good; a memory op latched tentatively stays |
| StationRuns.FlushCountsExact | scarab/src/node_stage.c:225-265 | the slot counts after a flush are right if and only if every flushed op holding a slot is in one of the three states the flush looks for, whatever states the ops are in |
| StationRuns.FlushLoses | scarab/src/node_stage.c:241-245 | a flush loses exactly the slots of those flushed ops it does not look for |
| StationRuns.FlushKeepsStations | scarab/src/node_stage.c:184-265 | a recovery keeps the ready list and the split exact and the slot counts covering the slot holders, and a right pointer right |
| StationRuns.ReadyIffNoneMissing | scarab/src/node_stage.c:903-952 | in every reachable state of every configuration an op in a station is on the ready list, once, if and only if its not-ready vector is empty |
| StationRuns.SlotsAccounted | scarab/src/node_stage.c:225-265 | in every reachable state of every configuration a slot count is the number of ops holding a slot plus the slots recoveries have forgotten, and never exceeds the station's size |
| StationRuns.StallKeepsSlots | scarab/src/exec_stage.c:323-328 | with STALL_ON_WAIT_MEM on, in every reachable state a slot count is the number of ops holding a slot |
| StationLimits.NextSplitsNodeList | scarab/src/node_stage.c:903-952 | with a fill width that is zero or above what one fill can place, next_op_into_rs always separates the ops that have entered a station from those that have not |
| StationLimits.FillAssertsIff | scarab/src/node_stage.c:913-927 | the assertion of the fill loop, evaluated for ops a station was found for, fails if and only if the pointer was left on an op that has entered a station and some station could take it |
| StationLimits.FillsWellIffRoomy | scarab/src/node_stage.c:903-952 | for every configuration, with the steps in any order: the assertion holds at every fill of every run if and only if RS_FILL_WIDTH is zero or above both what the node table and what the stations can hold |
| StationLimits.WidthBreaksPointer | scarab/src/node_stage.c:913-952 | for every other configuration: a run after which the fill finds a station for an op that has left the issued state, in the order of the code if as many ops can be issued in a cycle as the width says |
| StationBacklog.BacklogBreaksPointer | scarab/src/node_stage.c:378-401 | with one op issued in a cycle and any width from two up to what fits behind one op in the node table: a run in the order of the code after which the fill fails its assertion |
| StationCycles.SafeWidthIff | scarab/src/node_stage.c:378-401 | with the steps in the order of the code: the assertion holds in every run on all stations if and only if RS_FILL_WIDTH is zero, larger than NODE_TABLE_SIZE, or equal to it with fewer ops issued in a cycle |
| StationCycles.CalmRun | scarab/src/node_stage.c:903-952 | under such a width, whenever a fill begins the ops waiting are those issued in this cycle, or the first of them finds no station, or an op that has entered a station is still in the table |
| StationSlots.SlotLost | scarab/src/node_stage.c:241-245 | for every configuration without STALL_ON_WAIT_MEM in which two ops can be in stations one after the other: a run in the order of the code that ends with an empty node list and a slot still counted |
| StationSlots.SlotsKeptIff | scarab/src/exec_stage.c:323-328 | for every configuration: the slot counts are right in every reachable state if and only if STALL_ON_WAIT_MEM is on or two ops cannot be in stations one after the other |
| StationCode.NodeStage.FindEmptiestRs | scarab/src/node_stage.c:865-896 | the loops over stations and units find that station |
| StationCode.NodeStage.NodeFillRs | scarab/src/node_stage.c:903-952 | unless its assertion fails, the loop with its three exits fills like that from next_op_into_rs on, wherever that is |
| StationCode.NodeStage.CmpWake | scarab/src/cmp_model.c:276-304 | one operand arrives: its bit is cleared, rdy_cycle becomes the later of what it was and the wake cycle, and with no bit left an op in a station goes on the ready list, ready if that is the next cycle and waiting for the forward otherwise |
| StationCode.NodeStage.NodeHandleScheduledOps | scarab/src/node_stage.c:958-976 | the walk takes the ops in SCHEDULED or MISS, and no others, off the ready list and returns their slots, each count positive before |
| StationCode.NodeStage.RecoverNodeStage | scarab/src/node_stage.c:162-265 | the flushes of ready list, scheduling buffer, next pointer and window together are that flush, the buffer keeps exactly the older ops, last_scheduled_opnum is cut down to the recovering op, and recovery_scheduled of that op alone is cleared |
| StationCode.ReturnedAreCounted | scarab/src/node_stage.c:241-245 | what the flush asserts of the counts: the slots it may give back of any station are counted there |
| StationTiming.DueWithLastOperand | scarab/src/map.c:836-839 | over every run, in whatever order operands come and whatever happens in between, an op is due in the largest of the cycles of its operands and the one it started with |
| StationTiming.LastOperandDecides | scarab/src/cmp_model.c:288-294 | the wake-up that clears the last bit makes the op ready if that largest cycle is the next one, and lets it wait for the forward otherwise |
| StationTiming.NoEarlyStart | scarab/src/node_stage.c:696 | after any run, an op that holds a buffer slot and is accepted by its unit starts no earlier than any of its operands is there |
| StationTiming.WakeAllDoes | scarab/src/map.c:560-603 | any wake-ups of one cycle, in any order, clear exactly the bits they name and leave the op due with the last of them |
| StationTiming.CycleWakes | scarab/src/cmp_model.c:276-304 | the same over a whole cycle of scheduler, exec stage and node stage, for every op of the node list |
| Scheduler.OldestSelected | scarab/src/node_stage.c:590-649 | the oldest considered op is selected whenever some unit of its station can execute it, in any order of the ready list |
| Scheduler.OldestOfClassSelected | scarab/src/node_stage.c:590-710 | when eligible unit sets are equal or disjoint, an op is selected if and only if fewer considered ops of its class are older than the class has units |
| Scheduler.SelectedAreDue | scarab/src/node_stage.c:694-698 | an op in the buffer is in the ready list with its operands there in the next cycle, not latched tentatively, not waiting for the data cache, and not for a request buffer while memory is blocked |
| Scheduler.OldestDueSelected | scarab/src/node_stage.c:590-710 | the oldest op of the ready list of which that is true is in the buffer, if its station has any unit for it |
| Scheduler.SchedAllSound | scarab/src/node_stage.c:590-649 | every slot holds a considered op its unit can execute, and no op holds two slots |
| Scheduler.OnlyOlder | scarab/src/node_stage.c:625-648 | an occupant is only ever replaced by an older op |
| Scheduler.SchedBuffer.OldestFirstSched | scarab/src/node_stage.c:590-649 | the single pass over a station's units takes the first free one it can use; if none is free it replaces the youngest occupant, if that is younger than the op; otherwise nothing changes |
| Scheduler.SchedBuffer.NodeSchedOps | scarab/src/node_stage.c:661-710 | from an empty buffer: only ops due in the next cycle and not blocked get a slot, the oldest of them does, and exactly the ops that waited for a request buffer are ready again when memory is not blocked |
| Scheduler.SchedBuffer.FlushSchedulingBuffer | scarab/src/node_stage.c:198-213 | a recovery empties exactly the slots of younger ops and the count stays the number of taken slots |
| ExecStage.LatchedIffAccepted | scarab/src/exec_stage.c:179-380 | after both phases the buffer slot is empty and the op is in the unit exactly if the unit accepts, which otherwise keeps what it had |
| ExecStage.BusyUnitHasNoOp | scarab/src/exec_stage.c:282-293 | the assertion of phase 2: a unit still holding an op has nothing left in the buffer |
| ExecStage.NextAccept | scarab/src/exec_stage.c:309-324 | a pipelined unit accepts again in the next cycle, an unpipelined one exactly after its latency |
| ExecStage.Exec.UpdateExecStage | scarab/src/exec_stage.c:179-380 | the two loops leave an empty buffer; a unit has the op of its slot if it accepts and what it had otherwise; the ops taken, and no others, signal their register, or address and data of a store, take their states, and have their recoveries scheduled and marked |
| ExecStage.OldestStaysPending | scarab/src/exec_stage.c:363-368 | however many branches resolve in one cycle, the recovery pending afterwards is the oldest of theirs and the one pending before |
| ExecStage.Exec.RecoverExecStage | scarab/src/exec_stage.c:137-149 | a recovery empties exactly the units with younger ops and makes them available in the next cycle; all others stay as they are |
| ResultTypes.WaitedFor | scarab/src/map.c:251-518 | an op is waited for with REG_DATA only if it writes a source register, with an address or data only if it is a store |
| ResultTypes.SignalsWhatIsWaitedFor | scarab/src/exec_stage.c:245-262 | an op that is no memory op, or a store taken for the first time, signals every type any op waits for it with, as of the end of its latency; except if and only if that is a register a store writes |
| SchedulingCycle.InvListed | scarab/src/node_stage.c:661-710 | every number on the ready list leads to its op in the node list, so the scheduler considers ops of the node table only |
| SchedulingCycle.SelectedAreReady | scarab/src/node_stage.c:661-710 | what the scheduler puts in the buffer is on the ready list, and no op is there twice |
| SchedulingCycle.SelectedIsDue | scarab/src/node_stage.c:694-698 | on the fields of the node list: an op in the buffer has rdy_cycle no later than the next cycle and a state in which it may be scheduled, and its unit belongs to its station and can execute it |
| SchedulingCycle.OldestHoldsSlot | scarab/src/node_stage.c:590-649 | the first op of the node list that is on the ready list, has such a rdy_cycle and such a state holds a buffer slot, if its station has any unit for it |
| SchedulingCycle.ScheduledWorkIsNotLost | scarab/src/exec_stage.c:179-380 | over scheduler, exec stage and node stage of one cycle, an op has left the ready list if and only if it held a buffer slot and that unit accepted it for good; rejected ops are on the list as before |
| SchedulingCycle.CycleKeepsInv | scarab/src/node_stage.c:958-976 | such a cycle, wake-ups in between included, keeps stations and ready list consistent and leaves no taken op on the list |
| Freq.ClosedForm | scarab/src/freq.c:144-188 | after a reset and any number of advances, cycle counts are elapsed time divided by cycle time, and a domain is ready exactly when its cycle time divides it |
| Freq.AdvanceToNextEvent | scarab/src/freq.c:144-181 | an advance stops at the very next start of any domain's cycle and skips none |
| Freq.EveryMultipleVisited | scarab/src/freq.c:144-181 | every multiple of every cycle time is stopped at |
| Freq.FreqDomains.AdvanceTime | scarab/src/freq.c:144-181 | the three passes over the domain array do that advance |
| Freq.FreqDomains.ResetCycleCounts | scarab/src/freq.c:183-188 | a reset starts all domains over while the time goes on |
| Freq.FreqDomains.IsReady | scarab/src/freq.c:139-142 | a domain is ready if and only if its cycle time divides the time since the last reset |
| Freq.FreqDomains.FutureCycle | scarab/src/freq.c:226-254 | on the domains as they are, the converted cycle is the first that starts neither in the past nor before the source cycle |
| Freq.FutureTimeError | scarab/src/freq.c:199-204 | the future time returned is late by the time the domain is into its cycle, and exact if and only if the domain is ready |
| Freq.ConvertIsCurrentCycle | scarab/src/freq.c:220-224 | the converted count is the destination cycle in which the source cycle starts, counted from a common start |
| Freq.ConvertFutureIsLeast | scarab/src/freq.c:226-254 | the converted cycle is the least destination cycle starting at or after both the present and the start of the source cycle |
| Freq.EarliestIffNoneMissed | scarab/src/freq.h:87-90 | it is the earliest such cycle in the header's sense if and only if no destination cycle starts between the source cycle and the present |
| Freq.EarliestMissed | scarab/src/freq.c:226-254 | two domains just after a reset where it is not: the answer is cycle 1, the earliest cycle is 0 |
| CallReturnStack.MaskNeedsPowerOfTwo | scarab/src/globals/utils.h:261-262 | the wrap-around masks, up and down, are right on every position if and only if the size is a power of two |
| CallReturnStack.IncIsCirc | scarab/src/globals/utils.h:261-262 | the 32-bit increment macro goes round the buffer on every size the stack is modelled for |
| CallReturnStack.DecIsCirc | scarab/src/globals/utils.h:261-262 | the 32-bit decrement macro goes round the buffer on every size the stack is modelled for |
| CallReturnStack.CounterReachesSize | scarab/src/bp/bp_targ_mech.c:144-152 | the uns8 counter of the recovery loop can reach the size if and only if that is at most 255 |
| CallReturnStack.PushRefines | scarab/src/bp/bp_targ_mech.c:60-96 | a push, on or off the path, is a push on a stack of the newest CRS_ENTRIES addresses |
| CallReturnStack.PopRefines | scarab/src/bp/bp_targ_mech.c:102-138 | a pop, on or off the path, takes the newest address, and an empty stack stays empty |
| CallReturnStack.RecoveryUndoesOffPath | scarab/src/bp/bp_targ_mech.c:144-152 | after any off-path calls, returns and recoveries, wrap and underflow included, a recovery restores exactly the stack before the first of them |
| CallReturnStack.RecoveryAtOffPathBranch | scarab/src/bp/bp_targ_mech.c:144-152 | a recovery at an off-path branch restores the stack at the branch if and only if that equals the stack before the first off-path op |
| CallReturnStack.OffPathCallDropped | scarab/src/bp/bp_targ_mech.c:144-152 | a case where it does not: the off-path call older than the branch is dropped |
| CallReturnStack.RunRefines | scarab/src/bp/bp_targ_mech.c:60-152 | over every run the shadowed buffer is a bounded stack together with the copy a recovery goes back to |
| CallReturnStack.CallReturnStackBuffer.CrsPush | scarab/src/bp/bp_targ_mech.c:60-96 | the array writes of bp_crs_push, with the masked increment, are that push |
| CallReturnStack.CallReturnStackBuffer.CrsPop | scarab/src/bp/bp_targ_mech.c:102-138 | bp_crs_pop, with the masked decrement, returns the newest address, or the empty answer on underflow |
| CallReturnStack.CallReturnStackBuffer.CrsRecover | scarab/src/bp/bp_targ_mech.c:144-152 | the loop with its eight-bit counter clears all flags, and the saved tail and depth are back |
| BranchHistory.RecoveryRestoresHistory | scarab/src/bp/bp.c:668-676 | after a recovery the history is the fold of the surviving conditional directions in program order, the recovering branch with its resolved one, however recoveries nested |
| BranchHistory.NestedRecovery | scarab/src/bp/bp.c:668-676 | an outer recovery makes an inner one it flushes unhappen |
| BranchHistory.HistoryHoldsNewest | scarab/src/bp/bp.c:378-380 | the history holds the directions of the 32 newest conditional branches, newest at the top |
| BranchHistory.WordShiftIsShift | scarab/src/bp/bp.c:378-380 | on the 32-bit word: the new direction becomes the top bit, every other bit moves down by one, and the lowest is lost |
| BranchHistory.HistoryTrueIffNoneLucky | scarab/src/bp/bp.c:490-495 | over every run, once the recoveries due are carried out, it is the history of resolved directions if and only if none of the 32 newest conditional branches was predicted in the wrong direction with the right address |
| BranchHistory.WrongDirectionStays | scarab/src/bp/bp.c:490-495 | over every run, such a branch is never recovered, and while it is among the 32 newest the history is wrong |
| BranchHistory.WrongDirectionReached | scarab/src/bp/bp.c:490-495 | one such prediction: no recovery is enabled, and the history is wrong |
| BranchHistory.Predictor.PredictOp | scarab/src/bp/bp.c:273-380 | the checkpoint is the history word before the branch, the predicted direction of a conditional branch enters at the top and all other bits move down, and the branch is marked mispredicted or misfetched exactly if it will need a recovery |
| BranchHistory.Predictor.RecoverOp | scarab/src/bp/bp.c:668-676 | the history word is the checkpoint, with the resolved direction of a conditional branch in front, and that is the fold of the surviving branches |
| Ramulator.AcceptedReadsAreKept | scarab/src/ramulator.cc:171-242 | over every run an accepted read is waiting, queued or completed, in one place and once, and at most one DRAM read per address is outstanding |
| Ramulator.ResponsesAreFifo | scarab/src/ramulator.cc:298-305 | responses leave in the order in which they were queued |
| Ramulator.SearchIffUncompleted | scarab/src/ramulator.cc:323-359 | the search finds a request if and only if an accepted read of that class and address is uncompleted, and returns such a one |
| Ramulator.SendAssertionHolds | scarab/src/ramulator.cc:186-187 | a caller that searches before it sends never finds more than one request waiting for the address |
| Ramulator.RespondKeepsInv | scarab/src/ramulator.cc:227-242 | the callback finds requests for its address and answers all of them at once |
| Ramulator.AnswerServesAll | scarab/src/ramulator.cc:227-242 | after the answer for an address no request and no DRAM read waits for it, and every read of it accepted and not completed is in the response queue, in order |
| Ramulator.HandedOutOnce | scarab/src/ramulator.cc:298-305 | over every run, what the ticks hand to the fill queue is what was answered, in that order; no read is handed out twice, and none handed out is still queued or waiting |
| Ramulator.RamulatorQueues.Send | scarab/src/ramulator.cc:171-225 | a read of an address in flight is always accepted and joins its list at the end; otherwise the DRAM simulator decides, and an accepted read starts a list; a write changes nothing |
| Ramulator.RamulatorQueues.EnqueueResponse | scarab/src/ramulator.cc:227-242 | the loop moves the whole list to the end of the response queue, in order; no other address is touched |
| Ramulator.RamulatorQueues.TickEnd | scarab/src/ramulator.cc:298-305 | if and only if there is a response and the fill queue has space, the head is handed out, taken off the queue and recorded as completed; otherwise nothing changes |
| Ramulator.RamulatorQueues.SearchQueue | scarab/src/ramulator.cc:323-359 | the two loops return the first match, requests in flight before responses |
| AddrBits.AssembleRoundTrip | scarab/src/addr_trans.c:97-119 | whatever replaces the scrambled bits, the address without its sign extension can be read back from the physical one |
| AddrBits.BlpDifference | scarab/src/addr_trans.c:71-89 | pages with the same upper bits keep the differences of their original bits |
| AddrTrans.TranslationRoundTrip | scarab/src/addr_trans.c:47-120 | in every mode, for any hash, nothing but redundant sign bits is lost |
| AddrTrans.TranslationInjective | scarab/src/addr_trans.c:97-119 | no two canonical addresses share a physical address, from 35 kept bits on in every mode, from 29 on in every mode but random |
| AddrTrans.InjectiveIffEnoughKept | scarab/src/addr_trans.c:58-114 | mode by mode, for the numbers of kept bits the assertion admits: no two canonical addresses share a physical one, for every hash, if and only if the mode is not random or at least 35 bits are kept |
| AddrTrans.PageAssertionHolds | scarab/src/addr_trans.c:107-111 | in every mode the assertion on the page number holds for every address and hash if and only if at least 29 bits are kept |
| AddrTrans.TranslationKeeps | scarab/src/addr_trans.c:97-119 | proc_id and page offset stay, from 29 kept bits on |
| AddrTrans.FlipMergesStripped | scarab/src/addr_trans.c:82-87 | without a hash, addresses share a physical address if and only if they agree on the kept bits |
| AddrTrans.FlipPage | scarab/src/addr_trans.c:68-87 | from 35 kept bits on, the low bits of the physical page number in flip mode are the complement of the original ones |
| AddrTrans.RandomPage | scarab/src/addr_trans.c:68-87 | in random mode they are the hash of the whole page number |
| AddrTrans.BlpPage | scarab/src/addr_trans.c:71-89 | preserving bank-level parallelism they are the original ones combined with the hash of the bits above |
| AddrTrans.StreamPage | scarab/src/addr_trans.c:71-95 | preserving streams they are those as well, but for the topmost, which is the original bit |

## Left out

- Caches, prefetchers, the memory system beyond the DRAM request queues, and DRAM timing: their effect on
  the core is a free choice of when ops finish and requests are answered.
- The data cache stage: it appears only as ops changing state after they left the ready list, and as
  results being signalled at some time.
- Late branch prediction, redirects of fetch after target misses, replay, bogus re-simulation and warmup:
  configuration branches around the steps modelled here.
- The composition of all machines into one: pipeline, maps and wake-up lists are one machine, and stations,
  scheduler and exec stage are composed over a cycle. Between the two, the stations' events stand for what
  pipeline and wake-up lists do to an op.
- The linked entries of the store hash in that machine: a fetch reads its load dependences from any table
  that shows the byte map.
- When the data cache stage signals the results of loads: that it does so before they retire, and that no op
  waits for a register of a store, is an assumption of the wake-up runs.
- The comparison of the current cycle with the issue cycle in `cmp_wake`: an op in a station has been
  issued, so it always holds.
- What `next_op_into_rs` designates once an op it was wrongly left on has retired and its slot is used again:
  a run of the stations is followed up to there, and up to a failing assertion.
- The units that can execute an op, and whether it is a memory op, are free choices in the runs of the stations.
- The hash function of the address translation: any function stands for it. Page sizes other than 4096, and
  the cut of the scrambled bits to 32, which only happens with fewer than 26 kept bits.
- Changes of cycle times at run time, and the width of time and cycle counters.
- The head position of the call-return stack, which only debug output reads, its realistic modes, and the
  perfect mode.
- The limit of 128 blocks on the op pool and on the wake-up entries.
- Packet building and execution-port configuration: a fetch packet may break anywhere, a station is a list
  of units.
- `sort_node_ready_list`: nothing calls it, and selection does not depend on the order of the ready list.
- Statistics, debug output, parameter parsing, triggers, and the scripts.
