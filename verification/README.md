# Verified models of the PESESC trace and emulation layer

PESESC simulates processors and GPUs. Between the functional emulator and the timing model lies a layer that
extracts traces, hands dynamic instructions out, cracks guest instructions into micro-ops and spreads GPU threads
over streaming multiprocessors (SMs). This project models the state machines of that layer in Dafny and proves what
they keep over whole runs. `dafny verify dfyconfig.toml` checks everything.

| file | what it models |
|---|---|
| `Pslice.dfy` | the backward slicer of a p-slice (the instructions that feed a delinquent load) and its live-in pass; slicing preserves what the load reads |
| `PsliceConstructor.dfy` | the streaming collector of windows between delinquent loads, against a definition over the whole history |
| `EmuDInstQueue.dfy`, `QueueRuns.dfy` | the power-of-two ring with tail, head and insert point, its growth and replay, as an abstract queue; runs of fetching, handing out, retiring and replaying |
| `DInst.dfy` | the intrusive dependence lists threaded through the `pend` nodes of dynamic instructions |
| `GpuThreads.dfy` | the distribution of kernel threads to SMs, columns and warps, and the occupancy calculation |
| `GpuScheduler.dfy` | the warp search, the hand-over of pause words, and the launch |
| `GpuBarrier.dfy`, `GpuBarrierCases.dfy` | barrier counting during a timing pass and across the reset between passes, block by block; states on which it goes wrong |
| `GpuLayout.dfy` | the blocks as laid out on an SM, why the first pass starts with right counts, and which rows are added to their blocks |
| `GpuTiming.dfy`, `GpuTimingCases.dfy` | warps, barriers and the scheduler of one SM together: what the test of a waiting warp finds; runs in which it fails |
| `GpuSets.dfy` | the blocks of a kernel against the warpsets of an SM and the occupancy calculation |
| `AHash.dfy`, `AHashProgress.dfy` | the load-linked/store-conditional table under per-slot spin locks, interleaved access by access; why no interleaving deadlocks |
| `Micro.dfy` | the micro-op machine, as far as the next three files use it |
| `ThumbMultiple.dfy`, `ThumbCrack.dfy` | the cracked Thumb PUSH and POP, and the loops that crack them |
| `ThumbBlock.dfy` | the cracked Thumb STM and LDM |
| `ItBlock.dfy` | the vector of pending IT conditions against ITSTATE |
| `Brk.dfy` | the guest's brk system call over the simulated data segment |
| `FlowIds.dfy` | the flow-id pool |
| `Bits.dfy`, `Common.dfy` | bitwise operations as arithmetic; definitions that several modules share |

Objects whose methods update fields in place are classes with an invariant and an abstract view; loops are methods
proved against specification functions; protocols between several parties are step relations with theorems about
every run. Architecture sections cited are those of the ARM Architecture Reference Manual, ARMv7-A and ARMv7-R
edition, ARM DDI 0406B.

## What turned out not to hold

Each of these is kept as the code has it, shown on a concrete state or run, and bounded by the exact condition.

- Barrier counts do not survive `reset_nextTimingBB`: it sets paused threads of the current warp running again
  without lowering the block's count, so a barrier can open early (`GpuBarrierCases.BarrierOpensEarlyAfterReset`).
  The count of a block survives a reset if and only if no thread of the current warp is paused or the warp is not
  counted for the block (`GpuBarrier.ResetKeepsCountIff`). For a block all of whose rows were added to it, and over
  any number of passes without such a reset, the barrier opens exactly when it should
  (`GpuBarrier.AllPassesAreSafe`).
- Every concurrent row is scheduled, but only the first `timing_warps` rows are added to their blocks. An arrival
  from a row that was not added is counted, its completions are not, and a release passes it over
  (`GpuBarrierCases.ReleaseMissesRow`). An arrival keeps the count right if and only if its row was added
  (`GpuBarrier.ArriveKeepsCountIff`), and a block is safe if and only if all its rows were
  (`GpuBarrier.SafeIffCovered`). After `addTimingThreads` that is the case when all rows are timed
  (`GpuLayout.AllCoveredIffAllTimed`), that is when the empty slots of all blocks together are fewer than a warp
  (`GpuSets.AllCoveredIffLittlePadding`); it already fails for three blocks of 48 threads on 32 columns
  (`GpuLayout.LastRowLeftOut`).
- While the counts are right, a block with fewer threads than the block size, the last of a kernel, is not released
  even when all its threads wait (`GpuBarrier.ReleaseIffSettled`, and `GpuBarrierCases.ShortBlockWaits` on two
  threads in a block of three). Resets that count a waiting thread again can release it
  (`GpuBarrierCases.ShortBlockOpensAfterResets`).
- The assertion behind a failed test of a waiting warp can be reached. For a block whose rows were all added to it and
  lie in one warpset, over every run without a reset upon one of its paused threads, it is reached by none of the
  tests if the block is full and by all of them if not (`GpuTiming.EveryTestOpensIffFull`). A run reaches it for a
  block that is short (`GpuTimingCases.ShortBlockGetsStuck`) and for one that two warpsets share
  (`GpuTimingCases.SplitBlockGetsStuck`). On one SM no block is split if and only if one set holds all warps or the
  concurrent warps are those of whole blocks (`GpuSets.BlocksStayTogetherIff`), as the occupancy calculation makes
  them (`GpuSets.OccupancyKeepsTogether`); there, of the blocks whose rows were all added, only the last one, if it is
  incomplete, can reach the assertion (`GpuSets.KernelTestsOpenIffWhole`).
- `checkSC` can be true for a flow that never completed a store of its own, because `insert` leaves `scPassed` as it
  was (`AHash.CheckWithoutOwnStore`). A positive check stands for a store of the flow's own if and only if no store
  had passed on the slot when the flow marked it (`AHash.CheckStandsForOwnStoreIff`).
- The cracked LDM loads the right words in every state if and only if R0 is in the list and is not at the same time
  the base of a longer list (`ThumbBlock.LdmRightIff`); without R0 every register gets the word after its own.
- An IT inside an IT block is obeyed while the current condition is "always", and then the vector no longer follows
  ITSTATE (`ItBlocks.StepTracks`) and has no bound (`ItBlocks.MisplacedItGrows`).
- A brk request above the last 32-bit page boundary that gets memory breaks the break's invariant; every other
  request keeps it (`GuestBrk.BrkKeepsIff`). The bytes a larger break exposes are zero in all circumstances only
  while the break stays in its page (`GuestBrk.GrowthIsClearIff`).
- A retirement with nothing handed out and nothing deferred takes the ring's tail past its head; every other call of
  `advanceTail` keeps the ring (`EmuDInstQueues.EmuDInstQueue.AdvanceTail`), and no run that retires each handed-out
  instruction once makes that call (`QueueRuns.TailNeverPassesHead`).

## Choices

- `CONSTRUCT_PSLICE` is commented out in the repository's header; slicing at collection time is modelled as enabled.
- `depRegisters[16]`, the entry for "no operand", is never initialised; it is a parameter of the slicer, and results
  hold for both values.
- An instruction is a deterministic function of its operand values and recorded data, and writes only its
  destination register.
- The registers and the shared memory of a block are rounded up by the repository's own `roundUp` (`simu/libsampler/SamplerGPUSim.h`), which leaves a number as it is when the multiple is 0.
- Where the code stops the program or a C++ assertion fails, the model has an error value (`FlowIds`) or a
  precondition that states the assertion (`EmuDInstQueue`, `DInstPool`).

## Model

| member | source | states |
|---|---|---|
| Pslices.GeneratePslice | emul/libqemuint/Pslice.cpp:438-485 | the in-place backward pass over `depRegisters` computes exactly the recursively defined slice of the window, whatever the uninitialised entry holds |
| Pslices.IdentifyLiveIns | emul/libqemuint/Pslice.cpp:209-250 | a register is flagged live exactly when it is read before it is written, the snapshot holds the value of its earliest read, the count is the number of live registers |
| Pslices.FirstReadIsEntryRead | emul/libqemuint/Pslice.cpp:166-207 | the reference notion of a live-in: some instruction reads the register with no write in front of it, and the value is the one recorded by the earliest such reader |
| Pslices.DepsAreLiveIns | emul/libqemuint/Pslice.cpp:458-484 | the registers the backward slicer is still waiting for at the start of the window are exactly the live-ins of the slice |
| Pslices.EntryReadsSeeEntryValues | emul/libqemuint/Pslice.cpp:209-250 | in a recorded run a live-in is recorded with the value it had on entry |
| Pslices.LiveInReplay | emul/libqemuint/Pslice.cpp:209-250 | any register file holding the snapshot's live-in values repeats the recorded run, operand by operand |
| Pslices.SliceRunsAsRecorded | emul/libqemuint/Pslice.cpp:438-485 | dropping the instructions outside the slice changes no operand of those inside it |
| Pslices.SliceReplay | emul/libqemuint/Pslice.cpp:438-485 | from any register file that holds the slice's live-in values, every slice instruction sees the operand values recorded in the full trace |
| Pslices.LoadSeesSameOperands | emul/libqemuint/Pslice.cpp:438-485 | the delinquent load at the end of the replayed slice reads the same register values as at the end of the full trace |
| Pslices.SlicePositions | emul/libqemuint/Pslice.cpp:461-484 | the slice is the window at strictly increasing positions, the last of which is the load |
| Pslices.KeptInstructionsAreNeeded | emul/libqemuint/Pslice.cpp:461-484 | every kept instruction before the load writes a register that a later slice instruction reads with no slice write in between |
| Pslices.PreparePslice | emul/libqemuint/Pslice.cpp:57-119 | slicing followed by the live-in pass yields the slice, which ends in the load, flags exactly its live-ins with their recorded values, and from any register file that holds those the slice repeats the recorded run |
| Pslices.IsEqual | emul/libqemuint/Pslice.cpp:255-278 | the side-by-side walk over two ordered PC sets decides equality of the sets |
| PsliceCollector.StoreWindow | emul/libqemuint/PsliceConstructor.cpp:99-123 | a finished window raises the frequency of the one stored record with the same PC set, or is sliced and added |
| PsliceCollector.OpenGrows | emul/libqemuint/PsliceConstructor.cpp:68-87 | between occurrences of the delinquent PC, inserting and cutting turn the open window of the history into that of the longer history |
| PsliceCollector.OpenCloses | emul/libqemuint/PsliceConstructor.cpp:95-123 | at an occurrence the open window survives the size cut exactly when a window of at most 300 instructions ends there, and is that window |
| PsliceCollector.StoredNew | emul/libqemuint/PsliceConstructor.cpp:115-122 | a window with an unseen PC set adds exactly its own record to what the history calls for |
| PsliceCollector.StoredAgain | emul/libqemuint/PsliceConstructor.cpp:102-113 | a window with a known PC set changes the required records only by one more in that record's frequency |
| PsliceCollector.FinishWindow | emul/libqemuint/PsliceConstructor.cpp:99-123 | wrapping up at an occurrence brings the stored records from what the old history calls for to what the longer one does |
| PsliceCollector.PsliceConstructor.RecieveInstruction | emul/libqemuint/PsliceConstructor.cpp:46-132 | after every instruction, for each delinquent PC, the stored records and the open window are exactly those defined over the whole instruction history |
| PsliceCollector.FrequenciesAddUp | emul/libqemuint/PsliceConstructor.cpp:102-122 | the frequencies of the stored records add up to the number of accepted windows of the history |
| PsliceCollector.StoredDistinct | emul/libqemuint/PsliceConstructor.cpp:102-122 | no two stored records share a PC set |
| PsliceCollector.OccurrencesAre | emul/libqemuint/PsliceConstructor.cpp:95-97 | the iteration counter is the number of positions at which the delinquent PC was executed |
| PsliceCollector.StoredRecordIs | emul/libqemuint/PsliceConstructor.cpp:46-132 | a stored record holds the instructions between two successive occurrences of its PC at most 300 apart, with their PC set and slice; its iteration number counts the occurrences in front of the window, no earlier window has the same PC set, and its frequency counts the windows that have it |
| PsliceCollector.SharingIs | emul/libqemuint/PsliceConstructor.cpp:102-113 | the windows counted by a frequency are those between successive occurrences with that PC set |
| PsliceCollector.EveryWindowIsStored | emul/libqemuint/PsliceConstructor.cpp:99-123 | the PC set of every window of the history is on record |
| PsliceCollector.NumbersTellApart | emul/libqemuint/PsliceConstructor.cpp:95-97 | windows that begin after different occurrences have different iteration numbers |
| EmuDInstQueues.EmuDInstQueue.constructor | emul/libemulint/EmuDInstQueue.cpp:35-44 | a new ring is a valid, empty queue |
| EmuDInstQueues.EmuDInstQueue.Empty | emul/libemulint/EmuDInstQueue.h:113-115 | true exactly when every instruction was handed out, because one slot always stays free |
| EmuDInstQueues.EmuDInstQueue.Size | emul/libemulint/EmuDInstQueue.h:109-111 | the number of un-retired instructions |
| EmuDInstQueues.EmuDInstQueue.GetHead | emul/libemulint/EmuDInstQueue.h:52-56 | the first instruction not yet handed out |
| EmuDInstQueues.EmuDInstQueue.PopHead | emul/libemulint/EmuDInstQueue.h:46-50 | moves the replay offset by one and keeps the contents |
| EmuDInstQueues.EmuDInstQueue.Add | emul/libemulint/EmuDInstQueue.h:78-81 | appends one instruction, with growth when the ring fills, and keeps the replay offset |
| EmuDInstQueues.EmuDInstQueue.AddFilled | emul/libemulint/EmuDInstQueue.h:68-76 | the same for a slot already filled in place |
| EmuDInstQueues.EmuDInstQueue.AdjustTrace | emul/libemulint/EmuDInstQueue.cpp:46-68 | doubling a full ring keeps the contents from the tail on and the head's offset, also when head equals tail |
| EmuDInstQueues.EmuDInstQueue.AdvanceTail | emul/libemulint/EmuDInstQueue.h:83-96 | swallows one deferred retirement, or drops the oldest instruction; the ring stays a valid queue if and only if a retirement was deferred, something was handed out, or the queue was empty |
| EmuDInstQueues.EmuDInstQueue.MoveHead2Tail | emul/libemulint/EmuDInstQueue.h:98-107 | replaces everything handed out by clones with fresh ids, to be handed out again, and defers as many retirements |
| EmuDInstQueues.RingGrown | emul/libemulint/EmuDInstQueue.cpp:46-68 | a full ring copied behind itself in order from the tail is the same queue |
| QueueRuns.StepSound | emul/libemulint/EmuDInstQueue.h:83-107 | head offset plus deferred retirements equals instructions handed out and not retired, kept by every fetch, hand-out, retirement and replay |
| QueueRuns.TailNeverPassesHead | emul/libemulint/EmuDInstQueue.h:83-96 | in every run that retires each handed-out instruction once, in any order, a retirement finds a deferred one or a handed-out instruction to drop |
| QueueRuns.InOrderRun | emul/libemulint/DInst.cpp:93-122 | with in-order retirement the handed-out part of the queue is exactly the instructions in flight that are not superseded |
| QueueRuns.ReplayHandsOutClones | emul/libemulint/EmuDInstQueue.h:98-107 | after a replay the next hand-outs are clones, with fresh ids, of the un-retired instructions in their original order |
| DInsts.DInstPool.AddSrc | emul/libemulint/DInst.h:340-393 | operand k of the consumer joins the end of the producer's list; every list and counter of the pool stays consistent |
| DInsts.DInstPool.GetNextPending | emul/libemulint/DInst.h:324-338 | the longest-waiting operand leaves its producer's list and its consumer's counter drops by one |
| DInsts.DInstPool.HasPending | emul/libemulint/DInst.h:407-407 | true exactly when some operand waits for the instruction |
| DInsts.DInstPool.HasDeps | emul/libemulint/DInst.h:409-412 | true exactly when some operand of the instruction is still waiting |
| DInsts.DInstPool.WakeUp | simu/libcore/DepWindow.cpp:168-203 | the wake-up loop empties the producer's list and answers, place by place, the consumer of the operand that stood there, so in registration order and once per operand; it releases exactly those nodes |
| DInsts.OwnerOfNode | emul/libemulint/DInst.h:324-338 | the consumer of a node is the instruction whose operand it stands for |
| DInsts.ListedOnce | emul/libemulint/DInst.h:324-393 | a node is in use exactly when it stands in a list, and then in exactly one list at one place |
| DInsts.JoinConsistent | emul/libemulint/DInst.h:340-393 | joining keeps every list acyclic, null-terminated and ending at `last`, and every counter equal to the used nodes of its instruction |
| DInsts.LeaveConsistent | emul/libemulint/DInst.h:324-338 | leaving keeps the same |
| GpuThreads.AddThreads | emul/libgpu/GPUThreadManager.h:361-397 | the pushes column by column produce the rows of the row-wise definition, with empty slots exactly where it has none, and count every thread |
| GpuThreads.RowsIds | emul/libgpu/GPUThreadManager.h:361-397 | read row by row without the empty slots, the rows hold the consecutive thread ids, each once |
| GpuThreads.RowsBlockwise | emul/libgpu/GPUThreadManager.h:372-383 | no warp row mixes threads of two blocks |
| GpuThreads.Distribute | emul/libgpu/GPUThreadManager.cpp:448-459 | every SM ends up with its share: the chunks whose number is its own modulo the number of SMs, block by block, with equal columns and a matching total |
| GpuThreads.OneSlotPerThread | emul/libgpu/GPUThreadManager.cpp:448-459 | every thread id below the number of threads has exactly one SM, row and column |
| GpuThreads.OnlyThreadsSit | emul/libgpu/GPUThreadManager.cpp:448-459 | every slot that is not empty holds a thread of the kernel that belongs on that SM |
| GpuThreads.TotalsAddUp | emul/libgpu/GPUThreadManager.cpp:448-459 | the shares of all SMs add up to the number of threads |
| GpuThreads.BlocksThatFit | emul/libgpu/GPUThreadManager.cpp:119-138 | the number of blocks found fits all limits and one more does not |
| GpuThreads.FewerFit | emul/libgpu/GPUThreadManager.cpp:119-138 | fitting is downward closed, so that number is the greatest |
| GpuThreads.CalcOccupancy | emul/libgpu/GPUThreadManager.cpp:109-139 | the warps of the greatest number of blocks that fit, with the warps per block rounded up |
| GpuThreads.RoundUpIs | simu/libsampler/SamplerGPUSim.h:27-36 | the rounding used for registers and shared memory gives the least multiple at or above its argument |
| GpuScheduler.SwitchPromises | emul/libgpu/GPUThreadManager.cpp:1346-1448 | the search never settles on a complete warp, takes one at a barrier only when all others are complete or waiting, leaves a warpset only when all its warps are complete, and fails exactly when they are and there is no next set or the first warp of the next set is complete |
| GpuScheduler.SwitchChoice | emul/libgpu/GPUThreadManager.cpp:1346-1448 | which warp is taken: the first one going round from the warp after the current one that is neither complete nor at a barrier, with the current one last; without such a warp a current one that waits is kept, a complete one is left for the first one going round that waits, and with all complete the next set is entered, if there is one |
| GpuScheduler.NearestIsUnique | emul/libgpu/GPUThreadManager.cpp:1346-1373 | being the first usable warp going round fixes the warp |
| GpuScheduler.RotIsModulo | emul/libgpu/GPUThreadManager.h:284-296 | going round is counting on modulo the number of concurrent warps |
| GpuScheduler.Sm.Move2NextWarp | emul/libgpu/GPUThreadManager.h:284-296 | the next warp of the set, going round |
| GpuScheduler.Sm.Move2NextWarpSet | emul/libgpu/GPUThreadManager.h:299-307 | the first warp of the next set, or nothing when there is none |
| GpuScheduler.Sm.Search | emul/libgpu/GPUThreadManager.cpp:1346-1400 | the bounded loop stops at the first usable warp going round, or after a whole round |
| GpuScheduler.Sm.FindNextWarp | emul/libgpu/GPUThreadManager.cpp:1346-1448 | the two searches and the step to the next set decide what the specification function decides |
| GpuScheduler.Sm.Switch2NextWarp | emul/libgpu/GPUThreadManager.cpp:1325-1462 | the whole switch: the cursor as specified, the old warp's threads paused and the new warp's resumed, and no other pause word changed |
| GpuScheduler.SwitchOn | emul/libgpu/GPUThreadManager.cpp:1325-1462 | a switch on one SM among all is exactly a switch event of the runs, from the state the SMs and pause words stand in to the one they stand in afterwards, and keeps every running thread in its SM's current warp |
| GpuScheduler.HandoverKeeps | emul/libgpu/GPUThreadManager.cpp:1325-1462 | because slots are not shared, the hand-over keeps every running thread in its SM's current warp |
| GpuScheduler.HandoverRuns | emul/libgpu/GPUThreadManager.cpp:1325-1462 | after a switch a thread of that SM may run if and only if a warp was found and the thread sits in it; the threads of the other SMs keep their pause words |
| GpuScheduler.InitTrace | emul/libgpu/GPUThreadManager.cpp:652-680 | after the launch exactly the threads of the first warps of the timed SMs may run |
| GpuScheduler.LaunchRunsExactly | emul/libgpu/GPUThreadManager.cpp:643-690 | after the distribution and the launch a thread may run if and only if it sits in the first row of an SM with timed warps; cutting the row at the SM's number of threads loses none |
| GpuScheduler.OnlyCurrentWarpsEverRun | emul/libgpu/GPUThreadManager.cpp:1325-1462 | from the launch through every sequence of timing passes and warp switches, a thread whose pause word is 0 belongs to its SM's current warp |
| GpuBarrier.StepRight | emul/libgpu/GPUThreadManager.cpp:936-979 | every arrival, end of block, completion and release, of any row of any block, keeps the barrier count of a block equal to its paused threads, every warp's completion count equal to its finished threads and the number of threads of the block, if all rows of the block were added to it; a release of the block leaves none of its threads paused |
| GpuBarrier.ArriveKeepsCountIff | emul/libgpu/GPUThreadManager.cpp:936-959 | an arrival keeps the barrier count of its block equal to the paused threads in the block's rows if and only if its row was added to the block |
| GpuBarrier.ReleaseIffSettled | emul/libgpu/GPUThreadManager.h:131-135 | while the counts are right and all rows of the block were added to it, the count test succeeds if and only if the block is full and each of its threads is paused at the barrier or finished |
| GpuBarrier.ResetKeepsCountIff | emul/libgpu/GPUThreadManager.cpp:1511-1538 | the reset between passes keeps the count of a block right if and only if no thread of the current warp is paused or the warp was not added to the block |
| GpuBarrier.AllPassesAreSafe | emul/libgpu/GPUThreadManager.cpp:1511-1538 | for a block all of whose rows were added to it, over any number of passes, resets and new traces in which no reset comes upon a paused thread of the block, whatever any row does and in any order, its barrier opens exactly when the block is full and no thread of it is missing, and then all its threads go on |
| GpuBarrier.SafeIffCovered | emul/libgpu/GPUThreadManager.cpp:936-979 | all runs without such a reset, from all states with right counts, are safe for a block if and only if all its rows were added to it |
| GpuBarrier.PassEnds | emul/libgpu/GPUThreadManager.cpp:892-1165 | a pass has no more arrivals, completions and ends of blocks than running threads at its start: each of them stops a running thread, and no release starts one |
| GpuBarrierCases.BarrierOpensEarlyAfterReset | emul/libgpu/GPUThreadManager.cpp:1518-1528 | two threads, one pass, one reset: the barrier opens although one thread never reached it |
| GpuBarrierCases.ShortBlockWaits | emul/libgpu/GPUThreadManager.h:131-135 | two threads in a block of size three: both wait, and with right counts the barrier does not open |
| GpuBarrierCases.ShortBlockOpensAfterResets | emul/libgpu/GPUThreadManager.cpp:1518-1528 | the same block after two passes with a reset each: the barrier opens although one thread never reached it |
| GpuBarrierCases.ReleaseMissesRow | emul/libgpu/GPUThreadManager.cpp:962-977 | a block of two rows of which one was added: the arrival from the other row opens the barrier, and its thread stays paused with the count at zero |
| GpuLayout.KernelStartsRight | emul/libgpu/GPUThreadManager.cpp:482-487 | the rows the distribution gives an SM, with the block of a row taken from its first thread and the timed rows added to their blocks, start with right counts and no block above the block size |
| GpuLayout.BlockFits | emul/libgpu/GPUThreadManager.cpp:482-487 | the rows of a block hold at most a block's worth of threads |
| GpuLayout.CoveredIffTimed | emul/libgpu/GPUThreadManager.cpp:608-617 | all rows of a block are added to it if and only if none of them lies beyond the timed rows |
| GpuLayout.KernelIsSafe | emul/libgpu/GPUThreadManager.cpp:936-979 | from the distribution on, barrier safety of every block whose rows are all timed, over all passes without a reset upon a paused thread of the block |
| GpuLayout.RowsOfBlocks | emul/libgpu/GPUThreadManager.h:361-397 | every whole block takes as many rows as its threads need, starting a new row |
| GpuLayout.AllCoveredIffAllTimed | emul/libgpu/GPUThreadManager.cpp:608-617 | for a kernel of whole blocks on one SM, all rows of all blocks are added to them if and only if all rows are timed |
| GpuLayout.LastRowLeftOut | emul/libgpu/GPUThreadManager.h:206-220 | three blocks of 48 threads on 32 columns take six rows, of which five are timed, so some block is not covered |
| GpuTiming.DoGood | emul/libgpu/GPUThreadManager.cpp:842-1272 | every action of an SM (visits to slots, the end of a round, a switch of warps, the test of a waiting warp, a reset) keeps the ties for a block: right counts, a warp that is complete or waits has no thread left to run, `warp_blocked` counts no more than the paused threads once the round is over, and an SM outside of a round is at a waiting warp only if all warps of the set are complete or wait |
| GpuTiming.EndGood | emul/libgpu/GPUThreadManager.cpp:1176-1212 | the decision after the last slot marks a warp waiting or complete only if all its threads are paused or finished, also when `warp_blocked` was set to the block size by a release |
| GpuTiming.SwitchScheduled | emul/libgpu/GPUThreadManager.cpp:1346-1448 | a switch ends at a waiting warp only when every warp of the set is complete or waits, and never at a waiting warp of a new set |
| GpuTiming.TestOpensIffFull | emul/libgpu/GPUThreadManager.cpp:842-870 | the test of a waiting warp, in any state with those ties, succeeds if and only if the warp's block is full |
| GpuTiming.EveryTestOpensIffFull | emul/libgpu/GPUThreadManager.cpp:842-870 | over every run of an SM without a reset upon a paused thread of the block, for a block whose rows were all added to it and lie in one warpset: every test succeeds when the block is full, and every test fails when it is not |
| GpuTimingCases.ShortBlockGetsStuck | emul/libgpu/GPUThreadManager.cpp:868-870 | a block of one thread with room for two: a run of five actions ends with a test that fails |
| GpuTimingCases.SplitBlockGetsStuck | emul/libgpu/GPUThreadManager.cpp:868-870 | a full block with one warp in each of two warpsets: the same run ends with a test that fails |
| GpuSets.RowInGroup | emul/libgpu/GPUThreadManager.h:361-397 | block number j of a kernel on one SM takes rows of the group number j, each group having as many rows as a whole block |
| GpuSets.AllTimedIff | emul/libgpu/GPUThreadManager.h:206-220 | the timed warps of whole blocks are all their rows if and only if the empty slots of all blocks together are fewer than a warp |
| GpuSets.AllCoveredIffLittlePadding | emul/libgpu/GPUThreadManager.cpp:608-617 | so, for a kernel of whole blocks timed on one SM in one go, every row is added to its block if and only if those empty slots are fewer than a warp |
| GpuSets.BlocksStayTogetherIff | emul/libgpu/GPUThreadManager.h:222-224 | for a kernel on one SM, no block is split over two warpsets if and only if one set holds all rows or the number of concurrent warps is a multiple of a block's rows |
| GpuSets.OccupancyKeepsTogether | emul/libgpu/GPUThreadManager.h:427-438 | with the number of concurrent warps that the occupancy calculation gives, cut down to the number of rows, no block is split |
| GpuSets.FullIffWhole | emul/libgpu/GPUThreadManager.h:361-397 | a block has as many threads as the block size if and only if the kernel has threads up to its end |
| GpuSets.ShareTestsOpenIffFull | emul/libgpu/GPUThreadManager.cpp:842-870 | on every SM as the distribution leaves it, the tests of a block whose rows are timed and share a warpset succeed exactly if it is full |
| GpuSets.KernelTestsOpenIffWhole | emul/libgpu/GPUThreadManager.cpp:842-870 | from the launch on one SM with the computed occupancy: the tests of a covered block all succeed if the kernel has all threads of the block, and all fail otherwise |
| AHash.Hash | emul/libscqemu/ahash.h:51-54 | every address has a slot of the table |
| AHash.HashBits | emul/libscqemu/ahash.h:51-54 | bit i of the slot number, below seven, is bit i of the address exclusive-or bit i + 5 |
| AHash.SlotMeansHistory | emul/libscqemu/ahash.cpp:59-106 | the fields of a slot say who marked it last since it was cleared, and whether a conditional store has passed since then |
| AHash.SequentialIsRight | emul/libscqemu/ahash.cpp:65-95 | run one at a time, setSC is true exactly when the latest mark (an insert or a marking store) or remove is a mark by the caller, and checkSC only if in addition some setSC passed since the last remove |
| AHash.StepInv | emul/libscqemu/ahash.cpp:42-106 | every single compare-and-swap or field access of any flow keeps the locks, the critical sections and the slot contents in step |
| AHash.EveryRunIsRight | emul/libscqemu/ahash.cpp:42-106 | in every interleaving at most one flow is inside a slot's critical section, and every answer is that of the operations run one at a time in the order they finished, so the one the slot's history calls for |
| AHashProgress.OwnedStep | emul/libscqemu/ahash.cpp:42-57 | a lock is held only while some flow is inside its critical section |
| AHashProgress.InsideFinishes | emul/libscqemu/ahash.cpp:59-106 | a flow inside a critical section is done after at most four moves of its own: the lock is free, its operation is logged with the answer of the sequential meaning, and no other flow, lock or log has changed |
| AHashProgress.EveryOperationCanFinish | emul/libscqemu/ahash.cpp:42-106 | no interleaving ends in a deadlock: every flow with an operation under way has a continuation of at most nine moves that finishes and logs it |
| AHash.CheckedIff | emul/libscqemu/ahash.cpp:81-95 | checkSC answers yes to the flow that marked the slot last if and only if it completed a conditional store since its mark, or a store had already passed when it marked the slot |
| AHash.CheckStandsForOwnStoreIff | emul/libscqemu/ahash.cpp:59-95 | after a mark, every later yes stands for a store of the flow's own, until the next mark or remove, if and only if no store had passed on the slot before the mark |
| AHash.CheckWithoutOwnStore | emul/libscqemu/ahash.cpp:81-95 | a history, answered as the code answers, in which checkSC is true for a flow that never completed a conditional store |
| Micro.ExecValid | emul/libscqemu/scstate.h:116-131 | every micro-op, with the value and the flag it writes, keeps register 0 at zero, program registers in 32 bits and memory in bytes |
| Micro.RunKeeps | emul/libscqemu/scstate.h:116-131 | a run changes no register and no flag that is not the destination of one of its micro-ops |
| Micro.WordsRoundTrip | emul/libscqemu/ProgramStandAlone.cpp:584-626 | words stored little-endian one after the other read back as stored |
| Micro.StoresRun | emul/libscqemu/sccore.cpp:3622-3634 | a run of stores through the address temporary writes the registers' values to consecutive words and changes no register but the temporary |
| Micro.LoadsRun | emul/libscqemu/sccore.cpp:3583-3588 | a run of loads fills the registers from consecutive words and changes no other register but the temporary |
| ThumbMultiple.PushRun | emul/libcrack/Thumb16Crack.cpp:1008-1047 | the micro-ops of PUSH store the registers in list order in consecutive words ending below the old stack pointer, lower it by four per register, and change no register or flag besides the stack pointer's and the temporary's (section A8.6.123) |
| ThumbMultiple.PopRun | emul/libcrack/Thumb16Crack.cpp:1084-1118 | the micro-ops of POP fill the registers from consecutive words at the stack pointer and raise it past them; no register or flag outside these and the temporary changes (section A8.6.122) |
| ThumbMultiple.PopPcRun | emul/libcrack/Thumb16Crack.cpp:1100-1115 | with PC in the list the word above goes to the program counter with bit 0 cleared, and bit 0 decides the instruction set; only the registers this writes change, or their flags |
| ThumbMultiple.PopUndoesPush | emul/libcrack/Thumb16Crack.cpp:1008-1119 | a POP of the pushed list, from any state with the stack as PUSH left it, restores the registers and the stack pointer and leaves the rest |
| ThumbMultiple.PopPcReturns | emul/libcrack/Thumb16Crack.cpp:1008-1119 | PUSH with LR and POP with PC: registers and stack pointer are restored, control goes where LR pointed, and nothing else is written but the temporaries and the instruction-set flag |
| ThumbCrack.RegListMeans | emul/libcrack/Thumb16Crack.cpp:1029-1043 | the list a loop visits is in ascending order exactly the registers whose bit is set |
| ThumbCrack.ClearLowest | emul/libcrack/Thumb16Crack.cpp:1021-1022 | `x &= x - 1` removes exactly one set bit |
| ThumbCrack.CountRegisters | emul/libcrack/Thumb16Crack.cpp:1021-1022 | the counting loop returns the length of the register list |
| ThumbCrack.CrackPush | emul/libcrack/Thumb16Crack.cpp:1008-1047 | the loop emits the PUSH sequence of the low registers, with LR last when bit 8 is set, and nothing for an empty list |
| ThumbCrack.CrackPop | emul/libcrack/Thumb16Crack.cpp:1060-1119 | the loop emits the POP sequence of the low registers, with the jump when bit 8 is set, and nothing for an empty list |
| ThumbCrack.LowRegsAre | emul/libcrack/Thumb16Crack.cpp:1029-1043 | the low registers of a list are, in ascending order, exactly those whose bit is set |
| ThumbCrack.PushCodeRun | emul/libcrack/Thumb16Crack.cpp:1008-1047 | the emitted PUSH puts the listed low registers, and LR above them when bit 8 is set, in consecutive words below the old stack pointer, changes no other byte, and leaves the stack pointer at the first |
| ThumbCrack.PopCodeRun | emul/libcrack/Thumb16Crack.cpp:1060-1119 | the emitted POP without PC fills the listed registers from consecutive words at the stack pointer and raises it past them, whatever the stack holds |
| ThumbCrack.PopPcCodeRun | emul/libcrack/Thumb16Crack.cpp:1060-1119 | with PC, the word above them decides where control goes and in which instruction set |
| ThumbCrack.PopCodeUndoesPushCode | emul/libcrack/Thumb16Crack.cpp:1008-1119 | for every register list, with or without LR and PC, what CrackPop emits undoes what CrackPush emits, and writes nothing else but the temporaries, with PC also the instruction-set flag |
| ThumbBlock.StmRun | emul/libcrack/Thumb16Crack.cpp:1174-1214 | STM stores the registers, with the values they had before, in consecutive words from the base on and moves the base past them; no other register or flag changes but the temporary's |
| ThumbBlock.CrackStm | emul/libcrack/Thumb16Crack.cpp:1174-1214 | the loop emits, for every base and list, the micro-ops that StmCodeRun is about |
| ThumbBlock.StmCodeRun | emul/libcrack/Thumb16Crack.cpp:1174-1214 | the emitted STM puts the registers whose bit is set, lowest first, in consecutive words from the base on, changes no other byte, and leaves the base four per register further; an empty list does nothing |
| ThumbBlock.CrackLdm | emul/libcrack/Thumb16Crack.cpp:1215-1261 | the loop emits the LDM sequence of the list, with write-back unless the base is in it |
| ThumbBlock.LdmOffByOne | emul/libcrack/Thumb16Crack.cpp:1238-1257 | without R0 in the list every register gets the word after its own |
| ThumbBlock.LdmWhenRight | emul/libcrack/Thumb16Crack.cpp:1238-1257 | with R0 in the list, and not as base of a longer one, LDM loads consecutive words from the base and writes the base back |
| ThumbBlock.LdmKeeps | emul/libcrack/Thumb16Crack.cpp:1215-1261 | right or wrong, LDM changes no register or flag outside the base, the temporary and the listed registers |
| ThumbBlock.LdmRightIff | emul/libcrack/Thumb16Crack.cpp:1238-1257 | LDM is right in every state if and only if R0 is in the list and is not the base of a longer list |
| ThumbBlock.LdmCodeRun | emul/libcrack/Thumb16Crack.cpp:1215-1261 | the emitted LDM, for a list with R0 that R0 is not the base of, gives the registers whose bit is set consecutive words from the base on and moves a base that is not loaded |
| ThumbBlock.LdmCodeOffByOne | emul/libcrack/Thumb16Crack.cpp:1215-1261 | for every other list without R0 each register gets the word after its own |
| ThumbBlock.LdmCodeRightIff | emul/libcrack/Thumb16Crack.cpp:1215-1261 | in terms of the instruction's bits: the emitted LDM is right in every state if and only if bit 0 is set and the base is not R0 or R0 is all that is loaded |
| ItBlocks.AdvanceShifts | emul/libcrack/Thumb16Crack.cpp:1127-1149 | the reference machine is ITAdvance of section A2.5.2: the low five bits shift left, the upper three stay, and all is cleared after the last instruction |
| ItBlocks.PushedIsComing | emul/libcrack/Thumb16Crack.cpp:1131-1148 | for every first condition and mask, the conditions pushed are those ITSTATE will give, last one first |
| ItBlocks.StepTracks | emul/libcrack/Thumb16Crack.cpp:42-49 | each instruction gets the condition ITSTATE gives it, and the vector goes on following ITSTATE if and only if the instruction is not an IT met inside a block under "always" |
| ItBlocks.EveryConditionIsItstates | emul/libcrack/Thumb16Crack.cpp:42-49 | over every run without such an IT all conditions are ITSTATE's, and at most four are pending |
| ItBlocks.MisplacedItGrows | emul/libcrack/Thumb16Crack.cpp:1127-1149 | with such ITs the vector grows by three each, without bound |
| ItBlocks.ItBlock.TakeCondition | emul/libcrack/Thumb16Crack.cpp:42-49 | pops the pending condition, or gives "always" |
| ItBlocks.ItBlock.Expand | emul/libcrack/Thumb16Crack.cpp:1123-1149 | one expansion changes the vector as the specification step does |
| GuestBrk.PageAlignUpIs | emul/libscqemu/ProgramStandAlone.h:22-24 | the macro gives the least page boundary at or above its argument, or 0 when 32 bits cannot hold it |
| GuestBrk.AlignFromPage | emul/libscqemu/arm_syscall.cpp:749-762 | rounding the distance from a page boundary and rounding the address agree |
| GuestBrk.BrkKeepsIff | emul/libscqemu/arm_syscall.cpp:723-770 | a request keeps the end of the segment at the page boundary, the boundary aligned and the break between the original break and it, if and only if it does not get memory above the last page boundary |
| GuestBrk.BrkKeepsBytes | emul/libscqemu/arm_syscall.cpp:733-763 | bytes below both the old and the new break are not changed |
| GuestBrk.BelowOriginalNeverChanges | emul/libscqemu/arm_syscall.cpp:730-731 | over every run the original break, the segment start and every byte below the original break stay |
| GuestBrk.HeapIsBacked | emul/libscqemu/ProgramStandAlone.cpp:85-86 | over every run from loading on, every address of the segment below the break maps into the data buffer |
| GuestBrk.GrowthIsClearIff | emul/libscqemu/arm_syscall.cpp:734-742 | the bytes a larger break exposes read as zero for every earlier content and every realloc if and only if the break stays in its page |
| GuestBrk.BrkAnswers | emul/libscqemu/arm_syscall.cpp:723-770 | zero and requests below the original break answer the break and change nothing; a request below the page boundary or with memory moves the break to its argument and answers it; any other answers -1 and changes nothing |
| GuestBrk.BreakIsLastAccepted | emul/libscqemu/arm_syscall.cpp:723-770 | over every run in range the break is the argument of the last accepted request, or the original break, and the page boundary is the one at or above the greatest accepted argument |
| GuestBrk.EveryAnswer | emul/libscqemu/arm_syscall.cpp:723-770 | every answer of every run in range, from the requests alone: brk(0) answers the last accepted argument, a request is accepted exactly below the boundary of the greatest argument accepted before or with memory, and answers its own argument or -1 |
| GuestBrk.Program.constructor | emul/libscqemu/arm_syscall.cpp:535-539 | loading establishes the invariant, with the break at the end of the segment |
| GuestBrk.Program.DoBrk | emul/libscqemu/arm_syscall.cpp:723-770 | the whole new state and the answer, with a failed allocation changing nothing, and the invariant kept exactly when the request does not wrap |
| FlowIds.Scan | emul/libqemuint/QEMUEmulInterface.cpp:118-135 | a pass finds the caller's last id if it has the status looked for, else the lowest id that has it |
| FlowIds.ChoiceIsFree | emul/libqemuint/QEMUEmulInterface.cpp:111-152 | the id chosen was free, and there is one exactly when any id is free |
| FlowIds.ChoiceIsUnique | emul/libqemuint/QEMUEmulInterface.cpp:111-152 | last id if free, else lowest freed, else lowest unused: this fixes the choice |
| FlowIds.NoTwoHoldersEver | emul/libqemuint/QEMUEmulInterface.cpp:111-163 | over every run of requests and returns by holders no id ever has two holders |
| FlowIds.ReturnedIdComesBack | emul/libqemuint/QEMUEmulInterface.cpp:111-163 | a flow that gives its id back and asks again gets it, and the pool is as it was |
| FlowIds.UsedBeforeUnused | emul/libqemuint/QEMUEmulInterface.cpp:137-150 | when the caller's last id is not free, an id that was in use before is handed out in front of all unused ones |
| FlowIds.FlowPool.constructor | emul/libqemuint/QEMUEmulInterface.cpp:43-53 | ids of the emulator's type are free except id 0, the others are not in the pool |
| FlowIds.FlowPool.GetFid | emul/libqemuint/QEMUEmulInterface.cpp:111-152 | hands out the right choice, which nobody held, and marks only it as taken |
| FlowIds.FlowPool.FreeFid | emul/libqemuint/QEMUEmulInterface.cpp:154-163 | takes a held id back and marks only it as freed |

## Left out

- DInsts.DInstPool.AddSrc: instructions are entries of a pool and pointers are numbers, so one object under two C++ pointers is not modelled beyond equality of numbers.
- PsliceCollector.PsliceConstructor.RecieveInstruction: windows and records are values, so sharing and deletion of Pslice objects are not modelled; a stored set is a mathematical set and is visited in any order.
- EmuDInstQueues.EmuDInstQueue.AdjustTrace: the assertion that the ring stays below 64K entries and the 32-bit width of the cursors are not modelled.
- GpuScheduler.Sm.FindNextWarp: assumes that the rows of the current set and the first row of the next exist; a last warpset with fewer rows than the concurrent warp count makes the code read past its vectors, which has no defined result to model.
- GpuScheduler.Sm.Switch2NextWarp: assumes warp rollover, and that the rows of the current set and the first row of the next exist, outside of which the code reads past its vectors.
- GpuScheduler.SwitchOn: the same two assumptions as `GpuScheduler.Sm.Switch2NextWarp`.
- GpuScheduler.OnlyCurrentWarpsEverRun: a timing pass may pause any threads and change statuses freely, but assumes the GPU kernel itself does not clear pause words; rabbit (fast-forward) mode and the instruction and trace offsets are not modelled.
- GpuLayout.KernelStartsRight: the block array is that of one SM; chunks are whole blocks, so no block spans two SMs.
- GpuBarrier.AllPassesAreSafe: the order in which a pass visits threads is free, so FIFO blocking and the bookkeeping of the last active column are not modelled. A new trace (`Retraced`) never gives a finished thread a block, although `switch2nextwarp` clears the pause words of all threads of a warp, finished ones included: that the GPU kernel leaves a finished thread's trace at block 0 is assumed.
- GpuBarrier.ArriveKeepsCountIff: rows whose block number lies beyond the block array, which sampling makes possible, do not act, because the code would index past the array.
- GpuTiming.EveryTestOpensIffFull: which slots a round visits and how many threads it counts as done are free, so every order the code can take is among the runs; switches to a last warpset with fewer rows than the concurrent warp count are excluded, because the code reads past its vectors there, and so is the power-off of finished SMs. That a split block gets stuck is shown on one run, not for every split.
- GpuSets.KernelTestsOpenIffWhole: a kernel on one SM, with columns as wide as a warp; for several SMs `GpuSets.ShareTestsOpenIffFull` takes the warpset of the block as given.
- AHash.EveryRunIsRight: the global `marked` counter, which no lock protects, is a free input of ordinary stores; `insert_nolock` occurs only under the slot lock, as in `insert` and the ordinary stores.
- AHashProgress.EveryOperationCanFinish: a finishing continuation exists; that the host's scheduler takes it is not modelled, since the spin lock is not fair.
- Micro.ExecValid: of the condition codes only the zero flag is modelled, the one the modelled micro-ops read.
- ThumbMultiple.PushRun: stack pointers that wrap around zero during the instruction are excluded; addresses are used with bit 0 cleared, as the micro-op executor does.
- ThumbBlock.StmRun: a base that wraps during the instruction is excluded; the conditional forms inside IT blocks, which put a branch in front, are not modelled.
- ThumbBlock.StmCodeRun: the same two exclusions as `ThumbBlock.StmRun`; they hold for `ThumbBlock.LdmCodeRun` and `ThumbCrack.PushCodeRun` too.
- GuestBrk.EveryAnswer: runs go on only while no request above the last page boundary gets memory, after which the invariant of the break is gone (`GuestBrk.BrkKeepsIff`).
- GuestBrk.HeapIsBacked: only the data segment of `g2h`; the other segments lie apart from it.
- Timing's statistics, sampling, FIFO and decode paths, `addTimingThreads` for an SM that takes only part of the threads, and the CPI and time floats.
- `PsliceMemoryMap`, target-address dumps, and the p-slice files written for later runs.
- `QEMUReader` and `GPUReader`, which rest on a thread-safe FIFO and samplers.
- The other Thumb, ARM and SPARC instructions and the other micro-ops.
- ELF loading, system calls other than brk, and GPU `.info` parsing: they would add members without state to reason about.
