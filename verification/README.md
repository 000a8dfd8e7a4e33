# Verified models of the basework storage layer

This project models the parts of basework that are hardest to get right and proves what they promise:
the block buffer cache, the LZ4 block codec, the write-back flash cache, the kernel-style fifo, the
firmware update of the boot loader, the delta-list timers, the civil-time conversion and the circular log.
`dafny verify dfyconfig.toml` checks everything.

## What the project models

**Block buffer cache** (`basework/lib/block/bdbuf.c`).

- `AvlModel`, `AvlHeap`, `BufferTree`: the non-recursive AVL tree as links between descriptors, with the
  explicit 32-slot stack of ancestors and the direction marks in the nodes. `Insert`, `Remove` and the purge
  walk are the loops of the source over these links; a ghost tree gives their meaning. `CacheTree` shows that
  the tree behaves like the set of descriptors by which the protocol below represents it.
- `CacheState`, `CacheSteps`: the shared state while the lock is free and every lock-held segment as one
  step. A step that reaches one of the fatal errors of the source, or takes a descriptor off a list that it
  is not on, yields `Fatal`. `CacheFrame`, `CacheSafety`, `CacheTransfers`, `CacheRealloc`, `CacheRecycle` and
  `CacheObtain` prove step by step that this never happens and that the invariant survives; `CacheRun` puts
  the steps of any number of threads together, `CacheDiagram` compares them with the state diagram of
  `bdbuf.h`, `CacheRequests` follows through whole runs whose block is whose, `CacheOrder` the order of the LRU
  list, and `CacheContents` what is in the buffers and on the medium. `CacheDurable` proves what a sync promises,
  `CacheService` says who gets which buffer at once and who waits, and `CacheEffects` what purge, swap-out and
  release achieve.
- `BufferGroups`: how a group's memory is cut. `SwapOut` (with `BlockOrder`): gathering, ordering and
  batching of modified buffers; `HoldTimes` says when a buffer is due; `CacheSwapOut` shows that a round of it is a
  step of the protocol.

**LZ4** (`basework/lib/lz4.c`). `Lz4Format` gives blocks their meaning, `Lz4Decode` is a reference decoder
with exactly the acceptance rules of the source, `Lz4Accepts` says what these let pass, and `Lz4Decoder` are the
imperative loops of the decoder. `Lz4Plan` is what the compressor is to emit for an arbitrary hash function, and
`Lz4Compressor` are its loops, with and without a limit of the output.

**Flash cache** (`basework/dev/blkdev.c`): `FlashState` (invariant) and `FlashCache` (the class; `ServeAll` is any run of
its clients and its timer).
**kfifo**: `Ring`, `RecordFormat`, `Fifo` (sequential, byte-exact; `ServeAll` is any run of the record mode) and
`FifoThreads` (one writer and one reader, interleaved element by element). **Boot**: `Crc`, `Boot`. **Timers**: `TimerQueue` (absolute deadlines) and
`TimerList` (the differences). **Civil time**: `CivilTime`. **Log**: `DiskLog`. `Arithmetic`, `Basics` and `Bytes` hold
what several of them need.

## Where the code differs from what one might expect

- `rtems_bdbuf_read` does not look at the state of its buffer again after the transfer. `ReadDoneExactly`
  shows that a successful read keeps the cache in order if and only if no purge has hit the buffer meanwhile,
  and `PurgeHitsRead` is a run in which one does. Runs therefore exclude exactly that event.
- A modified release that is held back while its device is synced sets MODIFIED whatever has happened to
  the buffer since. `FinishReleaseFollows` shows that this leaves the state diagram exactly if the buffer was
  purged in between; the lists and counters stay right all the same. `PurgeHitsRelease` is a run in which it is.
  The purged data is then modified data again (`CacheContents.CameBack`).
- `rtems_bdbuf_do_init` does not check that the number of smallest buffers is a multiple of those in a group. The
  descriptors that are left over get a group behind the end of the array: `InitialSafe` and `LeftOver`.
- The doubling loop of `rtems_bdbuf_bds_per_group` does not end if the number of pieces is above half of the machine
  word (`LoopEnds`). `EndsExactly` says when: 32-bit words, buffers of single bytes, and a block of over 2 GiB.
- The comment above `RTEMS_BDBUF_AVL_MAX_HEIGHT` says that a height of 32 allows for trees of between 5,704,880
  and 4,294,967,295 nodes. No tree of up to 9,227,463 nodes is higher than 32, and one node more may be too many
  (`HeightBound`, `HeightBoundIsSharp`).
- `kfifo` records: a record longer than its length prefix can say is accepted; `AppendedExactly` shows that it
  comes out again if and only if it fits the prefix.
- `__kfifo_skip_r` does not look whether there is a record. `Fifo.SkipR` holds the records behind the first one
  afterwards if and only if there was a first one; `SkipNothing` makes a new fifo unusable.
- The boot loader's check of the download reports success when a read lies outside the device; the header
  stays empty then and nothing is copied.
- The boot loader saves the header of a new firmware only in the loop that verifies it. An intact download with an
  empty image is therefore never recorded, and every boot updates again (`UpdateFirmware`, `Updated`).
- `disklog` counts the kept bytes in a 32-bit word. An input that wraps the word below the capacity makes the
  log forget bytes (`CounterWraps` gives one); `DiskLog.Input` is right if and only if the guard `Counted` holds of
  the counter, the size of the input and the capacity. A log in a partition of a single block reports success for
  every input and keeps nothing.

## Model

| member | source | states |
|---|---|---|
| AvlModel.GrownLeftCorrect | basework/lib/block/bdbuf.c:443-485 | rebalancing after growth on the left yields true balance factors, the same order, and reports exactly whether the height grew |
| AvlModel.GrownRightCorrect | basework/lib/block/bdbuf.c:486-526 | the mirror image for growth on the right |
| AvlModel.ShrunkLeftCorrect | basework/lib/block/bdbuf.c:694-746 | rebalancing after a removal on the left keeps balance and order, and reports exactly whether the height shrank |
| AvlModel.ShrunkRightCorrect | basework/lib/block/bdbuf.c:747-800 | the mirror image for a removal on the right |
| AvlModel.SizeBound | basework/lib/block/bdbuf.c:316-323 | a balanced tree of height h has at least Fib(h + 2) - 1 nodes |
| AvlModel.HeightBound | basework/lib/block/bdbuf.c:316-323 | no balanced tree of at most 9,227,463 nodes is higher than the 32 slots of the stacks |
| AvlModel.HeightBoundIsSharp | basework/lib/block/bdbuf.c:316-323 | one node more allows a tree that is too high, so the bound is exact |
| AvlModel.PreOrderPermutes | basework/lib/block/bdbuf.c:2894-2969 | preorder and key order list the same nodes, each as often |
| BufferTree.BufferTree.Search | basework/lib/block/bdbuf.c:347-368 | the search finds a buffer exactly if one with the key is in the tree, and then that one |
| BufferTree.BufferTree.Insert | basework/lib/block/bdbuf.c:378-549 | a new key enters the order at its place and nothing else changes; a duplicate yields -1 and leaves every link; balance factors stay true heights and the 32-slot stack is never overrun |
| BufferTree.BufferTree.Remove | basework/lib/block/bdbuf.c:560-825 | exactly the buffer with the key leaves the order, and it is the given one if that is in the tree, or -1 and no change; the tree stays balanced, and the stack is never overrun |
| BufferTree.BufferTree.GrowUp | basework/lib/block/bdbuf.c:438-546 | the climb after an insertion rebalances the whole tree and keeps the order |
| BufferTree.BufferTree.ShrinkUp | basework/lib/block/bdbuf.c:683-822 | the climb after a removal rebalances the whole tree and keeps the order |
| BufferTree.BufferTree.TakeSuccessor | basework/lib/block/bdbuf.c:643-662 | the in-order successor takes the place of the removed node, with its path on the stack for the climb |
| BufferTree.BufferTree.Walk | basework/lib/block/bdbuf.c:2894-2969 | the iterative walk equals recursive preorder: every node of the tree exactly once, and no other |
| BufferTree.BufferTree.Assign | basework/lib/block/bdbuf.c:1169-1184 | a recycled buffer gets its new key and place unless the block already has a buffer |
| CacheTree.Search | basework/lib/block/bdbuf.c:347-368 | the search over the links finds exactly what the look-up in the set of the protocol finds |
| CacheTree.Setup | basework/lib/block/bdbuf.c:1169-1184 | the insertion fails exactly where the protocol has its fatal error, and otherwise the tree mirrors the state after the step |
| CacheTree.Remove | basework/lib/block/bdbuf.c:983-988 | taking a descriptor of the set out of the tree never fails, and takes out exactly this one |
| CacheFrame.StepKeepsInv | basework/lib/block/bdbuf.h:184-234 | any change of one buffer and one thread that follows the rules for lists, counters, ownership and keys keeps the whole state table |
| CacheSteps.LeastRecentlyUsed | basework/lib/block/bdbuf.c:1186-1227 | the recycled buffer is the first one of the LRU list that may be taken; `CacheService.UsableExactly` says which these are |
| CacheSafety.AccessStep | basework/lib/block/bdbuf.c:1605-1635 | waiting for access is never fatal: whatever the state, the thread is granted the buffer or sleeps, and the invariant holds |
| CacheSafety.SyncDoneStep | basework/lib/block/bdbuf.c:1696-1757 | waiting for a sync is never fatal, ends exactly if the buffer is in none of the states SYNC, TRANSFER and TRANSFER PURGED, and the last waiter of an emptied buffer frees it |
| CacheTransfers.RequestDoneStep | basework/lib/block/bdbuf.c:1926-2000 | the end of a transfer, successful or not, purged meanwhile or not, keeps the invariant for every buffer of the request |
| CacheTransfers.ReadDoneExactly | basework/lib/block/bdbuf.c:2160-2174 | the end of a successful read is safe if and only if its buffer is still in state TRANSFER |
| CacheRun.PurgeHitsRead | basework/lib/block/bdbuf.c:2160-2174 | a run in which a purge hits a buffer that is being read, so that the end of the read breaks the cache |
| CacheTransfers.GatherStep | basework/lib/block/bdbuf.c:2547-2582 | moving modified and sync buffers to a transfer list is never fatal and keeps the invariant |
| CacheTransfers.PurgeStep | basework/lib/block/bdbuf.c:2874-2980 | purging a device is never fatal and keeps the invariant, in whatever order the walk meets the buffers |
| CacheRealloc.SlotAt | basework/lib/block/bdbuf.c:1147-1161 | the loop over a group visits exactly the descriptors that the group's layout makes active |
| CacheRealloc.ReallocStep | basework/lib/block/bdbuf.c:1136-1167 | a group without users has all its buffers on the LRU list, so that re-slicing it is never fatal, and re-slicing keeps the invariant |
| CacheRecycle.RecycleStep | basework/lib/block/bdbuf.c:990-1005 | taking a buffer off the LRU list for a block that nobody has is never fatal and gives it to its new owner alone |
| CacheObtain.FromLruFacts | basework/lib/block/bdbuf.c:1186-1227 | what the LRU search yields, re-sliced or not, may be recycled and has the device's buffer size |
| CacheObtain.TryGetStep | basework/lib/block/bdbuf.c:1785-1822 | getting or reading a block is never fatal, never meets a buffer of the wrong size, and ends with that very block or a wait for it |
| CacheObtain.AccessAgainStep | basework/lib/block/bdbuf.c:945-953 | a thread that wakes up still finds its own block in the buffer it waited for |
| CacheObtain.ReadAheadOneStep | basework/lib/block/bdbuf.c:1760-1783 | collecting one more buffer for a read-ahead is never fatal and keeps the invariant |
| CacheRun.ReleaseSteps | basework/lib/block/bdbuf.c:2223-2319 | releasing, releasing as modified and syncing a buffer that one holds is never fatal and keeps the invariant |
| CacheRun.StepIsSafe | basework/lib/block/bdbuf.h:184-234 | no lock-held step of any thread is a fatal error, and every step keeps the state table and the counters |
| CacheRun.InitialSafe | basework/lib/block/bdbuf.c:1394-1460 | the initialised cache satisfies the invariant if and only if no descriptor is left over, that is, the number of smallest buffers is a multiple of those in a group |
| CacheRun.LeftOver | basework/lib/block/bdbuf.c:1430-1445 | a descriptor that is left over is on the LRU list, in a group behind the last one |
| CacheRun.EveryRunIsSafe | basework/lib/block/bdbuf.h:184-234 | in every reachable state each buffer is in the tree and on the lists that its state's row names, EMPTY has a waiter, user and waiter counts are exact, and no enabled step is fatal |
| CacheRun.OneCallerPerBlock | basework/lib/block/bdbuf.h:139-142 | no block has two owners, whether they hold it, read it, give it back or transfer it |
| CacheRun.ObtainsBlock | basework/lib/block/bdbuf.c:1848-1907 | a step that grants a buffer, the end of a read included, grants one of the block that was asked for |
| CacheRequests.StepAnswered | basework/lib/block/bdbuf.c:1848-1907 | every step of any thread leaves every thread with, or waiting for, the block that it asked for last |
| CacheRequests.HoldersHaveTheirBlock | basework/lib/block/bdbuf.c:2105-2190 | in every run a caller that holds a buffer, got or read, holds the block that it asked for last |
| CacheDiagram.StepFollows | basework/lib/block/bdbuf.h:75-128 | every step moves every buffer along a path of the state diagram whose edges bear the step's labels |
| CacheDiagram.FinishReleaseFollows | basework/lib/block/bdbuf.c:1039-1070 | a held-back release follows the diagram if and only if its buffer was not purged meanwhile |
| CacheDiagram.PurgeHitsRelease | basework/lib/block/bdbuf.c:1039-1070 | a run in which a held-back release leaves the state diagram |
| CacheEffects.PurgedDevice | basework/lib/block/bdbuf.c:2971-2988 | after a purge no buffer of the device holds data that can be got, and buffers of other devices keep their states |
| CacheEffects.GatherTakes | basework/lib/block/bdbuf.c:2547-2582 | the transfer list gains exactly the buffers that are picked |
| CacheEffects.SwapOutTakes | basework/lib/block/bdbuf.c:2547-2582 | a swap-out starts to write exactly the buffers that are picked |
| CacheEffects.RequestLeaves | basework/lib/block/bdbuf.c:1966-1985 | a finished request leaves the rest of the transfer list |
| CacheEffects.RequestEnded | basework/lib/block/bdbuf.c:1966-1985 | the end of a request takes its buffers, and no others, off the transfer list |
| CacheEffects.GivenBack | basework/lib/block/bdbuf.c:2223-2319 | after giving a buffer back a caller holds nothing; it is held back exactly for modified data while the device is synced, and a sync waits for exactly that buffer unless it was purged |
| CacheService.UsableExactly | basework/lib/block/bdbuf.c:1200-1222 | a buffer of the LRU list may be recycled if and only if no thread waits on it and it has the device's size, or no buffer of its group is in use or waited on |
| CacheService.CallsAnswered | basework/lib/block/bdbuf.c:1785-1907 | a call for a cached block gets its buffer at once, in the right state, unless somebody has it or it is on its way to or from the medium; a call for another block gets an empty buffer if and only if there is one to be had, and otherwise waits for any |
| CacheService.WakesAnswered | basework/lib/block/bdbuf.c:1605-1720 | a thread that is woken up gets its buffer unless that is busy again, and a sync goes on exactly as long as its buffer is not written |
| CacheService.AheadOutcome | basework/lib/block/bdbuf.c:1760-1783 | a read-ahead takes a buffer for a block if and only if the block is not cached and a buffer is to be had |
| CacheService.AheadAnswered | basework/lib/block/bdbuf.c:2037-2058 | a read-ahead stops only at a block that is cached or for which no buffer is to be had, and has one buffer for each block before |
| CacheOrder.StepOrdered | basework/lib/block/bdbuf.h:162-167 | every step of any thread leaves the buffers without data at the front of the LRU list, the buffers that had data before in their order, and those that gain data behind them |
| CacheOrder.LeastRecentFirst | basework/lib/block/bdbuf.h:162-167 | in every run the LRU list starts with the buffers without data, and the others follow in the order of the steps in which they were last released or their transfers ended |
| CacheContents.StepRight | basework/lib/block/bdbuf.c:1926-2319 | every step of any thread leaves, in every buffer with data, what is expected of its block, and on the medium whatever no dirty buffer holds |
| CacheContents.HoldersHaveTheirData | basework/lib/block/bdbuf.h:515-608 | in every run, with transfers, failed ones and purges, a buffer that a caller holds with data has what is expected of its block; expected is what was last released as modified or synced, and what the medium has after a purge or a failed write |
| CacheContents.NothingIsLost | basework/lib/block/bdbuf.h:515-608 | in every run without purges and failed writes a caller that gets or reads a block with data gets the value that anybody last released as modified, or what the medium had in the beginning |
| CacheDurable.StepKeeps | basework/lib/block/bdbuf.c:1696-1757 | while a thread syncs a block, every step of any thread leaves the synced value, or a later one, expected of the block, and on the medium or on its way there, unless it purges the device or fails to transfer the buffer |
| CacheDurable.SyncedIsStored | basework/lib/block/bdbuf.h:610-631 | in every run, when a sync ends, the medium has the value that was synced or one released for the block since, unless the device was purged or a transfer of the buffer failed |
| BufferGroups.BdsPerGroup | basework/lib/block/bdbuf.c:1096-1113 | on machines of either word size, the doubling loop finds the smallest power of two that is large enough, whenever it ends |
| BufferGroups.LoopEnds | basework/lib/block/bdbuf.c:1107-1110 | the doubling reaches the number of pieces if and only if that is at most half of the machine word |
| BufferGroups.EndsExactly | basework/lib/block/bdbuf.c:1105-1110 | so it ends except with 32-bit words, buffers of single bytes and a block of over 2 GiB |
| BufferGroups.LargeEnough | basework/lib/block/bdbuf.c:1096-1113 | whenever the number of buffers per group is not zero, each buffer has at least the bytes of a block |
| BufferGroups.SuitedIsLargeEnough | basework/lib/block/bdbuf.c:1136-1167 | a buffer that the cache grants for a device holds a whole block of it |
| BufferGroups.InsideGroup | basework/lib/block/bdbuf.c:1430-1460 | a buffer in use lies inside its group |
| BufferGroups.Disjoint | basework/lib/block/bdbuf.c:1430-1460 | no two buffers in use overlap, whatever layouts their groups have been given |
| BlockOrder.PlaceAscends | basework/lib/block/bdbuf.c:2552-2579 | inserting from the tail keeps a transfer list in strictly ascending block order |
| SwapOut.Swapper.Insert | basework/lib/block/bdbuf.c:2552-2579 | the loop over the transfer list finds the specified place |
| SwapOut.Swapper.Gather | basework/lib/block/bdbuf.c:2484-2589 | one pass over a list chooses the device, ages the timers, moves exactly the due buffers of that device and leaves the rest in order; `HoldTimes.PassTreats` says what that makes of each buffer |
| SwapOut.TakenExactly | basework/lib/block/bdbuf.c:2512-2587 | what a pass takes is due and on the device, what it leaves is not, and none is lost |
| HoldTimes.PassTreats | basework/lib/block/bdbuf.c:2512-2548 | a pass leaves a buffer nothing of its hold time if a thread waits for a buffer or its device is synced; otherwise the time less what has passed, on a timer pass, or else all of it; with nothing left, and of the device that is written, the buffer is taken, and otherwise it stays |
| HoldTimes.HeldUntilDue | basework/lib/block/bdbuf.c:2512-2548 | over any number of timer passes a buffer stays in the list with what remains of its hold time, until a pass takes it, which one does if and only if the whole time has passed and the buffer is of the device that is written |
| HoldTimes.DueAfter | basework/lib/block/bdbuf.c:2524-2530 | with a steady timer a buffer is due from the pass on whose number is the hold time over the period, rounded up |
| SwapOut.Swapper.Collect | basework/lib/block/bdbuf.c:2607-2672 | one round looks at the sync list first, which may choose the device, and then at the modified list |
| SwapOut.RoundInOrder | basework/lib/block/bdbuf.c:2607-2672 | a round gathers the due buffers of one device in strictly ascending block order; an empty transfer list means that nothing was due |
| HoldTimes.RoundForces | basework/lib/block/bdbuf.c:2607-2672 | a round takes every buffer of a device that is synced, and while a thread waits for a buffer or everything is synced it takes nothing only if there is nothing to take |
| CacheSwapOut.ViewsDistinct | basework/lib/block/bdbuf.c:2484-2589 | in a cache that is in order no two of the buffers that wait to be written have the same block |
| CacheSwapOut.RoundIsStep | basework/lib/block/bdbuf.c:2607-2672 | a round of the swap-out is a step of the protocol: its transfer list is that of the step, in strictly ascending block order, and it leaves the sync and the modified list as the step does |
| SwapOut.Swapper.Write | basework/lib/block/bdbuf.c:2368-2468 | the write loop ends although it pushes buffers back, and cuts the list into non-empty requests within the limit, consecutive where the driver needs it, none shorter than necessary |
| Lz4Format.RepeatUnique | basework/lib/lz4.c:2103-2150 | a match copy is determined by its period: any buffer with it equals the copy made byte by byte |
| Lz4Decode.DecodeInvertsEncode | basework/lib/lz4.c:1929-2159 | every block that obeys the parsing restrictions decodes to what it stands for, into any buffer that has room for it, and is refused by every smaller one |
| Lz4Accepts.AcceptsOnlyBlocks | basework/lib/lz4.c:1929-2159 | what the decoder accepts is a row of sequences and last literals, written as the format says; each match starts within the output, or has offset 0, and leaves room for the last literals unless the shortcut copied it; the output is what they stand for |
| Lz4Decoder.WildCopy8 | basework/lib/lz4.c:407-415 | 8-byte strides copy what is asked for, write no further than the next stride, and stay inside the buffer |
| Lz4Decoder.ShortChunk | basework/lib/lz4.c:417-418 | for every offset below 8 the two tables make the first 8 bytes periodic and leave a source at least 8 behind |
| Lz4Decoder.CopyTail | basework/lib/lz4.c:2137-2146 | near the end of the buffer the copy is clipped and finished byte by byte, without a write past the end |
| Lz4Decoder.CopyMatch | basework/lib/lz4.c:2103-2150 | the chunked copy equals the overlapping byte-by-byte copy for every offset and every length from 4 on, and is refused exactly if it would reach the last 5 bytes |
| Lz4Decoder.CopyEighteen | basework/lib/lz4.c:1958-1969 | the shortcut of 18 bytes equals the byte-by-byte copy |
| Lz4Decoder.ReadVariableLength | basework/lib/lz4.c:1707-1729 | the loop reads exactly the specified length, and reports the same errors at the same place |
| Lz4Decoder.CopyLiterals | basework/lib/lz4.c:1985-2052 | exact, 16-byte and wild literal copies append the literals |
| Lz4Decoder.DecodeSequence | basework/lib/lz4.c:1929-2151 | one turn of the loop is one step of the reference decoder, for every input |
| Lz4Decoder.DecompressSafe | basework/lib/lz4.c:2171-2176 | for every input the decoder returns what the reference decoder says, error position included, and never reads or writes outside its buffers; `DecodeInvertsEncode` and `AcceptsOnlyBlocks` say what that is |
| Lz4Plan.LatestExactly | basework/lib/lz4.c:736-784 | a hash stands for the last position on record that has it |
| Lz4Plan.FirstHitExactly | basework/lib/lz4.c:959-1015 | the search finds the first probe whose last recorded position of the same hash has the same 4 bytes within reach, and fails only if no probe before the end has one |
| Lz4Plan.CommonMatches | basework/lib/lz4.c:602-626 | the match length of the plan is that of the longest common run up to the limit |
| Lz4Plan.RepetitionShrinks | basework/lib/lz4.c:925-1202 | a source with a period of up to 65 bytes, in whose first period no two hashes collide and no 4 bytes are its first ones, becomes that period, one match for the rest, and 5 literals |
| Lz4Plan.EqualBytes | basework/lib/lz4.c:925-1202 | a run of n >= 13 equal bytes becomes one literal, one match and 5 literals, in at most 11 + n / 255 bytes, whatever the hash and the acceleration |
| Lz4Plan.RunsShrink | basework/lib/lz4.c:925-1202 | a source of runs of 13 or more equal bytes, each of a byte of its own, becomes one literal and one match for each run and 5 last literals, whatever the hash and the acceleration: the compressor goes on behind every match |
| Lz4Compressor.Count | basework/lib/lz4.c:602-626 | the count is the length of the common run, up to the limit, and the next byte differs |
| Lz4Compressor.FindMatch | basework/lib/lz4.c:959-1015 | whatever the hash, the search ends with the first hit of the plan, and otherwise no tested probe repeats, within reach, 4 bytes of the last recorded position of its hash |
| Lz4Compressor.CatchUp | basework/lib/lz4.c:1017-1019 | extending a match backwards keeps its distance and goes as far as it can |
| Lz4Compressor.TestNext | basework/lib/lz4.c:1148-1196 | right behind a match the last recorded position of the same hash is used if and only if it has the same 4 bytes within reach; both positions are recorded |
| Lz4Compressor.CheckedRoom | basework/lib/lz4.c:1024-1027 | with a limit of the output the check before the literals is just enough for token, length, over-copied literals and offset |
| Lz4Compressor.EncodeMatch | basework/lib/lz4.c:1064-1136 | offset and length are emitted in the format, over-copied bytes included, within the buffer; with a limit of the output it gives up if and only if there is no room for the last literals |
| Lz4Compressor.EmitSequence | basework/lib/lz4.c:1017-1136 | a sequence appends its encoding, and its match goes as far as it may before the last 5 bytes; it gives up only if the output is limited and has no room for the sequence and six bytes more |
| Lz4Compressor.PlanTooLong | basework/lib/lz4.c:1024-1105 | when a sequence does not fit, neither does the whole block |
| Lz4Compressor.SequenceSize | basework/lib/lz4.h:171 | a sequence emits at most 256/255 of the bytes it covers |
| Lz4Compressor.Room | basework/lib/lz4.h:171 | under the compression bound every byte of a sequence, and every over-copied one, fits |
| Lz4Compressor.CompressLoop | basework/lib/lz4.c:925-1202 | what has been emitted at any time is a valid sequence of sequences for what has been consumed; the loop emits the whole plan, or gives up because its block does not fit |
| Lz4Compressor.CompressFast | basework/lib/lz4.c:1284-1305 | for every input that is not too large, every buffer, every hash and every acceleration the result is the planned block if that fits, and 0 if and only if it does not; the block is valid, stands for the input, and fits whenever the buffer meets the bound; a run of equal bytes takes 10 bytes and its length extension |
| Lz4Compressor.RoundTrip | basework/lib/lz4.h:133-168 | compressing and decompressing into any buffer with room for the input restores the input, if it was compressed, which a buffer of the bound's size guarantees; a smaller buffer makes the decompression fail |
| FlashState.FlushKeeps | basework/dev/blkdev.c:98-110 | writing a dirty block to flash changes nothing that callers see, and leaves no two descriptors for a block |
| FlashState.WriteKeeps | basework/dev/blkdev.c:245-250 | bytes written into a descriptor change exactly these bytes of what callers see |
| FlashCache.FlashCache.constructor | basework/dev/blkdev.c:294-327 | the fresh cache shows what is on flash |
| FlashCache.FlashCache.SyncLocked | basework/dev/blkdev.c:85-114 | exactly the blocks whose time is up are erased, written and moved to the cached list in order; the others lose time, and the dirty list stays ordered by remaining time |
| FlashCache.FlashCache.Sync | basework/dev/blkdev.c:215-220 | after a sync flash holds everything that callers see |
| FlashCache.FlashCache.Tick | basework/dev/blkdev.c:116-125 | a block that is still dirty after a tick was dirty before with the same contents, and is one tick older |
| FlashCache.FlashCache.DirtyIsYoung | basework/dev/blkdev.c:76-97 | a dirty block is younger than the hold time, counted in ticks |
| FlashCache.FlashCache.Search | basework/dev/blkdev.c:147-178 | a hit yields the block's only descriptor; a miss a clean one that nobody needs, flushing everything first if there is none |
| FlashCache.FlashCache.Victim | basework/dev/blkdev.c:167-177 | a miss always finds a victim, and no dirty data is lost |
| FlashCache.FlashCache.ReadBlock | basework/dev/blkdev.c:190-213 | the descriptor holds what callers see, from the cache or from flash |
| FlashCache.FlashCache.Release | basework/dev/blkdev.c:134-141 | every descriptor is back on the list of its state, and the hold time of a dirty one starts anew |
| FlashCache.FlashCache.WriteInto | basework/dev/blkdev.c:127-132 | the written bytes are seen from now on, and the block is the youngest dirty one |
| FlashCache.FlashCache.Write | basework/dev/blkdev.c:222-258 | a write of any range changes exactly that range of the flat contents of that device, and no dirty block outside the range in contents or age |
| FlashCache.FlashCache.Read | basework/dev/blkdev.c:260-292 | a read of any range yields the last bytes written there, and leaves the age of every dirty block outside the range |
| FlashCache.FlashCache.ServeAll | basework/dev/blkdev.c:85-292 | over every run of reads, writes, syncs and ticks on several devices the answers are those of flat byte arrays, and every block that no call has used for so many ticks as make up the hold time is on flash |
| FlashCache.FlashCache.IdleIsFlushed | basework/dev/blkdev.c:85-125 | a block that has been idle for the hold time has no dirty descriptor, and flash holds what callers see of it |
| Fifo.Fifo.constructor | basework/kfifo.c:73-93 | a buffer of any size becomes an empty fifo of the largest power of two of elements that fits, unless that is less than two |
| Fifo.Fifo.CopyIn | basework/kfifo.c:95-117 | two copies write the elements across the end of the ring and nothing else |
| Fifo.Fifo.CopyOut | basework/kfifo.c:133-155 | two copies read the elements across the end of the ring |
| Fifo.Fifo.In | basework/kfifo.c:119-131 | as many elements as fit are appended, also when the indices wrap around the word |
| Fifo.Fifo.OutPeek | basework/kfifo.c:157-168 | the oldest elements are shown, and stay |
| Fifo.Fifo.Out | basework/kfifo.c:170-176 | the oldest elements are shown, and leave |
| Fifo.IndexWraps | basework/kfifo.c:100-117 | an index that wraps around 2^32 still points to the right place of the ring |
| RecordFormat.RoundTrip | basework/kfifo.c:193-225 | records that fit their prefix parse back to themselves |
| RecordFormat.AppendedExactly | basework/kfifo.c:232-243 | an appended record comes out again if and only if its length fits the prefix |
| RecordFormat.FirstInFirstOut | basework/kfifo.c:178-287 | in every run of calls the records leave whole, in the order in which they were stored, and none is lost |
| Fifo.Fifo.InR | basework/kfifo.c:232-243 | a record is stored whole, prefix included, or not at all, also across the end of the ring; the fifo then holds one record more if and only if the length fits the prefix |
| Fifo.Fifo.OutPeekR | basework/kfifo.c:257-266 | the bytes behind the prefix at the read index are shown, as many as it says, and stay; in a fifo of records they are the beginning of the next one |
| Fifo.Fifo.OutR | basework/kfifo.c:268-279 | as `OutPeekR`, and the read index passes the record: a short read truncates only this one, and the fifo then holds exactly the records behind it; the fifo stays valid if and only if the record is there |
| Fifo.Fifo.SkipR | basework/kfifo.c:281-287 | exactly the next record leaves if there is one; afterwards the fifo holds the records behind the first if and only if there was a first |
| Fifo.Fifo.Serve | basework/kfifo.c:178-287 | one call of the record mode follows the queue of records if and only if it stores no overlong record and does not skip on an empty fifo |
| Fifo.Fifo.ServeAll | basework/kfifo.c:178-287 | any run of such calls answers like the queue of whole records and leaves a fifo that holds it |
| FifoThreads.StepKeeps | basework/kfifo.h:342-343 | every step of either thread keeps writer and reader out of each other's elements, however old their view of the other index is |
| FifoThreads.EveryRunDelivers | basework/kfifo.h:342-343 | in every interleaving what is delivered is a prefix of what was accepted, and occupancy never exceeds the size |
| FifoThreads.RoomIsUsed | basework/kfifo.c:28-31 | a writer gets accepted as much as is free when it looks |
| FifoThreads.StockIsUsed | basework/kfifo.c:157-168 | a reader gets as much as is there when it looks |
| Crc.FourAtOnce | basework/boot/boot.c:52-64 | one look-up in the table of 16 entries does what four bit steps with 0xedb88320 do |
| Crc.TwoLookUps | basework/boot/boot.c:60-64 | the two look-ups for a byte equal eight bit steps |
| Crc.Update | basework/boot/boot.c:49-66 | the table-driven loop computes the bitwise CRC-32 |
| Crc.Chunked | basework/boot/boot.c:88-99 | the checksum of an image may be computed chunk by chunk |
| Boot.Board.NeedsUpdate | basework/boot/boot.c:139-175 | with a download and information on record, the decision is for an update if and only if the device ids are equal and the checksums differ; without a record a download is enough, and without a download there is none |
| Boot.Board.IsValid | basework/boot/boot.c:68-109 | exactly an intact download is accepted with its header; one that the device cuts off is accepted without |
| Boot.Board.Copy | basework/boot/boot.c:220-250 | the copy loop leaves everything from the saved information on alone, and copies the image on sound flash |
| Boot.Board.SaveHeader | basework/boot/boot.c:177-202 | only the block of the saved information changes |
| Boot.Board.CopyDecomp | basework/boot/boot.c:207-288 | however it ends, an update is still needed or the run region has the checksum of the download; after a failure it is still needed; an empty image changes nothing |
| Boot.Board.UpdateFirmware | basework/boot/boot.c:359-373 | a loss of power anywhere leaves a state that the next boot repairs or may run, again and again; flash stays as it is without a download, with one for another device than that on record, and with the one on record; on sound flash any other intact download that is not empty is installed and its header recorded |
| TimerQueue.RunInOrder | basework/lib/timer/timer_list.c:72-112 | whatever callbacks do, no timer fires early and none that is due remains; if no callback sets a time in the past, they fire in the order of their deadlines |
| TimerQueue.RunFires | basework/lib/timer/timer_list.c:72-112 | whatever callbacks do to other timers, a timer fires exactly at its deadline and, if it adds itself again, at every period after it up to now |
| TimerQueue.WithoutTimes | basework/lib/timer/timer_list.c:52-70 | taking a timer out leaves the times of all others |
| TimerList.TimerList.Add | basework/lib/timer/timer_list.c:26-50 | an armed timer is refused; otherwise it is placed by its deadline, behind equal ones, and no other deadline changes, for negative times too |
| TimerList.TimerList.Remove | basework/lib/timer/timer_list.c:52-70 | the timer is taken out, its time goes to the one behind it, and no other deadline changes |
| TimerList.TimerList.Modify | basework/lib/timer/timer_list.c:122-129 | the timer is armed anew, and no other deadline changes |
| TimerList.TimerList.Schedule | basework/lib/timer/timer_list.c:72-112 | after time t exactly the timers of the specified run have fired, in its order, with callbacks that add, delete and modify any timers; the rest is due as specified, and the result is the time to the next |
| CivilTime.DaysExact | basework/dev/clock_base.c:31-66 | for every day, before 1970 too, the date is the Gregorian date of that day, with the right day of week and of year |
| CivilTime.TimeExact | basework/dev/clock_base.c:75-90 | every instant becomes a valid time that means exactly this instant |
| CivilTime.RoundTrip | basework/dev/clock_base.c:75-90 | every valid time is the conversion of the instant that it means |
| CivilTime.YearOfEraRight | basework/dev/clock_base.c:36-40 | the closed form with four divisions finds the year of the 400-year era |
| CivilTime.PosixFormula | basework/dev/clock_base.c:75-90 | from 1970 on the fields satisfy the seconds-since-the-Epoch formula of POSIX.1-2017, XBD section 4.16 |
| DiskLog.DiskLog.constructor | basework/lib/disklog.c:51-62 | a reset log is empty, and consists of the whole blocks behind the header; without such a block it holds nothing |
| DiskLog.DiskLog.Input | basework/lib/disklog.c:95-130 | inputs of any size, also larger than the log, extend the history, and the offsets stay inside the log; it then holds exactly the last bytes if and only if the 32-bit counter does not wrap to a wrong value |
| DiskLog.CounterWraps | basework/lib/disklog.c:119-123 | a size of an input after which a log of 8192 bytes forgets all but 96 bytes |
| DiskLog.DiskLog.Output | basework/lib/disklog.c:132-174 | the callback gets, in order and in pieces of at most the given size, the bytes that offset and counter stand for, around the end of the log; these are exactly the last bytes of the history unless the counter has wrapped to a wrong value; if it refuses a piece the output ends there |

## Left out

- Buffer cache: the block size of a device does not change while buffers are in use, so a cached buffer of the wrong size never occurs; the branch for it yields `Fatal` and is proved unreachable.
- Buffer cache: the protocol is a state machine over values and not a class, because its subject is what may happen between two lock-held segments; the tree, the fifo, the swap-out and the other parts are imperative.
- Buffer cache: the protocol sees the tree as a set of descriptors, and `CacheTree` joins the two operation by operation; the node limit of the stacks bounds the number of descriptors there, but not in the protocol.
- Buffer cache: condition variables are modelled as wake-ups at any time, so liveness (who is woken, and when) is not covered; whether a sync of a device is active is a free choice at each release.
- Buffer cache: the contents of a buffer are one value, which a caller changes at the moment it releases the buffer as modified or syncs it; a block of the medium changes when a write ends, in any way if it fails.
- Buffer cache: in the protocol the swap-out may pick any buffers at any time, and `HoldTimes` says which it picks when; statistics, tracing, swap-out workers and the read-ahead triggers are not modelled.
- CacheRun.EveryRunIsSafe: starts from a cache in which no descriptor is left over; `InitialSafe` says that any other is not in order from the start.
- Buffer cache: re-slicing a group puts its first buffer on the LRU list and takes it off again in the same step, where the source hands it over directly.
- CacheRun.Enabled: excludes a successful end of a read whose buffer was purged meanwhile, because the source does not check for it; `ReadDoneExactly` says what happens otherwise.
- Swap-out: keys, devices and timers of the buffers are modelled, the driver is not; a limit of zero blocks per request is taken as the source takes it, one buffer at a time.
- LZ4: dictionaries, streaming, partial decoding, `fillOutput` and the fast decoding loop are not modelled; positions are indices, so pointer overflow and null pointers do not occur, and the hash is any function of the 8 bytes at a position.
- Lz4Accepts.AcceptsOnlyBlocks: is stated for inputs of less than 16 MiB, in which no sum of length bytes can wrap around; `Decode` has the wrap-around.
- Flash cache: devices work and have a whole number of blocks below 4 GiB; error paths, statistics and the interleaving of several callers between two blocks of one transfer are not modelled.
- kfifo: the element-by-element interleaving assumes that memory is sequentially consistent (the barrier of the source is empty by default); `__kfifo_alloc` and `__kfifo_free` are not modelled.
- Fifo.Fifo.OutR: like `OutPeekR`, does not describe a read of more bytes than the ring has, which a prefix that is no length may ask for; the source then reads behind its buffer.
- Boot: reads of flash are reliable and every region is in one device, as configured; an erase or write either fails before it starts, completes, or is cut by a loss of power. Environment variables, recovery and progress reports are not modelled, and the image must end before the saved information.
- TimerList.TimerList.Schedule: callbacks do finitely many operations, as in every call that returns; a timer that adds itself again does so with a positive period. Locking is not modelled.
- Civil time: `int` overflow of the year for times beyond some 2^31 years is not modelled, nor is the overflow of `z - 86399` for the first 86,399 seconds of the range of `vtime_t` (with a 32-bit `long`, times in December 1901).
- Log: the device works, and the partition has at least the block of the header; `disklog_read` is not modelled, nor is the header that is saved on flash.
