# A verified model of the dynamic scheduler and its cache simulator

This project models the core of a cycle-level simulator of an out-of-order
processor pipeline. The simulator has three parts:

- **The cache engine** (`cache.c`). A cache has a configuration: size,
  associativity, block size, LRU or LFU replacement, and write-back with
  write-allocate or write-through without it. It holds a tag store of sets
  of ways. An optional victim cache sits beside it, and a next level sits
  below it.
- **The dynamic scheduler** (`ds.c`). It models a pipeline with the stages
  fetch, dispatch, issue, execute and write-back, plus a fake reorder
  buffer (ROB). Registers are renamed through a ready bit and a map table.
  An L1 and an L2 cache give loads their latency.
- **The linked list** (`fifo.c`). The scheduler keeps its queues in this
  list. It pushes and pops at the head (last in, first out).

All three are written in Dafny as pure functions on immutable datatypes:

- **A cache hierarchy** is a sequence of levels. Each level is a cache with
  an optional victim cache. The empty sequence is the NULL cache, which
  stands for memory.
- **An access** (`CacheEngine.Communicate`) returns the answer and the whole
  hierarchy afterwards.
  - It is defined by mutual recursion over the read and write path. That
    path covers the replacement policies, the victim probe and swap, the
    write-back of the leaving block and the refill from the next level.
  - Its contract names the way that answers, when the access is a hit,
    where the block lands, which counters move and what the rest of the
    level keeps.
- **A scheduler state** holds the instruction records in a map keyed by
  sequence number. The lists hold these numbers where the C code holds
  pointers.
- **One cycle of `dsProcess`** is a function from state to state.
  - Every stage keeps an invariant. The ROB is newest first. Each list
    entry is a record, still in the ROB, in the stage its list stands for.
    The lists have no repeats.
  - The contracts of each stage say what happens to the lists, the records
    and the register file.

The address codec is defined by digit arithmetic: the tag, the index and
the offset are successive groups of base-2 digits of the address.
`Address.DecodeShiftAndMask` proves that these are exactly the fields the
C code computes by shifting and masking. `Address.EncodeFields` proves the
same for the masked, shifted and OR-ed encoding.

The standard library is not used. `Wrappers` supplies `Option`, and
`Bits` models the C code's integer helpers (`&`, `|`, `<<`, `>>` on
naturals, and the ceiling logarithm and ceiling division of `cacheInit`).

## Model

| member | source | states |
|---|---|---|
| Bits.CreateMask | cache.c:27-34 | The mask has exactly the low nBits bits set (2^nBits - 1), and is 0 for a non-positive count |
| Bits.CeilLog2 | cache.c:71-72 | The width is the smallest k with x <= 2^k |
| Bits.CeilLog2OfPow2 | cache.c:71-72 | For a power of two, 2 raised to the computed width gives back x, so the field spans exactly x values |
| Bits.CeilDiv | cache.c:62 | The set count is the ceiling of size / (assoc * blockSize): enough blocks to cover the size, less than one block over |
| Bits.CeilDivBounds | cache.c:121 | One way fewer would not cover the victim's size, and a positive size needs at least one way |
| Bits.AndLowMask | cache.c:36-39 | AND with a low-bits mask keeps the value modulo 2^n |
| Bits.OrShifted | cache.c:188-193 | OR of a shifted value with one below the shift is their sum (the fields do not overlap) |
| Address.AddressFieldMask | cache.c:76-78 | Each field mask, after the AND with ADDRESS_MASK, is the low-bits mask of its width |
| Address.MakeLayout | cache.c:71-78 | The tag takes the rest of the 32-bit address, and the layout is valid when offset and index fit |
| Address.Decode | cache.c:171-182 | Each decoded field fits its width |
| Address.DecodeShiftAndMask | cache.c:171-182 | The fields are exactly the shifted and masked address, as computed through utilShiftAndMask |
| Address.ShiftAndMaskDigits | cache.c:36-39 | utilShiftAndMask with a low-bits mask extracts one base-2 digit group |
| Address.Encode | cache.c:188-193 | The encoded address is the base-2 number whose digit groups are the fields, each masked to its width |
| Address.EncodeFields | cache.c:188-193 | Masking, shifting and OR-ing the fields gives that number, and it fits in 32 bits |
| Address.DecodeEncode | cache.c:171-193 | Decoding an encoded address gives back fields that fit their widths |
| Address.EncodeDecode | cache.c:171-193 | Encoding the decoded fields of any address gives the address back |
| Address.Recompose | cache.c:171-182 | Every address is the mixed-radix number of its tag, index and offset |
| Replacement.InitialWays | cache.c:82-94 | A fresh set is all invalid and clean; its LRU ranks are the way positions (a permutation) and its LFU counts are 0 |
| Replacement.FindHit | cache.c:210-216 | The hit scan returns the first valid way holding the tag, or assoc when none does |
| Replacement.FirstInvalid | cache.c:242-248 | The free-way scan returns the first invalid way, or assoc when the set is full |
| Replacement.LruHitUpdate | cache.c:499-512 | The referenced way gets rank 0; exactly the more recent ways age by one; lines and the rank permutation are kept |
| Replacement.LruAgeAll | cache.c:410-414 | Every rank becomes (rank + 1) mod assoc |
| Replacement.LastRankZero | cache.c:410-414 | The pick is the last way whose counter is 0 |
| Replacement.LruReplace | cache.c:395-418 | With a free way, that way is promoted as on a hit; otherwise the way of the oldest rank is chosen and ranks stay a permutation |
| Replacement.LruEvictFacts | cache.c:410-414 | On a rank permutation, the eviction pass picks the way of rank assoc-1, which becomes rank 0 |
| Replacement.LfuHitUpdate | cache.c:514-518 | Only the referenced way's count moves, by one |
| Replacement.MinCounterWay | cache.c:431-441 | The LFU victim has the smallest count, and no earlier way has a count that small |
| Replacement.LfuReplace | cache.c:421-454 | The chosen way's old count becomes the set's age baseline, and the way's new count is one above it |
| Replacement.MoveToFrontIsOrder | cache.c:499-512 | Moving a used way to the front of the recency list keeps it a list of every way |
| Replacement.RanksFollowIsPermutation | cache.c:82-94 | Ranks read off a recency list are a permutation of 0..assoc-1 |
| Replacement.PermutationHasRecencyList | cache.c:395-418 | Every rank permutation is read off some recency list |
| Replacement.LruHitMovesToFront | cache.c:499-512 | An LRU hit moves the referenced way to the front of the recency list |
| Replacement.LruEvictTakesLeastRecent | cache.c:395-418 | Eviction without a free way takes the last way of the recency list and moves it to the front |
| Replacement.PlaceKeepsTagsUnique | cache.c:312-314 | Installing a tag the set does not hold keeps valid tags unique within the set |
| CacheSetup.InitConfig | cache.c:59-78 | nSets is the ceiling of size / (assoc * blockSize); the offset and index widths are the ceiling logarithms; the tag takes the rest |
| CacheSetup.Init | cache.c:44-101 | A non-positive size gives no cache (NULL), whatever the associativity and block size; otherwise all counters are zero and every set is fresh |
| CacheSetup.InitWF | cache.c:44-101 | With a power-of-two block size and set count that fit the address, and LRU or LFU, cacheInit gives a well-formed cache |
| CacheSetup.Connect | cache.c:107-114 | The level goes in front of the lower hierarchy, which becomes the next level of both the level and its victim cache |
| CacheSetup.ConnectWF | cache.c:107-114 | Connecting well-formed parts gives a well-formed hierarchy |
| CacheSetup.AttachVictim | cache.c:117-131 | A positive size attaches a fresh victim cache: LRU, write-back, zero counters, the given block size. The owner is unchanged. A non-positive size changes nothing, whatever the block size |
| CacheSetup.AttachVictimWays | cache.c:121 | The victim has ceil(size / blockSize) ways, the fewest blocks that cover its size |
| CacheSetup.VictimHasOneSet | cache.c:117-131 | The victim cache has exactly one set |
| CacheSetup.AttachVictimCoherent | cache.c:117-131 | The victim's blocks line up with the owner's exactly when both offsets have the same width |
| CacheSetup.AttachVictimWF | cache.c:117-131 | Attaching a victim keeps the level well formed |
| CacheEngine.Communicate | cache.c:137-165 | The NULL cache misses and changes nothing. Otherwise the answer names the address's set index. Exactly one access and one hit or miss of the direction is counted. The level is served as Served states. With a victim cache, an allocating miss is a hit exactly when the victim holds the block. A write-back write leaves the answering way dirty |
| CacheEngine.CountAccess | cache.c:151-157 | Exactly the counter for the direction and the outcome moves, by one |
| CacheEngine.DoRead | cache.c:362-365 | A read goes through the common path with allocation |
| CacheEngine.DoWrite | cache.c:369-383 | A write-back write allocates and leaves the written way dirty, hit or miss; a write-through write does not allocate |
| CacheEngine.ReadWriteCommon | cache.c:198-327 | A hit answers with the first matching way; a victim read is a lookup only; an allocating miss puts the tag in the free or replaced way; a non-allocating write miss leaves the set alone; only set index changes. An allocating miss with a victim cache is a hit exactly when the victim holds the block |
| CacheEngine.VictimLookup | cache.c:218-222 | A read of a victim cache answers with the hit scan and changes nothing |
| CacheEngine.HitAccess | cache.c:224-233 | A hit updates only the replacement counters of the set that hit |
| CacheEngine.WriteAround | cache.c:319-321 | A write miss without allocation leaves this level's sets unchanged and misses. The levels below become exactly what the next level's write leaves |
| CacheEngine.Allocate | cache.c:239-314 | An allocating miss fills the first free way, else the policy's victim (LRU: the oldest rank; LFU: MinCounterWay). It is a hit only through the victim cache, and then exactly when the victim holds the block. A write-back is counted only for a valid dirty block with no victim cache |
| CacheEngine.ChooseWay | cache.c:239-257 | The chosen way is the free way if any, else the policy's choice; only that set's counters change |
| CacheEngine.Evict | cache.c:262-292 | The answer is a hit exactly when the victim's scan finds the block in its set. Only the addressed set changes. A swap is counted exactly when the answer is a hit. The owner's write-back count never moves. With aligned blocks the chosen way ends up holding the tag |
| CacheEngine.SwapIn | cache.c:267-274 | A victim hit swaps lines, counts one swap and answers a hit in the chosen way; with aligned blocks the way now holds the address's tag |
| CacheEngine.SwapOwner | cache.c:330-360 | The owner's way takes the victim's block and dirty bit; nothing else in the owner changes but the swap count |
| CacheEngine.SwapVictim | cache.c:330-360 | The victim's line takes the owner's block and dirty bit, keeps its valid bit and becomes the most recent; the swap count moves |
| CacheEngine.CoherentSwap | cache.c:330-360 | With aligned blocks, the swap puts the address's tag into the chosen way and keeps each block held at most once |
| CacheEngine.VictimTakes | cache.c:276-290 | Writing the leaving block into the victim cache leaves the owning cache unchanged |
| CacheEngine.Finish | cache.c:295-314 | The chosen way holds the tag as a valid, clean line. The leaving block is counted as written back when it was valid, dirty and not taken by the victim cache. No other set changes |
| CacheEngine.WriteBackLine | cache.c:295-301 | The write-back count moves by one exactly when the leaving line is valid and dirty and no victim cache took it |
| CacheEngine.WriteBackData | cache.c:385-390 | The write-back count goes up by one and nothing else in the level changes. The levels below become exactly what the next level's write of the block leaves |
| CacheEngine.InstallWF | cache.c:312-314 | Installing a tag the set does not hold keeps the cache well formed |
| CacheEngine.SetDirty | cache.c:377 | Only the dirty bit of the named line changes |
| CacheEngine.Replace | cache.c:250-257 | The policy's replacement: the free way when there is one, the policy's victim otherwise, with the rank permutation kept |
| AccessFacts.AllocatedBlockHits | cache.c:198-327 | After a read, or a write to a write-back cache, reading the same address again hits. This holds for a level without a victim cache, and for a level with an aligned victim cache when the addressed set has no free way |
| AccessFacts.WriteThroughMissForwards | cache.c:319-321 | A write-through write miss changes no set and performs exactly the next level's write access |
| AccessFacts.WriteThroughHitStaysLocal | cache.c:224-233 | A write-through write hit leaves the next level and the victim cache alone |
| Accounting.GetStats | cache.c:578-606 | NULL reports nothing. Misses never exceed the counts. Reads plus writes equal all hits and misses. Memory traffic covers all misses. Swaps and write-backs are passed through |
| Accounting.AccessKeepsBalanced | cache.c:578-606 | From balanced counters, every access keeps reads plus writes equal to the access count |
| Accounting.TrafficPerAccess | cache.c:594-596 | Write-back: a hit adds no traffic, a miss one block plus one for a dirty leaving block. Write-through: one for each write and each read miss |
| Container.Init | fifo.c:14-24 | The list starts empty with a zero count |
| Container.Push | fifo.c:37-46 | The payload becomes the head, the old cells follow, and the count goes up by one |
| Container.Pop | fifo.c:48-69 | An empty list yields nothing and stays as it is; otherwise the head is returned and unlinked |
| Container.PopConditional | fifo.c:71-81 | Pops exactly when there is a head and the predicate holds on it; otherwise nothing changes |
| Container.PeekNth | fifo.c:83-94 | Fails for n at or beyond the count; otherwise returns the payload n links from the head |
| Container.NumElems | fifo.c:96-99 | The count equals the number of cells of a valid list |
| Container.PushPop | fifo.c:37-69 | Pushing then popping returns the payload and the original list |
| Container.PopPush | fifo.c:37-69 | Popping a non-empty list and pushing the payload back restores it |
| Container.LastInFirstOut | fifo.c:37-69 | Popping everything just pushed yields it in reverse, and the list as it was |
| Container.PushAllCells | fifo.c:37-46 | Pushing a sequence puts it on top in reverse |
| Container.PeekAfterPush | fifo.c:83-94 | After a push the new payload is at position 0 and every other payload is one link further |
| Container.PopTailConditional | ds.c:94 | The oldest element is popped exactly when there is one and the predicate holds on it |
| Container.RemoveFirst | ds.c:224 | The first element from the head that matches is unlinked; the rest keep their order |
| Container.RemoveItem | ds.c:311 | Without repeats, exactly the matching payload leaves and everything else stays |
| Container.RemoveDistinct | ds.c:311 | After unlinking a payload that occurs once, it is gone, every other payload stays, and there are no repeats |
| Container.RemoveAllMembers | ds.c:224 | Removing a set of payloads leaves exactly the others, still without repeats |
| Container.Visit | ds.c:135-142 | Head first visits the cells in list order, tail first in reverse; either way every cell is visited once |
| Container.DistinctSubsetLength | ds.c:277 | A repeat-free sequence whose members all occur in another is no longer than it |
| Scheduler.Init | ds.c:16-58 | Cycle and sequence number start at 0, the lists are empty, and every register is ready and maps to 0. The caches are LRU write-back, or NULL for a non-positive size, whose associativity and block size are then not looked at. The invariant holds |
| Scheduler.OwnCache | ds.c:52-53 | cacheInit with LRU and write-back gives a well-formed hierarchy of one level, or the empty one for a non-positive size |
| Scheduler.RetireLoop | ds.c:88-105 | Pops the oldest ROB entries while they are in WB, oldest first; the rest of the ROB is a prefix |
| Scheduler.FakeRetire | ds.c:88-107 | The longest run of WB entries at the old end of the ROB retires, oldest first. It reports TRUE exactly when the ROB is then empty |
| Scheduler.RetireInOrder | ds.c:88-107 | Within a cycle, instructions retire in rising sequence-number order |
| Scheduler.RetireOldestFirst | ds.c:88-107 | Every retired instruction is older than each one left in the ROB |
| Scheduler.FakeRetireKeepsInv | ds.c:88-107 | Retiring keeps the invariant |
| Scheduler.NewInst | ds.c:339-356 | The new record is in IF from this cycle, with the operands as read and the latency of its type |
| Scheduler.FetchN | ds.c:333-361 | Reading f lines advances the trace by f. The f new numbers go on top of the ROB and the dispatch list, newest first. Nothing else changes but the new records |
| Scheduler.FetchBudget | ds.c:331-333 | The number of lines read is bounded by the trace left, the bandwidth n and the room below 2n in the dispatch list |
| Scheduler.FetchLoop | ds.c:331-366 | The corrected fetch reads exactly the budgeted lines and reports TRUE only when the trace is used up and nothing was read |
| Scheduler.FetchLoopKeepsInv | ds.c:317-367 | Fetching keeps the invariant |
| Scheduler.Fetch | ds.c:317-367 | The corrected fetch reports TRUE exactly when the trace is used up and the loop condition held, so nothing was read |
| Scheduler.FetchLoopAsWritten | ds.c:331-366 | As written, fetch leaves the same state but reports TRUE whenever it meets the end of the trace |
| Scheduler.FetchAsWritten | ds.c:317-367 | fetch as written: same state as Fetch, and TRUE exactly when the trace runs out within the room |
| Scheduler.WantsRoom | ds.c:333 | The fetch loop's condition holds exactly when there is room to read |
| Scheduler.Wake | ds.c:109-114 | An operand naming the tag becomes ready; nothing else changes |
| Scheduler.NewestWriter | ds.c:117-124 | The result is the largest sequence number among the records writing the register, at least the start value, and one of them or the start value |
| Scheduler.ExFinish | ds.c:126-144 | Runs while the instruction is still in the execute list, so it counts among the pending writers. The record moves to WB. A register that was not ready maps to the newest pending writer and is ready exactly when that writer is this instruction. Waiting operands naming it become ready |
| Scheduler.ExecuteOne | ds.c:126-144 | Finishing one instruction runs ExFinish first and only then unlinks the instruction from the execute list. Only its record, the register file and waiting operand flags change |
| Scheduler.Execute | ds.c:146-159 | The execute list is walked from its oldest entry. It reports TRUE exactly when the list is then empty |
| Scheduler.ExecuteRetires | ds.c:146-159 | Exactly the instructions in EX for at least their latency leave the execute list |
| Scheduler.ExecuteRecords | ds.c:126-159 | Completing instructions are in WB from this cycle, and waiting ones change at most their operand flags |
| Scheduler.ExecuteWakes | ds.c:126-159 | An operand is ready afterwards exactly when it was before, or it names an instruction that completes this cycle and writes a register |
| Scheduler.ExecuteKeepsInv | ds.c:146-159 | execute keeps the invariant |
| Scheduler.ReadyToIssue | ds.c:161-171 | The candidates are exactly the entries of the issue list whose operands are each absent or ready, without repeats |
| Scheduler.MemLatency | ds.c:205-219 | L1 is read first. An L1 hit gives the L1-hit latency; otherwise L2 is read, for the L1-miss latency on an L2 hit and the L2-miss latency otherwise |
| Scheduler.MemLatencyReads | ds.c:205-219 | An L1 hit leaves L2 alone; an L1 miss reads L2 |
| Scheduler.RepeatLoadHitsL1 | ds.c:205-219 | A second load of the same address hits L1 and costs the L1-hit latency |
| Scheduler.LoadOne | ds.c:205-219 | A load, when there is an L1, takes its latency from the caches; other instructions keep theirs |
| Scheduler.Issue | ds.c:173-228 | Up to n ready instructions go to EX, loads reading the caches. It reports TRUE exactly when the issue list is then empty |
| Scheduler.IssueLists | ds.c:187-225 | The issued instructions are the first of the ready ones, at most n; they leave the issue list and go onto the execute list in that order |
| Scheduler.IssueRecord | ds.c:194-219 | An issued instruction enters EX from this cycle, with its latency from the caches for a load; no other record changes |
| Scheduler.IssueKeepsInv | ds.c:173-228 | issue keeps the invariant |
| Dispatcher.ToID | ds.c:235-240 | A record not yet in ID enters it this cycle |
| Dispatcher.Promote | ds.c:274 | Each record on the dispatch list that is not in ID enters ID this cycle; every other record is unchanged, whatever the visiting order |
| Dispatcher.ToDispatch | ds.c:270-274 | The candidates are the entries already in ID before the walk, without repeats |
| Dispatcher.Claim | ds.c:304-308 | The destination stops being ready and maps to the writer's tag |
| Dispatcher.Dispatched | ds.c:277 | Every moved entry is a candidate, and none moves twice |
| Dispatcher.DispatchedRoom | ds.c:277-312 | Moved entries were in ID. The issue list stays within s. An entry left in ID was held back because the issue list filled to s |
| Dispatcher.Dispatch | ds.c:250-315 | The walk, then the moves. It reports TRUE exactly when the dispatch list is then empty. Only the records, the two lists and the register file change |
| Dispatcher.DispatchLists | ds.c:309-311 | The moved entries leave the dispatch list and go on top of the issue list in the order they moved |
| Dispatcher.DispatchKept | ds.c:230-241 | An unmoved record in IF enters ID; any other stays as it was |
| Dispatcher.DispatchMoved | ds.c:277-302 | The i-th moved entry is in IS from this cycle, its sources renamed against the register file as earlier moves left it |
| Dispatcher.DispatchRenamesFromEarlier | ds.c:284-308 | When an earlier moved entry last wrote the register a source reads, the source takes that entry's tag and is not marked ready |
| Dispatcher.DispatchRenamesFromFile | ds.c:284-302 | A source no earlier moved entry writes: none stays none; a ready register is marked ready; otherwise the source takes the map table's tag |
| Dispatcher.DispatchClaimsRegister | ds.c:304-308 | A register written by a moved entry, and by none moved later, is not ready and maps to that entry's tag |
| Dispatcher.DispatchLeavesRegister | ds.c:304-308 | A register no moved entry writes keeps its ready bit and its map-table entry |
| Dispatcher.DispatchKeepsInv | ds.c:250-315 | dispatch keeps the invariant |
| Pipeline.FirstFour | ds.c:60-66 | Retire, execute, issue and dispatch keep the invariant. Their combined result is TRUE exactly when the ROB is empty after retiring |
| Pipeline.EmptyRobEmptyLists | ds.c:60-70 | With an empty ROB, every list is empty |
| Pipeline.Process | ds.c:60-70 | One cycle advances the cycle counter by one and retires what fakeRetire retires |
| Pipeline.ProcessKeepsInv | ds.c:60-70 | A cycle keeps the invariant |
| Pipeline.ProcessDone | ds.c:60-70 | The corrected cycle reports the end exactly when retiring empties the ROB, the trace is used up and n >= 1 |
| Pipeline.ProcessDoneEmpties | ds.c:60-70 | When the simulation ends, the ROB, every list and the trace are empty |
| Pipeline.AsWrittenSameState | ds.c:60-70 | The cycle as written differs from the corrected one only in its result |
| Pipeline.ProcessAsWrittenDone | ds.c:60-70 | As written, the cycle reports the end when retiring empties the ROB and the rest of the trace is shorter than one cycle's fetch room |
| Pipeline.AsWrittenStopsEarly | ds.c:317-367 | With n = 2, an empty ROB and one trace line, the cycle as written reports the end with the line still in the ROB; the corrected cycle does not |

## Left out

- LRFU replacement (`cache.c:456-497`, `cache.c:520-525`): it uses floating-point powers. Well-formed configurations allow only LRU and LFU.
- The miss rate (`cache.c:593`), the average access time and the timing model (`cache.c:609-637`): these are floating point.
- Cache names, printing and freeing memory (`cache.c:527-571`), and the record printing in `fakeRetire` (`ds.c:96-103`): these are I/O. The retired records are returned instead.
- `cacheGetWBCount` (`cache.c:573-576`) reads a single counter. `Accounting.GetStats` reports the same value.
- Reading the trace file (`fetchFP` and `main.c`): the trace is a parameter, a sequence of lines that already satisfy the bounds the reader asserts. `main.c`'s loop and its output are not part of this model.
- The values of the `PIPE_EX_LATENCY_*` macros do not appear in any of the source files, so they are parameters. So is `CLOG2`, which is taken to be the integer ceiling logarithm.
- `fifoForeach`, `fifoPopTailConditional`, `fifoSearchOpRemove` and `fifoSearchOpRemoveInv` are called by `ds.c` but not defined in `fifo.c`. Their definitions are not part of this model.
  - They are modelled from their uses: removal of a matching payload, a conditional pop of the oldest element, and a visit in a given order.
  - The order in which `fifoForeach` walks a list is a parameter (head first or tail first).
  - `fifoSearchOpRemoveInv` is taken to walk from the tail, as the comment at `ds.c:155` says.
  - `fifoSearchOpRemoveInv` is taken to run the operation (`dsExFinish`) on a matching element while it is still in the list, and only then to unlink it (`Scheduler.ExecuteOne`). The order matters. `dsSearchDst` (`ds.c:135`) then finds the finishing instruction itself among the pending writers. So `ready[dst]` is set when that instruction is the newest writer (`ds.c:139`). If the element were unlinked first, the search could never return the instruction's own sequence number, except 0. Then `ready[dst]` would stay false and `mapTable[dst]` would name an older writer or 0.
- Age-ordered issue and dispatch are not proved. The comments at `ds.c:177` and `ds.c:254` promise ascending tag order, but the order is whatever the `fifoForeach` walk and the `tempQ` pops deliver, and that walk is a parameter here.
- `ds.h` is not followed: its structure and prototypes do not match the fields and functions `ds.c` uses. The instruction record and the scheduler state are taken from `ds.c`.
- `tempQ` (`ds.c:46`, `ds.c:187-190`, `ds.c:271-274`) is not a field of the state. Its pushes followed by pops are modelled as the reversed sequence of the entries collected.
- 32-bit integer width: counters, cycle numbers and sequence numbers are unbounded naturals, and a wrap-around after 2^31 events is not modelled. Addresses are unsigned 32-bit words. The C code's signed `int` with arithmetic shift yields the same fields, because every field is masked.
- A non-power-of-two set count: well-formedness requires `nSets` to be a power of two. Otherwise the index field could name a set that does not exist, and the check at `cache.c:204-205` would abort the program. With a power-of-two set count the index is always below `nSets`, so the check never fires and the model leaves it out.
- AccessFacts.AllocatedBlockHits: with a victim cache, it is stated only when the addressed set has no free way. `cacheVictimSwap` (`cache.c:344-351`) swaps tags and dirty bits, not valid bits. So a victim hit whose chosen way is free leaves the block in an invalid way, and the next read misses there. From a state built by `cacheInit`, a block reaches the victim only when it is evicted from a full set, and a set never loses a valid way. So such a set has no free way when the victim hits. The model carries no invariant about reachable states, so the lemma asks for the full set instead.
- A victim cache whose block size differs from its owner's: the swap is modelled as written, but the properties about where the block lands are stated only for aligned blocks (`Coherent`).
- CacheEngine.VictimTakes: its contract states only that the owning cache is untouched. It does not state that the victim's new line takes over the leaving line's dirty bit (`cache.c:285-288`). Where that line lands in the victim is decided by the victim's own access, whose contract speaks of its set and way, not of the line as a whole.
- Accounting.GetStats: its contract bounds the memory traffic from below by the misses rather than giving the formula of `cache.c:594-601`. `Accounting.TrafficPerAccess` states the exact change per access for a level without a victim cache.
- Allocation failures (`calloc` returning NULL, the ASSERTs at `fifo.c:18`, `fifo.c:30`) are not modelled: memory is unbounded.
- Container.PeekNth: its precondition excludes a negative `n` on an empty list. There the C code leaves the walk at a NULL head and aborts through the ASSERT at `fifo.c:91`. A negative `n` on a non-empty list returns the head, as in the C code.

## Findings

| source | as written | input that shows it | evidently intended | confidence | as-written member | corrected member |
|---|---|---|---|---|---|---|
| ds.c:317-367 | `fetch` returns TRUE as soon as it meets the end of the trace, even when it read lines earlier in the same call. `dsProcess` then reports the simulation over while those lines sit in the ROB, never to retire | n = 2, an empty ROB and a trace of one line: the line is fetched, and the cycle returns TRUE | the simulation ends only once everything fetched has retired: fetch reports TRUE only when the trace is used up and nothing was read this cycle | not executed | Pipeline.AsWrittenStopsEarly | Pipeline.ProcessDone |
