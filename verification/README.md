# Verified models of the node's core algorithms

This project models twelve self-contained components of a Bitcoin Core 0.16 derivative in Dafny and proves what
each of them promises. Hash functions are parameters (with injectivity a named premise where a result depends on
it), random choices are nondeterministic or parameters, and the clock is an input. `dafny verify dfyconfig.toml`
checks everything.

Code that changes objects step by step is modelled by classes, arrays and loops. Each such method is proved equal to
a specification function of the old state, or directly against the property promised, and the lemmas are about those
functions. A file `XSpec` or `XInv` holds the value model and a file named after the C++ class the mutable object. A
file `XLaws`, `XTwins` or `XFormats` says what the specification functions do in terms of the fields alone, and a file
`XVectors` pins constants and tables by values from the repository's own tests.

| component | files | main results |
|---|---|---|
| UTXO cache stack | CoinsSpec, CoinsRun, CoinsCache, CoinsLaws | a stack of caches of any depth refines plain maps over every run; FRESH and DIRTY are sound; no logic_error for honest callers |
| check queue | CheckQueue, CheckQueueProtocol, CheckQueueLaws | safety and absence of deadlock over every interleaving of a master and any number of workers |
| block assembler | Mempool, BlockAssembler | block invariants, index accuracy, termination, and that nothing is left out without a reason |
| address manager | AddrManSpec, AddrManInv, AddrManOps, AddrManLaws, AddrMan, AddrManSerialize, AddrManRoundTrip, AddrManReading, AddrManFormats, AddrManDisk | every run keeps the five indexes consistent; saving and loading restores the manager, and loading any stream without a repeated address makes a consistent one; what each operation does to slots and entries |
| partial Merkle tree | MerkleBlock, MerkleSizes, MerkleTwins, MerkleTree | soundness of proofs, round trip through bytes, size bounds, exactly which honest proofs are refused |
| Base58 | Base58, Base58Buffers, Base58Vectors | printer and parser are inverse; the fixed digit buffers suffice |
| Bech32 | Bech32Code, Bech32, Bech32Errors, Bech32Strings, Bech32Vectors | linearity, error detection, exact round trip |
| 256-bit arithmetic and proof of work | Limbs, LimbShifts, ArithUint, Compact, ProofOfWork, RetargetLaws | limb algorithms refine integers modulo 2^256; compact targets, block work and retargeting |
| block index and chain | SkipList, Chain | skip list, active chain, locators, common ancestors against plain parent walking; the exact maximum number of skip steps |
| cuckoo cache | CuckooSpec, CuckooLaws, CuckooCache | at most one element lost per insertion, epoch bound, over every run |
| rolling Bloom filter | RollingHistory, RollingBloom | the filter is exactly a plain Bloom filter of its latest keys |
| compact blocks | IndexCoding, CompactSlots, CompactScan, CompactKnown, CompactBlocks, CompactRelay | a relayed block is rebuilt exactly; exactly when matching and the slot search work |

Prelude, Powers and Bits hold shared definitions.

## Where the code and its documentation differ

- The comment in src/merkleblock.h:47 bounds the flag bits by 2N-1. `MerkleSizes.BitBoundFails` is a counterexample
  and `MerkleSizes.BitBoundExact` says exactly when the bound holds; 2N-1 plus the height always does.
- The size documented at src/merkleblock.h:34 is exceeded, for blocks within the count limit by at most 5 bytes;
  `MerkleSizes.WireSizeExact` says exactly when, and `MerkleSizes.DocumentedSizeFails` gives blocks for which it is.
- `bnNew *= nActualTimespan` in src/pow.cpp:69 multiplies modulo 2^256 and takes the timespan modulo 2^32.
  `ProofOfWork.RetargetExact` says exactly when the result is the intended target, and `ProofOfWork.RetargetWraps`
  gives main network parameters for which it is not.
- The comment in src/cuckoocache.h:419-423 has the first displacement use the first candidate. The search runs off the
  end, and (1 + 8) & 7 is 1: the first displacement uses the second candidate (`CuckooSpec.FirstDisplacement`).
- An index list is read back by src/blockencodings.h:55-61 although it does not increase when its differences reach
  65535 before the end, because the 16-bit offset wraps to zero. `IndexCoding.DecodedIncreasing` is the exact
  condition on what is received, `IndexCoding.DecodedNotIncreasing` an example.
- The count limit of src/blockencodings.cpp:51 is 800000, but slots are recorded in 16 bits. Matching is right exactly
  up to 65536 transactions (`CompactKnown.KnownExact`, with `CompactKnown.LargeAnnouncement` as an example beyond). With
  65536 prefilled places and a short id left the search for a free slot does not end (`CompactSlots.EndlessSearch`;
  `CompactBlocks.PartiallyDownloadedBlock.InitData` has no result exactly then).
- `SpendCoin` (src/coins.cpp:98-112) reports success for a cached coin that is already spent. The report is right
  exactly when no spent entry is cached beforehand (`CoinsSpec.SpendCoinReports`).
- The throwing path of `AddCoin` (src/coins.cpp:73-80) leaves the usage counter short. `CoinsSpec.AddCoinThrowsExactly`
  and `CoinsSpec.AddCoinUsageExact` say exactly when it throws and when the counter stays exact.
- A failed entry can re-enter the assembler's index with totals that are too large: exactly when the ancestors it is
  charged for again have size or sigops (`BlockAssembler.ReenteredTotals`), as in the run of
  `BlockAssembler.FailedEntryReenters`. They are never too small.
- `x *= x` on a `base_uint` clears the operand before it is used and yields zero (src/arith_uint256.cpp:70-83).
- `CAddrMan::Clear` does not empty the set of tried collisions (src/addrman.h:471-493). The cleared manager is
  consistent exactly when that set was empty (`AddrManOps.ClearedInvExact`), so runs start with it empty;
  `AddrManOps.LeftOverCollision` shows what a left-over id leads to.

## Model

| member | source | states |
|---|---|---|
| CoinsSpec.GetCoinRefines | src/coins.cpp:40-64 | a read returns the coin the stack shows; it fills caches at every layer and changes no layer's view |
| CoinsSpec.FetchCoinRefines | src/coins.cpp:40-55 | fetching brings the visible coin, if there is one, into this layer, keeps the stack valid and leaves every view unchanged |
| CoinsSpec.AddCoinRefines | src/coins.cpp:66-85 | with an honest possible_overwrite AddCoin never throws and is the map update on the view; unspendable outputs are ignored |
| CoinsSpec.AddCoinValidIffHonest | src/coins.cpp:66-85 | the invariant survives AddCoin, without a throw, exactly for honest calls |
| CoinsSpec.AddCoinThrowLosesUsage | src/coins.cpp:73-80 | when AddCoin throws, cachedCoinsUsage is short by exactly the replaced coin's memory |
| CoinsSpec.AddCoinThrowsExactly | src/coins.cpp:66-85 | AddCoin throws if and only if the coin is spendable, possible_overwrite is false and an unspent coin is cached at the outpoint |
| CoinsSpec.AddCoinUsageExact | src/coins.cpp:73-84 | cachedCoinsUsage stays the exact sum if and only if AddCoin does not throw or the coin left in place holds no heap memory |
| CoinsSpec.AddCoinThrowWitness | src/coins.cpp:73-80 | a concrete valid stack on which the throw leaves the counter wrong |
| CoinsSpec.SpendCoinRefines | src/coins.cpp:98-112 | SpendCoin removes the coin from the view, whatever it returns, and hands out the coin the view had |
| CoinsSpec.SpendTwiceSucceedsTwice | src/coins.cpp:98-112 | on every stack that shows a coin which the layers below show too, SpendCoin reports success a second time for the spent coin |
| CoinsSpec.SpendCoinReports | src/coins.cpp:98-112 | success is reported exactly when the view has the coin or this layer caches an entry for it; the report is right if and only if no spent entry is cached beforehand |
| CoinsSpec.SpendReportWitness | src/coins.cpp:98-112 | a concrete valid stack whose view lacks the coin and on which success is reported |
| CoinsSpec.UncacheRefines | src/coins.cpp:210-217 | Uncache changes no view and keeps the usage sum exact |
| CoinsSpec.BatchWriteRefines | src/coins.cpp:145-201 | a parent that receives well-flagged entries throws no logic_error and then shows what the child showed |
| CoinsSpec.FlushRefines | src/coins.cpp:203-208 | Flush never throws on a valid stack, is invisible from above, and makes the parent's view equal the child's |
| CoinsSpec.DishonestAddThrowsOnFlush | src/coins.cpp:145-201 | concrete dishonest AddCoin after which flushing does reach BatchWrite's logic_error |
| CoinsSpec.ViewUnspent | src/coins.cpp:57-64 | no layer of a valid stack ever shows a spent coin |
| CoinsLaws.UncacheExactly | src/coins.cpp:210-217 | an entry without flags is dropped and its memory taken off the counter; no other entry goes |
| CoinsLaws.AddThenSpend | src/coins.cpp:66-112 | adding a coin that no layer holds and spending it again restores the cache and its counter |
| CoinsLaws.AddSetsFlags | src/coins.cpp:66-85 | FRESH is set exactly where the caller rules out an overwrite and the entry is unchanged, and is never taken away |
| CoinsLaws.SpendErasesFresh | src/coins.cpp:98-112 | spending a FRESH coin erases its entry; any other is kept as a spent, DIRTY one for the parent to see |
| CoinsLaws.FlushIntoCache | src/coins.cpp:145-208 | flushing leaves alone what the child did not change, drops what was spent there and FRESH in the parent, and keeps FRESH a coin the parent has no entry for |
| CoinsLaws.NoTraceInParent | src/coins.cpp:66-208 | a coin created in one layer, flushed to the next, spent above it and flushed again leaves no entry in either layer |
| CoinsRun.FlushAtRefines | src/coins.cpp:203-208 | flushing any layer changes the view of its parent only, and no layer above or below |
| CoinsRun.StepRefines | src/coins.cpp:40-217 | one legal call on any layer keeps the invariant, never throws and acts on all views as the plain call acts on plain maps |
| CoinsRun.RunRefines | src/coins.cpp:40-217 | every honest run over a stack of any depth completes without a logic_error and shows, at every layer and in every observed result, what plain maps show |
| CoinsCache.CoinsViewDB.BatchWrite | src/txdb.cpp:85-97 | the bottom view applies the DIRTY entries only; spent ones are erased |
| CoinsCache.CoinsViewCache.FetchCoin | src/coins.cpp:40-55 | the object graph of caches moves exactly as the specified stack does, usage counter included |
| CoinsCache.CoinsViewCache.GetCoin | src/coins.cpp:57-64 | returns what the whole stack shows and keeps it valid |
| CoinsCache.CoinsViewCache.HaveCoin | src/coins.cpp:125-128 | true exactly when the view has an unspent coin |
| CoinsCache.CoinsViewCache.AddCoin | src/coins.cpp:66-85 | moves the stack as specified and returns whether the logic_error is thrown |
| CoinsCache.CoinsViewCache.SpendCoin | src/coins.cpp:98-112 | moves the stack as specified and hands out the specified coin |
| CoinsCache.CoinsViewCache.Uncache | src/coins.cpp:210-217 | moves the stack as specified |
| CoinsCache.CoinsViewCache.BatchWrite | src/coins.cpp:145-201 | whatever the iteration order over the child's map, the merged cache and usage are the specified ones, and it throws exactly when an entry is misapplied |
| CoinsCache.CoinsViewCache.Flush | src/coins.cpp:203-208 | empties this layer into its parent as specified |
| CoinsCache.AddCoins | src/coins.cpp:87-96 | for a coinbase, with check, or over absent outputs, never throws and adds exactly the spendable outputs to the view |
| CheckQueue.ReversePermutes | src/checkqueue.h:108-114 | taking a batch from the back loses and duplicates no check |
| CheckQueue.CCheckQueue.Add | src/checkqueue.h:146-158 | appends the checks, raises nTodo by their number, and notifies none, one or all workers |
| CheckQueue.CCheckQueue.EnterLoop | src/checkqueue.h:74-117 | the head of the critical section accounts for the finished batch and then returns, sleeps or takes a batch |
| CheckQueue.CCheckQueue.WakeUp | src/checkqueue.h:98-101 | after cond.wait the thread leaves the idle count and looks at the queue again |
| CheckQueue.CCheckQueue.TakeBatch | src/checkqueue.h:107-116 | moves exactly the last nNow checks, last first, out of the queue |
| CheckQueueProtocol.CleanKeepsInv | src/checkqueue.h:77-86 | reporting a batch keeps every counter exact and wakes a sleeping master when the last check is done |
| CheckQueueProtocol.TakeKeepsInv | src/checkqueue.h:107-117 | taking a batch moves each check to exactly one thread |
| CheckQueueProtocol.SleepKeepsInv | src/checkqueue.h:88-101 | a master only goes to sleep while some batch is out |
| CheckQueueProtocol.ExecKeepsInv | src/checkqueue.h:119-122 | running or passing over one check keeps each check in one place and the flags in step with what ran |
| CheckQueueProtocol.AddKeepsInv | src/checkqueue.h:146-158 | adding checks keeps the invariant whichever worker notify_one picks |
| CheckQueueProtocol.ReturnKeepsInv | src/checkqueue.h:88-97 | when Wait returns, true means every added check ran and passed, false that one ran and failed, and the queue is left empty with its flag reset |
| CheckQueueProtocol.RunKeepsInv | src/checkqueue.h:66-124 | the invariant holds along every interleaving, spurious wakeups included |
| CheckQueueProtocol.EveryRunIsSafe | src/checkqueue.h:66-158 | for any number of workers and any schedule: nTodo is queued plus in-batch checks, each added check is in exactly one place, every Wait returned an honest result, and a master sleeping un-notified implies outstanding work |
| CheckQueueProtocol.WaitCanAdvance | src/checkqueue.h:66-124 | no deadlock: while a Wait is outstanding some thread can take a step that brings it closer to its end |
| CheckQueueProtocol.WorkNeverGrows | src/checkqueue.h:66-124 | no step other than Add undoes progress |
| CheckQueueLaws.BatchExactly | src/checkqueue.h:102-107 | a batch is the largest number, at most nBatchSize, of which every thread could have one, and 1 if there is none |
| CheckQueueLaws.TakeExactly | src/checkqueue.h:107-117 | a batch is the end of the queue from the back, the rest stays, and it is to run only if no failure is known |
| CheckQueueLaws.AddWakes | src/checkqueue.h:146-158 | adding wakes no worker for nothing, one sleeping worker for a single check and every sleeping worker for more, and never the master |
| CheckQueueLaws.FailureStops | src/checkqueue.h:77-122 | along every run, once a failure is reported only checks of batches already out still run before that Wait ends |
| Mempool.AncestorCountsLess | src/miner.h:79-89 | an ancestor has strictly fewer ancestors, which makes sorting by count a valid block order |
| Mempool.CostBounds | src/miner.cpp:204-212 | the weight of any package is at most four times its size, so the size test bounds the weight |
| BlockAssembler.UpdateKeepsModOk | src/miner.cpp:248-273 | selecting a package and updating its descendants keeps every unselected transaction with a selected ancestor in the index or the failed set, with totals between the true and the cached ones, fees included where none is modified |
| BlockAssembler.IndexCoversEntry | src/miner.h:113-123 | the unsigned totals of the index never wrap below the entry's own share |
| BlockAssembler.ReenteredTotals | src/miner.cpp:248-273 | an entry outside the index that re-enters it is charged again, in size and in sigops, for every ancestor selected before; its totals are the true ones if and only if those ancestors have no size and no sigops |
| BlockAssembler.FailedEntryReenters | src/miner.cpp:385-437 | a concrete pool of three and a run over it in which an entry fails, re-enters with 800 instead of 200 bytes, and no longer fits although its true size would |
| BlockAssembler.FailKeepsModOk | src/miner.cpp:385-419 | moving a failed entry out of the index keeps the index right |
| BlockAssembler.PackageTotals | src/miner.cpp:371-385 | the totals a package is judged by bound the weight and sigops it adds |
| BlockAssembler.FeeTest | src/policy/feerate.cpp:23-37 | comparing with GetFee is comparing 1000 times the fees with rate times size, rounded toward zero but never to zero, for rates of either sign |
| BlockAssembler.JudgedByTruth | src/miner.cpp:371-419 | an entry that never failed is judged by what its package really adds: found not to fit, it passes a limit; found inadmissible, it has a member that is; accepted, it fits and all members are admissible; and where no fee is modified its fees fail or reach the minimum rate, in plain arithmetic |
| BlockAssembler.SortedPackageOrdered | src/miner.cpp:290-299 | a package sorted by ancestor count can be appended with every parent before its child |
| BlockAssembler.ExtendedOk | src/miner.cpp:229-246 | appending a fitting package keeps the block ancestor-closed, duplicate-free, in order, within limits and exactly counted |
| BlockAssembler.InitialModOk | src/miner.cpp:319-321 | the index built from what is already in the block is right |
| BlockAssembler.WeightGrows | src/miner.cpp:229-238 | selecting more never lowers the block's weight or sigops |
| BlockAssembler.Assembler.OnlyUnconfirmed | src/miner.cpp:191-202 | keeps exactly the entries not yet in the block |
| BlockAssembler.Assembler.TestPackage | src/miner.cpp:204-212 | true exactly when both limits leave room |
| BlockAssembler.Assembler.TestPackageTransactions | src/miner.cpp:218-227 | true exactly when every member is final and carries a witness only where witnesses are mined |
| BlockAssembler.Assembler.UpdatePackagesForAdded | src/miner.cpp:248-273 | every descendant outside the added set loses exactly the size and sigops of its added ancestors; no other entry changes |
| BlockAssembler.Assembler.SortForBlock | src/miner.cpp:290-299 | a listing of exactly the package in ancestor-count order |
| BlockAssembler.Assembler.JudgePackage | src/miner.cpp:371-419 | the tests in their order: fee, room, admissibility of the unselected part; too low a fee is exactly one whose totals miss the minimum rate, in plain arithmetic; accepted, exactly that part is returned |
| BlockAssembler.Assembler.AddPackage | src/miner.cpp:421-437 | adds exactly the unselected part of a package and keeps block and index right |
| BlockAssembler.Assembler.TryPackage | src/miner.cpp:371-437 | the outcome is that verdict, with the same arithmetic for the fee; a package is added whole or not at all, and an entry of the index that fails is moved to the failed set, nothing else changing |
| BlockAssembler.Assembler.NextEntry | src/miner.cpp:341-369 | whichever index wins, the chosen transaction is not in the block: the assert holds |
| BlockAssembler.Assembler.AddPackageTxs | src/miner.cpp:311-439 | terminates; the block stays ancestor-closed, duplicate-free, parents first and within its limits; when the selection runs out, every transaction left out does not fit with its ancestors or has an inadmissible one among them; when a low fee ends it, an unselected transaction is named with totals that miss the minimum rate |
| AddrManInv.SwapRandomKeeps | src/addrman.cpp:93-111 | exchanging two positions keeps vRandom and nRandomPos inverse |
| AddrManInv.DeleteKeeps | src/addrman.cpp:113-125 | deleting an unreferenced new entry keeps all indexes consistent |
| AddrManInv.ClearNewKeeps | src/addrman.cpp:127-140 | ClearNew meets its asserts, frees the slot and keeps all indexes and reference counts consistent |
| AddrManInv.PlaceKeeps | src/addrman.cpp:314-317 | one more slot for an entry keeps its reference count equal to its slots |
| AddrManOps.CreateKeeps | src/addrman.cpp:81-91 | a created entry is reachable by address and by position, and no id is reused |
| AddrManOps.LeaveNewKeeps | src/addrman.cpp:144-154 | the first part of MakeTried removes the entry from exactly the buckets that reference it and its assert on nRefCount holds |
| AddrManOps.EvictKeeps | src/addrman.cpp:160-183 | the previous holder of a tried slot goes back to a free new slot and every assert on the way holds |
| AddrManOps.MakeTriedKeeps | src/addrman.cpp:142-188 | every assert of MakeTried holds and the invariant survives |
| AddrManOps.MakeTriedMoves | src/addrman.cpp:142-188 | the entry ends in its tried slot and an evicted one in the new table with one reference |
| AddrManOps.GoodKeeps | src/addrman.cpp:190-252 | Good_ meets every assert below it and keeps the invariant |
| AddrManOps.GoodPromotes | src/addrman.cpp:190-252 | a known new entry whose tried slot may be taken is in that slot afterwards |
| AddrManOps.NewEntryHasBucket | src/addrman.cpp:219-234 | the bucket search of Good_ finds every entry of the new table |
| AddrManOps.AddKeeps | src/addrman.cpp:254-325 | Add_ meets the asserts of ClearNew and Delete and keeps the invariant |
| AddrManOps.AttemptKeeps | src/addrman.cpp:327-347 | Attempt_ keeps the invariant |
| AddrManOps.ConnectedKeeps | src/addrman.cpp:495-513 | Connected_ keeps the invariant |
| AddrManOps.SetServicesKeeps | src/addrman.cpp:515-531 | SetServices_ keeps the invariant |
| AddrManOps.ResolveCollisions | src/addrman.cpp:537-587 | the invariant survives the resolution of collisions in any order |
| AddrManOps.SelectTriedCollision | src/addrman.cpp:589-614 | a colliding id that still exists has an occupied tried slot, so the entry returned is a real one |
| AddrManOps.GetAddr | src/addrman.cpp:474-493 | the partial shuffle permutes vRandom, keeps the invariant and offers at most 23 percent, at most 2500 |
| AddrManOps.ClearedInv | src/addrman.h:471-493 | a cleared manager without left-over collisions is consistent |
| AddrManOps.ClearedInvExact | src/addrman.h:471-493 | Clear leaves a consistent manager if and only if the collision set it keeps is empty |
| AddrManOps.LeftOverCollision | src/addrman.cpp:589-614 | after Clear with id 0 left over, adding any one routable address gives id 0 to it, and SelectTriedCollision_ on that id would index mapInfo with -1 |
| AddrManOps.EveryRunConsistent | src/addrman.cpp:397-471 | after every run of public operations from a cleared manager the structural checks of Check_ hold |
| AddrManLaws.TerribleExactly | src/addrman.cpp:33-51 | which entries are terrible, by their times and counts |
| AddrManLaws.DeleteExactly | src/addrman.cpp:113-125 | exactly the entry goes; only positions in vRandom change for the others |
| AddrManLaws.ClearNewExactly | src/addrman.cpp:127-140 | the slot is free, its holder has one reference fewer or is gone with the last, and nothing else changes |
| AddrManLaws.AddUnknown | src/addrman.cpp:254-325 | an unknown routable address gets an entry in its source slot if that is free or its holder is terrible or has other slots, which then loses one reference; otherwise tables and entries are as before |
| AddrManLaws.AddKnown | src/addrman.cpp:262-325 | a known entry's services and time are brought up to date; it gains a slot only if untried, below 8 references, last seen before the time received, by the dice and if the slot may be taken |
| AddrManLaws.AddReports | src/addrman.cpp:254-325 | the result is true exactly for an unknown routable address, and an unroutable one changes nothing |
| AddrManLaws.MakeTriedExactly | src/addrman.cpp:142-188 | the entry is in its tried slot and no new one; an evicted one is in the new slot of its own source with one reference |
| AddrManLaws.GoodExactly | src/addrman.cpp:190-252 | a success resets the counts and times of exactly the named entry; it is then moved to its tried slot, noted as colliding, or left, by the state of that slot |
| AddrManLaws.AttemptExactly | src/addrman.cpp:327-347 | an attempt sets the time of the last try, and counts as a failure at most once between two successes of any entry |
| AddrManLaws.ConnectedExactly | src/addrman.cpp:495-513 | a connection moves the time up exactly when it is more than 20 minutes old |
| AddrManLaws.SetServicesExactly | src/addrman.cpp:515-531 | the services of exactly the named entry are replaced |
| AddrManLaws.ResolveExactly | src/addrman.cpp:537-587 | a collision is forgotten, resolved by replacing the holder, or kept, by the times of its entry and of the holder of its slot |
| AddrManLaws.SelectExactly | src/addrman.cpp:589-614 | the entry handed out is the holder of the contested tried slot |
| AddrManLaws.GetAddrOffers | src/addrman.cpp:474-493 | at most 2500 and at most 23 percent are offered; below that limit every address that is not terrible |
| AddrManRoundTrip.FillSlot | src/addrman.h:435-451 | the index written for a slot names its holder and the reader puts it back into the same slot |
| AddrManRoundTrip.NextTriedFree | src/addrman.h:414-433 | reading tried entries in order always finds the tried slot free: none is lost |
| AddrManRoundTrip.NothingPruned | src/addrman.h:453-463 | no entry is deleted at the end of reading |
| AddrManRoundTrip.RoundTrip | src/addrman.h:315-469 | writing a consistent manager and reading it into a cleared one restores every address, slot, reference count and saved field; only ids, the order of vRandom and memory-only fields differ |
| AddrManRoundTrip.SameManagerInv | src/addrman.h:366-469 | the restored manager is consistent again |
| AddrManReading.AnyStreamConsistent | src/addrman.h:366-469 | any readable stream in which no address comes twice is read into a consistent manager and meets every assert, whatever version, bucket count and bucket lists it has |
| AddrManReading.RepeatedAddress | src/addrman.h:414-431 | two tried entries of one address, in slots of their own, are read without complaint into a manager that is not consistent |
| AddrManFormats.UsesBucketsExactly | src/addrman.h:369-455 | positions are used exactly for version 1 with 1024 buckets, marked by bit 30 |
| AddrManFormats.PositionsUnusable | src/addrman.h:390-463 | for any other stream each new entry is put into the slot its own source leads to, unless an earlier one is there, and the bucket lists change nothing |
| AddrMan.CAddrMan.Create | src/addrman.cpp:81-91 | all five indexes change as specified |
| AddrMan.CAddrMan.SwapRandom | src/addrman.cpp:93-111 | the two positions are exchanged as specified |
| AddrMan.CAddrMan.Delete | src/addrman.cpp:113-125 | all five indexes change as specified |
| AddrMan.CAddrMan.ClearNew | src/addrman.cpp:127-140 | the slot is freed and its holder loses a reference or is deleted |
| AddrMan.CAddrMan.MakeTried | src/addrman.cpp:142-188 | the loop over all 1024 buckets and the eviction leave exactly the specified state |
| AddrMan.CAddrMan.Good_ | src/addrman.cpp:190-252 | the state is the specified one and consistent, whichever bucket the random search starts from |
| AddrMan.CAddrMan.Add_ | src/addrman.cpp:254-325 | result and state are those that AddUnknown, AddKnown and AddReports speak of, and consistent, for either outcome of the dice |
| AddrMan.CAddrMan.Attempt_ | src/addrman.cpp:327-347 | the state is the specified one and consistent |
| AddrMan.CAddrMan.Connected_ | src/addrman.cpp:495-513 | the state is the specified one and consistent |
| AddrMan.CAddrMan.GetAddr_ | src/addrman.cpp:474-493 | entries change in their position only, vRandom is permuted, every address offered belongs to an entry that is not terrible, at most 2500 and 23 percent are offered, and below that limit none is withheld |
| AddrMan.CAddrMan.ResolveCollisions_ | src/addrman.cpp:537-587 | the state is the specified one and consistent |
| AddrMan.CAddrMan.SelectTriedCollision_ | src/addrman.cpp:589-614 | returns the holder of the contested tried slot, and indexing mapInfo adds nothing |
| AddrManDisk.Serialize | src/addrman.h:315-363 | the loops write exactly the specified record; the counting asserts hold |
| AddrManDisk.Clear | src/addrman.h:471-493 | the manager is the cleared one, except that the collision set is kept |
| AddrManDisk.Unserialize | src/addrman.h:365-469 | the reading loops yield exactly the specified manager, or fail exactly when it is undefined |
| AddrManDisk.SaveAndLoad | src/addrman.h:315-469 | writing one object and reading into another restores it and leaves it consistent |
| MerkleBlock.WidthFormula | src/merkleblock.h:66-68 | CalcTreeWidth's rounding shift counts the nodes of the level |
| MerkleBlock.NodesDiffer | src/merkleblock.cpp:101-107 | under distinct leaves two nodes of one height never share a hash |
| MerkleBlock.IndicesIncrease | src/merkleblock.cpp:78-114 | reported indices strictly increase and are in range, for any bits and hashes |
| MerkleBlock.ProofSound | src/merkleblock.cpp:78-163 | if arbitrary bits and hashes yield the true root for the true count, every reported pair is the real leaf at that index |
| MerkleBlock.MatchedExact | src/merkleblock.cpp:86-93 | the expected findings are exactly the matched positions in order |
| MerkleBlock.NodeRoundTrip | src/merkleblock.cpp:60-114 | decoding an encoded node consumes exactly its bits and hashes and returns its hash and matches |
| MerkleSizes.HashesAtMostLeaves | src/merkleblock.h:39 | N is at most the number of transactions |
| MerkleSizes.HashesAtMostPaths | src/merkleblock.h:40 | N is at most one more than the matches times the height |
| MerkleSizes.EncodedSize | src/merkleblock.h:37-49 | both bounds on N, and at most 2N-1 plus height flag bits |
| MerkleSizes.BitBoundExact | src/merkleblock.h:47 | the documented bound of 2N-1 flag bits holds if and only if no level ends in a single child with a match below it |
| MerkleSizes.BitBoundFails | src/merkleblock.h:47 | three transactions with the last one matched need four bits for two hashes |
| MerkleSizes.WireSizeExact | src/merkleblock.h:31-49 | within the count limit of ExtractMatches the encoding takes at most 5 bytes more than the documented 10 + ceil(32.25 N); it takes no more than documented if and only if its two counts and the extra flag bytes make up at most 6 bytes, hence always up to 252 hashes and never from 65536 on |
| MerkleSizes.DocumentedSizeFails | src/merkleblock.h:34 | a block of 65536 or more transactions, all matched, exceeds the documented size |
| MerkleSizes.NoOverflow | src/merkleblock.cpp:138-139 | within the count limit no shift or sum of the 32-bit expressions wraps |
| MerkleTwins.TwinRoundTrip | src/merkleblock.cpp:60-114 | decoding an encoded node without any assumption on hashes: it yields hash and matches, and is bad exactly when the encoder descended from a node with equal children |
| MerkleTwins.HonestProofRefused | src/merkleblock.cpp:101-107 | an honest proof is refused exactly when it descends from a node with equal children |
| MerkleTwins.RepeatedSameRoot | src/merkleblock.cpp:101-107 | repeating the last of an odd number of transactions, three or more, does not change the root |
| MerkleTwins.RepeatedRefused | src/merkleblock.cpp:101-107 | a proof that shows the repeated transaction of such a block is refused |
| MerkleTwins.AcceptedShape | src/merkleblock.cpp:132-163 | a tree that yields a root has at least one and at most 133333 transactions, at most as many hashes, and no hash and no flag byte left over |
| MerkleTwins.CutRefused | src/merkleblock.cpp:78-163 | an accepted proof cut short, in its hashes or its flag bits, is refused, unless only bits behind those used go, within the last byte |
| MerkleTree.EncodedRoundTrip | src/merkleblock.cpp:132-163 | padding bits do not disturb the decoder |
| MerkleTree.RoundTrip | src/merkleblock.cpp:40-163 | building from any mask, packing, unpacking and extracting returns the root and exactly the matched transactions with their positions |
| MerkleTree.CPartialMerkleTree.TraverseAndBuild | src/merkleblock.cpp:60-76 | appends exactly the bits and hashes of the node behind what was stored |
| MerkleTree.CPartialMerkleTree.Serialize | src/merkleblock.h:98-103 | the bytes hold exactly the bits, padded with zeros |
| MerkleTree.CPartialMerkleTree.Unserialize | src/merkleblock.h:91-97 | the bits are exactly those of the bytes, and fBad is cleared |
| MerkleTree.CPartialMerkleTree.TraverseAndExtract | src/merkleblock.cpp:78-114 | counters, findings and fBad move exactly as the recursive decoder says |
| MerkleTree.CPartialMerkleTree.ExtractMatches | src/merkleblock.cpp:132-163 | returns the specified root or the null hash, and the specified findings |
| MerkleTree.Relay | src/merkleblock.cpp:40-163 | a proof built by one peer, sent as bytes and extracted by another yields the root and the matches |
| Base58.DigitFound | src/base58.cpp:14-38 | the symbol table and the search in the alphabet agree in both directions |
| Base58.DecodeEncode | src/base58.cpp:16-104 | parsing a printed byte string gives the bytes back, for all bytes and any surrounding spaces |
| Base58.EncodeDecode | src/base58.cpp:16-104 | every string over the alphabet parses and prints back as it was |
| Base58.DecodeExact | src/base58.cpp:16-64 | a string parses to given bytes if and only if it is their printed form between spaces |
| Base58.DecodeCheckExact | src/base58.cpp:116-145 | a payload is accepted if and only if the string is its own checksummed printed form |
| Base58Vectors.AlphabetExactly | src/base58.cpp:14 | the alphabet is the digits and letters without 0, O, I and l, in the order of their codes |
| Base58Vectors.OneByte | src/test/data/base58_encode_decode.json:3 | the byte 61 is printed as 2g |
| Base58Vectors.ThreeBytes | src/test/data/base58_encode_decode.json:4-5 | two numbers of three bytes and their printed forms |
| Base58Vectors.FiveBytes | src/test/data/base58_encode_decode.json:8 | five bytes and their printed form ABnLTmg |
| Base58Vectors.TenZeros | src/test/data/base58_encode_decode.json:13 | ten zero bytes are ten ones |
| Base58Vectors.SkipDecoded | src/test/base58_tests.cpp:62-66 | all six kinds of space are skipped on both sides of a printed string |
| Base58Buffers.EncodeBufferSuffices | src/base58.cpp:76 | 256^n is strictly below 58^(138n/100+1) for every n |
| Base58Buffers.DecodeBufferSuffices | src/base58.cpp:29 | 58^n is strictly below 256^(733n/1000+1) for every n |
| Base58Buffers.MulAdd | src/base58.cpp:39-45 | the inner carry loop multiplies and adds in place, and the assert that no carry is left holds |
| Base58Buffers.EncodeBase58 | src/base58.cpp:66-104 | the digit buffer algorithm prints exactly the specified string |
| Base58Buffers.DecodeBase58 | src/base58.cpp:16-64 | the digit buffer algorithm accepts and returns exactly what is specified |
| Base58Buffers.DecodeBase58Check | src/base58.cpp:125-145 | short or mismatching payloads are refused, others returned without checksum |
| Base58Buffers.PrintAndParse | src/base58.cpp:116-145 | what is printed with its checksum is read back |
| Bech32Code.StepLinear | src/bech32.cpp:65-92 | the step of PolyMod is XOR-linear |
| Bech32Code.StepInjective | src/bech32.cpp:65-92 | no two words step to the same word under one symbol |
| Bech32Code.PolyLinear | src/bech32.cpp:37-94 | the remainder of a sum is the sum of the remainders |
| Bech32Code.PolyInjective | src/bech32.cpp:37-94 | a common suffix hides no difference |
| Bech32Code.PolyPacks | src/bech32.cpp:37-94 | from zero, up to six symbols are their own remainder |
| Bech32.ChecksumVerifies | src/bech32.cpp:118-139 | every created checksum verifies |
| Bech32.WindowDetected | src/bech32.cpp:118-125 | two data parts that differ only inside a window of six symbols never both verify under one prefix |
| Bech32Errors.TwoErrorsDetected | src/bech32.cpp:37-94 | any two wrong symbols anywhere in a data part of up to 89 symbols are detected |
| Bech32.ChecksumUnique | src/bech32.cpp:118-139 | whatever verifies carries the created checksum |
| Bech32.ReverseOfCharset | src/bech32.cpp:13-25 | the reverse table undoes the character table |
| Bech32.CharsetOfReverse | src/bech32.cpp:13-25 | and the character table undoes the reverse table, case aside |
| Bech32Vectors.ExpandedPrefix | src/bech32.cpp:103-115 | each character's high and low part make up its code, at distance one more than the length, with a zero between |
| Bech32Strings.RoundTripExact | src/bech32.cpp:147-189 | decoding an encoding returns prefix and values if and only if the prefix is nonempty, printable and without capitals and the whole fits in 90 characters |
| Bech32Strings.DecodeSound | src/bech32.cpp:159-189 | whatever is decoded encodes to the lower-cased input |
| Bech32Strings.DecodeExact | src/bech32.cpp:159-189 | a string is accepted as given values if and only if its characters are printable and of one case, it is at most 90 long, and with capitals moved to small letters it is their encoding |
| Bech32Strings.DecodeIgnoresCase | src/bech32.cpp:159-189 | a string in one case decodes like its lower-case form |
| Bech32Vectors.ShortVector | src/test/bech32_tests.cpp:29 | a12uel5l is the string of the prefix a without values, in both directions |
| Bech32Vectors.LongVector | src/test/bech32_tests.cpp:31 | the string of the prefix abcdef with all 32 values in order, in both directions |
| Bech32Vectors.CapitalVector | src/test/bech32_tests.cpp:57 | A1G7SGD8, whose checksum was made over the capital prefix, is refused |
| Bech32Vectors.RefusedVectors | src/test/bech32_tests.cpp:48-58 | strings with a character out of range, without separator, without prefix, or with too short a checksum are refused |
| Bech32Vectors.NoSymbolVector | src/test/bech32_tests.cpp:54 | a string with a character outside the table is refused |
| Bech32Loops.PolyMod | src/bech32.cpp:37-94 | the loop computes the specified fold |
| Bech32Loops.ExpandHRP | src/bech32.cpp:103-115 | the in-place fill yields the expansion that ExpandedPrefix describes |
| Bech32Loops.CreateChecksum | src/bech32.cpp:128-139 | the six symbols are those that verify |
| Bech32Loops.Encode | src/bech32.cpp:147-156 | the loop prints the specified string |
| Bech32Loops.Decode | src/bech32.cpp:159-189 | the loops accept and return exactly what is specified |
| ArithUint.ProductFits | src/arith_uint256.cpp:58-83 | the 64-bit product with a carry never overflows |
| ArithUint.base_uint.Add | src/arith_uint256.h:141-151 | addition modulo 2^(32 width), also of a number to itself |
| ArithUint.base_uint.Negate | src/arith_uint256.h:83-90 | the additive inverse modulo 2^(32 width) |
| ArithUint.base_uint.Subtract | src/arith_uint256.h:153-157 | subtraction modulo 2^(32 width), also of a number from itself |
| ArithUint.base_uint.Increment | src/arith_uint256.h:179-186 | one more, modulo 2^(32 width) |
| ArithUint.base_uint.Decrement | src/arith_uint256.h:196-203 | one less, modulo 2^(32 width) |
| ArithUint.base_uint.MultiplySmall | src/arith_uint256.cpp:58-67 | multiplication by a 32-bit number modulo 2^(32 width) |
| ArithUint.base_uint.Multiply | src/arith_uint256.cpp:70-83 | the truncated product; multiplying a number by itself in place yields zero |
| ArithUint.base_uint.ShiftLeft | src/arith_uint256.cpp:24-38 | multiplication by a power of two modulo 2^(32 width), for every shift |
| ArithUint.base_uint.ShiftRight | src/arith_uint256.cpp:41-55 | floor division by a power of two, for every shift |
| ArithUint.base_uint.Divide | src/arith_uint256.cpp:86-109 | the exact floor quotient for every nonzero divisor; false exactly for zero |
| ArithUint.base_uint.CompareTo | src/arith_uint256.cpp:112-121 | the sign of the difference |
| ArithUint.base_uint.EqualTo | src/arith_uint256.cpp:124-135 | equality with a 64-bit number |
| ArithUint.base_uint.Bits | src/arith_uint256.cpp:174-186 | the bit length: the value lies between two consecutive powers of two |
| ArithUint.base_uint.GetLow64 | src/arith_uint256.h:251-255 | the value modulo 2^64 |
| ArithUint.AlignedFits | src/arith_uint256.cpp:97-98 | aligning the divisor with the dividend loses no bit |
| Compact.OverflowExact | src/arith_uint256.cpp:219-222 | the overflow flag is set exactly when the denoted magnitude needs more than 256 bits |
| Compact.RoundedBelow | src/arith_uint256.cpp:206-247 | decoding an encoding never exceeds the number and misses it by less than max(1, 256^(size-3)) |
| Compact.CompactMonotone | src/arith_uint256.cpp:226-247 | encoding is monotone |
| Compact.RoundedMonotone | src/arith_uint256.cpp:206-247 | decoding an encoding is monotone |
| Compact.CompactIdempotent | src/arith_uint256.cpp:206-247 | encoding a decoded encoding changes nothing |
| Compact.FlagsKept | src/arith_uint256.cpp:206-247 | the sign survives, except that zero has none, and no overflow is reported |
| RetargetLaws.SetCompactVectors | src/test/arith_uint256_tests.cpp:412-538 | values and flags read from concrete compact numbers |
| RetargetLaws.GetCompactVectors | src/test/arith_uint256_tests.cpp:412-538 | compact numbers written for concrete values |
| ProofOfWork.SetCompact | src/arith_uint256.cpp:206-224 | value and both flags are those of the denoted number |
| ProofOfWork.GetCompact | src/arith_uint256.cpp:226-247 | the specified encoding; both asserts hold |
| ProofOfWork.WorkFormula | src/chain.cpp:129-133 | ~t / (t + 1) + 1 is the floor of 2^256 / (t + 1) |
| ProofOfWork.TargetRoom | src/chain.cpp:121-134 | a target in range never makes t + 1 wrap |
| ProofOfWork.BlockProofExactly | src/chain.cpp:121-134 | the work of a valid target is the floor of 2^256 / (target + 1), at least one, and falls as the target grows; an invalid one has none |
| ProofOfWork.GetBlockProof | src/chain.cpp:121-134 | exactly the floor of 2^256 / (target + 1) for every valid target, zero otherwise |
| ProofOfWork.RetargetInRange | src/pow.cpp:53-76 | the new target is non-negative, not overflowing and at most the limit, whatever the bits and times |
| ProofOfWork.RetargetExact | src/pow.cpp:53-76 | the new target is min(limit, old * clamped span / timespan) if and only if the product fits 256 bits or the wrapped product still reaches the limit |
| ProofOfWork.RetargetWraps | src/chainparams.cpp:90 | at the lowest main network difficulty with blocks four times too slow the product wraps and the new target is less than a fiftieth of the intended one |
| RetargetLaws.SameInterval | src/pow.cpp:43-51 | at an interval boundary, chains with the same last DifficultyAdjustmentInterval() blocks get the same bits; without retargeting those of the last block |
| RetargetLaws.WithinInterval | src/pow.cpp:23-41 | between boundaries the last bits stay; where minimum-difficulty blocks are allowed, a late block may have the limit and others return to the last regular bits |
| RetargetLaws.ScaledByTime | src/pow.cpp:53-76 | without a wrap the target is scaled by the time from the first to the last block of the interval over the intended time, within a quarter and four times, and cut at the limit |
| RetargetLaws.OnSchedule | src/pow.cpp:53-76 | an interval that took exactly the intended time keeps the target, re-encoded and cut at the limit |
| RetargetLaws.WithinFour | src/pow.cpp:53-76 | without a wrap the target at most quadruples, and unless cut at the limit falls at most to a quarter, whatever the times |
| ProofOfWork.CalculateNextWorkRequired | src/pow.cpp:53-76 | encodes exactly that target |
| ProofOfWork.CheckProofOfWork | src/pow.cpp:105-122 | accepts exactly hashes at most the denoted target, which must be positive, in range and at most the limit |
| ProofOfWork.GetNextWorkRequired | src/pow.cpp:17-51 | yields the bits that the laws of RetargetLaws speak of: at interval boundaries by the times of that interval, otherwise the last bits or those of the minimum-difficulty rule; the asserts hold |
| SkipList.InvertIsAnd | src/chain.cpp:70 | the recursive definition of InvertLowestOne is n & (n - 1) |
| SkipList.OddPhase | src/chain.cpp:73-103 | from an odd height the walk loses two one bits in each step until the highest bit that differs from the target is reached |
| SkipList.EightPhase | src/chain.cpp:73-103 | from a multiple of eight it loses exactly one bit in each step |
| SkipList.EvenPhase | src/chain.cpp:73-103 | from any other even height it goes by way of the predecessor's skip pointer and then loses two bits in each step |
| SkipList.Ones | src/chain.cpp:73-103 | a walk down from an all-ones height takes one such phase for every one bit of its length |
| SkipList.Tradeoff | src/chain.cpp:73-103 | the part above and the part below the point where the highest differing bit is cleared share the bits of the walk's length |
| SkipList.StepsAtMost | src/chain.cpp:73-103 | between any two heights at most 2^k apart the walk takes at most max((k-1)^2/4 + 2k + 1, k^2/4 + 2k - 7) steps, for every k of at least 3 |
| SkipList.StepsAttained | src/chain.cpp:73-103 | for k of at least 16 that is k^2/4 + 2k - 7, and the walk from 2^k - 8 to 2 takes exactly that many steps |
| SkipList.DocumentedSteps | src/chain.cpp:77-80 | at most 110 steps go back up to 2^18 blocks, as the comment's simulations found, from any height; 262136 to 2 takes 110 |
| Chain.CBlockIndex.GetAncestor | src/chain.cpp:83-108 | following skip pointers terminates and finds exactly the block that walking pprev finds; with all skip pointers set, at most 110 are followed back up to 2^18 blocks |
| Chain.CBlockIndex.BuildSkip | src/chain.cpp:115-119 | the skip pointer is the ancestor at GetSkipHeight, so the skip list stays in order and complete |
| Chain.SharedBelow | src/chain.cpp:11-21 | two branches that agree at a height agree below it |
| Chain.CChain.SetTip | src/chain.cpp:11-21 | stopping early still leaves exactly the ancestors of the new tip |
| Chain.CChain.FindFork | src/chain.cpp:51-60 | the highest block of the chain that is an ancestor of the given one, null if none |
| Chain.DepthIncreases | src/chain.cpp:35-45 | the depths of locator entries strictly increase |
| Chain.LocatorDone | src/chain.cpp:23-49 | a list built that way is strictly descending, one block apart for eleven steps and then twice as far each time, ends at genesis and, with 12 or more entries, satisfies 2^(entries-12) + 9 < height |
| Chain.CChain.GetLocator | src/chain.cpp:23-49 | yields such a locator from the given block or the tip |
| Chain.LastCommonAncestor | src/chain.cpp:155-170 | the highest common block of two branches, null if none; the assert holds |
| CuckooSpec.FindsContents | src/cuckoocache.h:467-477 | every element of the table is found at its slot |
| CuckooSpec.KeepOk | src/cuckoocache.h:398-405 | re-inserting an element makes it live again and loses nothing |
| CuckooSpec.PlaceOk | src/cuckoocache.h:407-415 | overwriting a collectable slot loses at most what that slot held and no live element |
| CuckooSpec.SwapOk | src/cuckoocache.h:430-438 | a displacement exchanges exactly one live element for the carried one |
| CuckooSpec.FirstDisplacement | src/cuckoocache.h:419-431 | the first displacement uses the second candidate, not the first as the comment says |
| CuckooSpec.DisplaceOk | src/cuckoocache.h:406-440 | the whole displacement loses at most one element, live or erased |
| CuckooSpec.InsertOk | src/cuckoocache.h:392-440 | an insertion keeps elements unique and at their own candidates, drops at most one live element, makes at most one entry unfindable and adds at most one to the epoch |
| CuckooSpec.EraseOk | src/cuckoocache.h:266-269 | erasing ends liveness only; the element stays findable |
| CuckooSpec.EpochCheckOk | src/cuckoocache.h:289-321 | after epoch_check one more element of the epoch still fits the allowance |
| CuckooSpec.CacheInsertOk | src/cuckoocache.h:289-440 | insert keeps the bound: live elements of the epoch plus the counter at most epoch_size + max(1, epoch_size / 16) |
| CuckooSpec.CacheContainsOk | src/cuckoocache.h:467-477 | an inserted element that was not displaced is found, and is still found after being erased |
| CuckooSpec.EveryRunOk | src/cuckoocache.h:289-477 | the invariant and the epoch bound hold after every run from a fresh cache, whatever the hash function |
| CuckooLaws.NextLocExactly | src/cuckoocache.h:417-431 | the slot after the one just used is tried next, the first following the eighth, and an element is not put back where it was displaced from |
| CuckooLaws.InsertPresent | src/cuckoocache.h:398-405 | an element already there becomes live and current in its place |
| CuckooLaws.InsertFree | src/cuckoocache.h:406-415 | a new element goes to its first slot that may be overwritten |
| CuckooLaws.InsertDrops | src/cuckoocache.h:406-440 | an element is dropped if and only if it is new and depth_limit displacements in a row meet only live slots |
| CuckooLaws.CountExactly | src/cuckoocache.h:300-304 | the count is the number of live slots of the current epoch |
| CuckooLaws.EpochCheckExactly | src/cuckoocache.h:289-321 | slots are discarded exactly when the counter has run down and the epoch is full; then exactly the older ones |
| CuckooLaws.EpochSizeExactly | src/cuckoocache.h:341-352 | the epoch size is 45 percent of the slots, at least one |
| CuckooLaws.ContainsExactly | src/cuckoocache.h:467-477 | a lookup answers whether a candidate slot holds the element; erasing ends the liveness of that element only |
| CuckooCache.LocsExactly | src/cuckoocache.h:243-253 | the eight candidates are the eight scaled words of the hash, in order |
| CuckooCache.bit_packed_atomic_flags.bit_set | src/cuckoocache.h:92-95 | sets one packed flag and no other |
| CuckooCache.bit_packed_atomic_flags.bit_unset | src/cuckoocache.h:103-106 | clears one packed flag and no other |
| CuckooCache.Location | src/cuckoocache.h:243-253 | the scaled hash is always a slot of the table |
| CuckooCache.cache.epoch_check | src/cuckoocache.h:289-321 | the flags of the whole table and the counter change as specified |
| CuckooCache.cache.insert | src/cuckoocache.h:392-440 | the loop leaves exactly the specified table, and the invariant holds |
| CuckooCache.cache.contains | src/cuckoocache.h:467-477 | result and table are the specified ones, and the invariant holds |
| RollingHistory.TallyTotal | src/bloom.cpp:250-266 | insertions are complete generations plus the current one |
| RollingHistory.ExpectedStep | src/bloom.cpp:248-276 | one insertion recycles a generation number and stores the new one without disturbing any other cell |
| RollingHistory.VisibleExact | src/bloom.cpp:250-266 | a key's number is still stored if and only if it is among the latest 2 * nEntriesPerGeneration + nEntriesThisGeneration |
| RollingHistory.WindowExact | src/bloom.cpp:248-276 | a cell is set if and only if one of those latest keys touches it: the filter equals a plain Bloom filter of them |
| RollingHistory.RecentKept | src/bloom.h:113-114 | each of those keys has all its cells set |
| RollingBloom.CRollingBloomFilter.Wipe | src/bloom.cpp:256-264 | the masks wipe exactly the cells that hold the recycled number, although cells share words |
| RollingBloom.CRollingBloomFilter.MarkCell | src/bloom.cpp:268-275 | writes the number into one cell and changes no other |
| RollingBloom.CRollingBloomFilter.insert | src/bloom.cpp:248-276 | the bits are those the extended history prescribes |
| RollingBloom.CRollingBloomFilter.contains | src/bloom.cpp:284-296 | true if and only if each cell of the key belongs to one of the latest keys |
| RollingBloom.CRollingBloomFilter.reset | src/bloom.cpp:304-312 | an empty history under a new tweak |
| RollingBloom.LatestReported | src/bloom.h:113-114 | one of the latest nElements keys is always reported, for every 32-bit nElements, the largest included, for which nElements + 1 wraps to empty generations |
| RollingBloom.EveryCellReached | src/bloom.cpp:268-275 | for every cell of the table there are hashes that lead to it |
| IndexCoding.RoundTripExact | src/blockencodings.h:38-68 | reading back what was written restores the indexes if they strictly increase, and throws otherwise |
| IndexCoding.DecodedIncreasing | src/blockencodings.h:55-61 | an accepted list strictly increases if and only if the differences received, each but the first counted one up, nowhere before the last add up to 65535 |
| IndexCoding.DecodedNotIncreasing | src/blockencodings.h:55-61 | the differences 65535 and 0 are accepted as the indexes 65535 and 0 |
| IndexCoding.DecodeEncode | src/blockencodings.h:38-68 | an increasing list has only one encoding |
| IndexCoding.BlockTransactionsRequest.Serialize | src/blockencodings.h:62-67 | writes the specified differences |
| IndexCoding.BlockTransactionsRequest.Unserialize | src/blockencodings.h:42-61 | reading in portions and adding offsets in place accepts and yields exactly what is specified |
| CompactSlots.PlacedAt | src/blockencodings.cpp:58-73 | each prefilled transaction is in its own place and no other place is taken |
| CompactSlots.PlacedFree | src/blockencodings.cpp:58-85 | an accepted announcement leaves as many free slots as it has short ids |
| CompactSlots.AcceptsExactly | src/blockencodings.cpp:48-73 | an announcement is accepted exactly if it has a header, 1 to 800000 transactions, and no prefilled one that is null or whose place exceeds 65535 or what the short ids before it reach; each is then at its place |
| CompactSlots.SearchFits | src/blockencodings.cpp:81-85 | the 16-bit search offset reaches every free slot if and only if fewer than 65536 places are prefilled or no short id is left |
| CompactSlots.SearchCases | src/blockencodings.cpp:58-84 | every slot a 16-bit offset reaches from the first one is taken if and only if 65536 places are prefilled |
| CompactSlots.EndlessSearch | src/blockencodings.cpp:81-85 | a concrete accepted announcement, 65536 prefilled transactions at distance 0 and one short id, on which every offset meets a taken slot |
| CompactSlots.MergeRestores | src/blockencodings.cpp:182-190 | filling the missing transactions of a block into the free slots rebuilds the block |
| CompactScan.MapSize | src/blockencodings.cpp:101-102 | the id map is as large as the id list if and only if no two ids are equal |
| CompactScan.MapAt | src/blockencodings.cpp:85 | an id is mapped to its own slot if and only if that is one of the first 65536 |
| CompactScan.ConsiderExactly | src/blockencodings.cpp:109-163 | the first entry under an id fills its slot; a later one empties it, from the mempool always, from the extra transactions if it is a different one; once emptied it stays empty |
| CompactScan.ConsiderOk | src/blockencodings.cpp:109-163 | one entry of either scan keeps: a filled slot holds a listed transaction with which every scanned entry under its id agrees, and an unambiguous match is never dropped |
| CompactScan.AllFilled | src/blockencodings.cpp:126-130 | the early exit is only taken when every slot is filled |
| CompactKnown.MatchedKnown | src/blockencodings.cpp:48-168 | with distinct short ids and at most 65536 transactions, each slot holds its prefilled transaction or one listed under its id, and an unambiguous id is filled if and only if something is listed |
| CompactKnown.MatchedUnknown | src/blockencodings.cpp:85 | for any accepted announcement of more than 65536 transactions some pool shows that matching fails |
| CompactKnown.KnownExact | src/blockencodings.cpp:48-168 | matching is right for all short id functions, pools and extra transactions if and only if there are at most 65536 transactions |
| CompactKnown.LargeAnnouncement | src/blockencodings.cpp:48-54 | a concrete accepted announcement of 65537 short ids, and a pool, for which matching fails |
| CompactBlocks.PartiallyDownloadedBlock.InitData | src/blockencodings.cpp:48-168 | for every announcement the status is decided as specified, with no result exactly when an accepted one prefills 65536 places and still has short ids; accepted, the slots are the ones that MatchedKnown and KnownExact speak of |
| CompactBlocks.PartiallyDownloadedBlock.SearchFree | src/blockencodings.cpp:83-84 | the search stays within the slots and ends at the next free one without wrapping its 16-bit offset, or goes round for ever, exactly when every slot in reach is taken |
| CompactBlocks.PartiallyDownloadedBlock.FillBlock | src/blockencodings.cpp:176-218 | too few or too many transactions are refused; otherwise the block is the merge, and the status is OK, FAILED or CHECKBLOCK_FAILED if and only if CheckBlock finds it good, possibly corrupted or bad |
| CompactRelay.Announce | src/blockencodings.cpp:18-28 | the announcement describes the block: the first transaction is prefilled, and the short ids are those of the hashes or witness hashes of the others, as asked |
| CompactRelay.KnownAgrees | src/blockencodings.cpp:104-163 | without short-id collisions everything available is the block's own |
| CompactRelay.MissingTravels | src/blockencodings.h:38-68 | the list of missing indexes survives the index coding |
| CompactRelay.SendBlockTransactions | src/net_processing.cpp:1282-1291 | answers with the transactions at the requested indexes, or refuses if one is out of range |
| CompactRelay.Relay | src/blockencodings.cpp:18-218 | announcement, matching, request, answer and filling rebuild exactly the announced block, unless its short ids collide or crowd the map; the status is OK, FAILED or CHECKBLOCK_FAILED if and only if CheckBlock finds it good, possibly corrupted or bad |

## Left out

- BlockAssembler.Assembler.AddPackageTxs: the fees of the index are claimed to be exact only while no transaction's fee is modified, because the index subtracts `GetFee` (src/miner.h:117) where it first subtracted `GetModifiedFee` (src/miner.cpp:264); the two score comparisons are left open, so quality of the selection is not claimed, and when a fee below the minimum ends it nothing is said of transactions other than the one it ended at.
- BlockAssembler.Assembler.AddPackage: the pool's ancestor and descendant sets and cached totals are assumed exact; txmempool.cpp is not part of this model.
- CheckQueueProtocol.EveryRunIsSafe: one master at a time, as ControlMutex provides; CCheckQueueControl itself is left out, and threads never leave through an interruption.
- CheckQueueProtocol.WaitCanAdvance: states that an advancing step exists, not that a fair scheduler takes it.
- CoinsSpec.FlushRefines: the best-block hash, GetBestBlock's lazy caching, HaveInputs, GetValueIn, AccessByTxid and cursors are left out.
- CoinsCache.CoinsViewDB.BatchWrite: the database is a map; batching, crash simulation and head blocks are left out.
- CoinsCache.CoinsViewCache.BatchWrite: when it throws, what part has been merged is left open.
- AddrManOps.EveryRunConsistent: Select_ and GetChance (floating point) are left out; bucket and position hashes are arbitrary functions.
- AddrManRoundTrip.RoundTrip: the stream is a record of fields, not bytes; -1 slots are absent map keys in the value model.
- AddrManDisk.Unserialize: the version byte and the bucket-count check are modelled, byte encodings are not; negative counts of new entries, tried entries or buckets, which the source reads on with (src/addrman.h:366-469), are refused as unreadable, so what such a stream leaves behind is not modelled.
- AddrManReading.AnyStreamConsistent: of streams that repeat an address only the example of `AddrManReading.RepeatedAddress` is given; the collision set is the empty one of a new manager.
- MerkleTree.RoundTrip: the pair hash is a parameter assumed injective on pairs; widths are unbounded integers, with MerkleSizes.NoOverflow for the 32-bit ones; vnIndex is not cleared and fBad is sticky, as in the code.
- Base58Buffers.DecodeBase58Check: the hash is a parameter giving the four checksum bytes; `int` lengths are unbounded.
- Bech32Strings.DecodeExact: ConvertBits and address semantics are not part of this model; symbols are 5-bit by type.
- Bech32Errors.TwoErrorsDetected: the detection of up to four wrong symbols that the comment of PolyMod reports is proved for two symbols anywhere and for any number within a window of six (Bech32.WindowDetected), not for three or four spread wider.
- ArithUint.base_uint.Divide: hexadecimal strings, getdouble and the bitwise and, or, xor operators are left out; the width is that of the limb array, at least two.
- ProofOfWork.GetNextWorkRequired: the Equihash check is not part of this model.
- Chain.CChain.GetLocator: blocks stand for their hashes, heights and nStep are unbounded; FindEarliestAtLeast and GetBlockProofEquivalentTime are left out.
- Chain.CBlockIndex.GetAncestor: steps are counted when every skip pointer has been set; with some missing only the result is claimed.
- SkipList.StepsAtMost: for k below 16 the bound is not claimed to be attained.
- CuckooCache.cache.insert: elements are numbers and the depth limit, a rounded logarithm, is a parameter; which slots were ever filled is recorded by a ghost field, since an empty slot cannot be told from one that holds the default element.
- CuckooCache.cache.contains: concurrent calls and the memory order of the collection flags are left out.
- RollingBloom.CRollingBloomFilter.insert: table size and number of hash functions come from floating point and are parameters; the table must not be empty, as it would be for zero elements, where the code divides by zero.
- RollingBloom.CRollingBloomFilter.Wipe: a 64-bit word is the sequence of its bits, lowest first.
- RollingBloom.LatestReported: the false positive rate is not claimed.
- CompactBlocks.PartiallyDownloadedBlock.InitData: bucket sizes of the id map are an arbitrary function; the counter of extra transactions, which is only logged, and empty slots in the list of extra transactions are left out; the object is a new one, as its callers make it, since after FillBlock its mempool_count would not start from zero.
- CompactRelay.Relay: SipHash is an arbitrary function of the listed hash, and that no known transaction collides with a different one of the block is a premise.
- Sockets, RPC, the wallet, scripts, the database engine, hash and signature internals, logging and timing are not part of this model.
