# Verified models of wow's shared-memory cache, sort and kernels

This project models the parts of the repository whose correctness is hardest to see from the code, and proves what they
promise. `dafny verify dfyconfig.toml` checks everything.

**quadsort** (`StableMerge`, `Quadsort*`). The stable, in-place, adaptive merge sort, generic over the element type and over
any total preorder given as a three-way comparison. Every function of the C file is a method over arrays; its contract is an
equation between a stretch of the array and a merge or sort of what was there before. Why no unchecked pointer leaves its
block is a set of small counting lemmas about merges.

**Shared-memory cache** (`Shm*`). Two levels. `ShmModel` says as values what every operation does to the FIFO list of
entries, the stripings (bump allocators) and the two queues of stripings; set and the rearrangement it may end in call each
other, as in the code. `ShmInvariant`, `ShmHandles` and `ShmTheorems` prove what every run keeps, `ShmEviction` what a set
means as a map update with eviction; `ShmRecycling` says which striping a recycle empties and exactly when that makes room,
`ShmRearranging` exactly when a rearrangement succeeds, `ShmLiveness` exactly when allocations and sets do, `ShmOutcome` which
entries a set leaves and where the new one is put. `ShmObjectPool`
(the ring queue), `ShmList` (the circular list through handles), `ShmBuckets` (the chained table) and `ShmCache` are the C
structures in place: each method is proved to do what the model says and to keep chains, list, queues and counters in
agreement.
`ShmLock` is the lock and its recovery from dead owners as interleaved steps of processes that may crash anywhere: what a
crash leaves behind is any state whose layout is intact (an operation writes a striping's bounds only when it creates the
striping, and until then the striping has no extent), and clearing makes a valid cache of exactly those states.

**AVL key/value list** (`KvTree`, `KvList`, `KvStrings`). The tree functions with stored heights, proved against sorted
association lists; the same algorithms relinking node objects in place; and what becomes of their strings.

**Kernels.** CRC registers (`Crc16`, `Crc32`), calendar conversions with their machine integers (`WowTime`), the byte ring
buffer (`RingBuffer`), Base64 (`Base64`).

Where the code does not meet what it documents, the model follows the code:

- `shm_object_pool_remove` is documented to return the removed offset, but reads the slot after shifting it, so it returns
  the predecessor unless the head is removed; `shm_value_allocator_do_alloc` then drops the striping from both queues. The
  cache is modelled with both behaviours (`documentedRemove`). With the documented one a recycle that returns 0 makes the
  next allocation succeed; with the coded one `ShmCounterexample` gives a run that breaks this, `RecycleThenAnyAlloc` says
  exactly when it holds, `AllocSucceedsExactly` and `SetSucceedsExactly` what that means for allocations and sets, and
  `WalkLosesNone` exactly when an attempt loses no striping. The same header comment promises to remove the tail when there
  is no iterator; the code returns -1.
- The recovery of the lock needs the owner's pid on record. An owner (or a recovering process) that dies while the mutex
  is taken and the pid is zero blocks the cache for good; `StuckExactly` gives the condition both ways, and `ReleasedWithin`
  bounds how long recovery takes otherwise.
- `rtc_to_msec` multiplies years into an `int`; from 2039 on the product overflows. Signed overflow is taken to wrap.
- The write of the ring buffer is documented to fail when the free space is less than needed; the code also refuses an
  exact fit, which keeps full and empty apart.
- A deletion from the AVL list at a node with two children makes the node point at its successor's strings and then frees
  them with the successor (wow_kv_list.c:171-174); `KvStrings.DeleteDangles` says that this is the only case, and
  `ThreeSetsDangle` reaches it. A set of an existing key stores the caller's value pointer instead of a copy
  (wow_kv_list.c:102), and leaks the old one (an update or a deletion then frees the caller's buffer); an update allocates the
  terminator but does not write it (wow_kv_list.c:206-208). `KvStrings.SetReads` and `UpdateReads` say exactly when the values
  still read as set. In `KvTree` and `KvList` strings are values, so they say what the caller is meant to see.

Time is a parameter of the cache operations, one value per call. The hash function is any function from byte strings to
numbers. Integers are unbounded except where their width matters (handles, CRC registers, time, Base64 lengths). An
allocator structure's offset in the shared segment is represented by its index plus one.

## Model

| member | source | states |
|---|---|---|
| Quadsort.QuadSort | wow_iot/inc/algorithm/quadsort.c:960-998 | For every array and total preorder, and whichever allocation succeeds (large buffer, 512 elements, 32 on the stack), the array ends as the sorted permutation of its input in which equivalent elements keep their order |
| Quadsort.SortWithSwap | wow_iot/inc/algorithm/quadsort.c:1000-1010 | The same for the caller's own buffer of the array's length |
| StableMerge.SortIsStable | wow_iot/inc/algorithm/quadsort.c:960-998 | The reference sort the contracts name is sorted, a permutation (same elements in every equivalence class), and stable |
| StableMerge.SortAscends | wow_iot/inc/algorithm/quadsort.c:960-998 | For any two places of the reference sort the comparison does not put the later element first |
| StableMerge.StableSortUnique | wow_iot/inc/algorithm/quadsort.c:960-998 | A sorted stable permutation is unique, so sorting by any other correct algorithm gives the same sequence |
| StableMerge.SortConcat | wow_iot/inc/algorithm/quadsort.c:686-709 | Merging the sorted parts sorts the concatenation: what lets merging of runs stand for sorting |
| StableMerge.MergeSplit | wow_iot/inc/algorithm/quadsort.c:415-482 | A merge falls apart at any pair of positions across which all comparisons are decided: the fact behind every unchecked loop |
| StableMerge.MergeStable | wow_iot/inc/algorithm/quadsort.c:415-482 | Merging never reorders equivalent elements of the two operands' concatenation |
| StableMerge.MergeLast | wow_iot/inc/algorithm/quadsort.c:415-482 | The last merged element is the right operand's last unless that is strictly smaller: what the up-front comparisons decide |
| Quadsort.QuadSwap | wow_iot/inc/algorithm/quadsort.c:207-411 | Leaves sorted runs of 32 of a stable rearrangement of the input (descending stretches reversed), or returns 1 with the whole array stably sorted |
| QuadsortSwap.SortGroup | wow_iot/inc/algorithm/quadsort.c:219-263 | A group of four is either reported as part of a strictly descending stretch and untouched, or stably sorted in place |
| QuadsortSwap.FollowStretch | wow_iot/inc/algorithm/quadsort.c:272-386 | The swapper loop: follows a strictly descending stretch over groups, reverses it in place and resumes with the runs before it intact |
| QuadsortSwap.RevStable | wow_iot/inc/algorithm/quadsort.c:326-332 | Reversing a strictly descending stretch reorders no equivalent elements, so it is a stable step |
| QuadsortSwap.SortSame | wow_iot/inc/algorithm/quadsort.c:207-411 | Arrays that are stable rearrangements of one another have the same stable sort: why the reversals may come first |
| QuadsortMerge.ParityMerge | wow_iot/inc/algorithm/quadsort.c:105-124 | Two sorted blocks of equal size become their stable merge, written from both ends at once; all reads stay inside the blocks without a bounds check |
| QuadsortMerge.ForwardMerge | wow_iot/inc/algorithm/quadsort.c:415-482 | The stable merge of two sorted blocks of at least four elements; the unrolled loops check one side only |
| QuadsortMerge.RightBound | wow_iot/inc/algorithm/quadsort.c:424-449 | In the loop that guards the left block only, the right pointer cannot leave its block |
| QuadsortMerge.LeftBound | wow_iot/inc/algorithm/quadsort.c:451-476 | In the loop that guards the right block only, the left pointer cannot leave its block |
| QuadsortPartial.PartialForwardMerge | wow_iot/inc/algorithm/quadsort.c:564-617 | The stable merge of a sorted block and a shorter one in place, with a buffer for the left one |
| QuadsortPartial.PartialBackwardMerge | wow_iot/inc/algorithm/quadsort.c:619-684 | The same from the back, with a buffer for the right block; blocks of at least two elements |
| QuadsortPartial.FirstLeftStays | wow_iot/inc/algorithm/quadsort.c:645-656 | If the first left element may stay first, no right element is consumed past it, so the backward loop may ignore that bound |
| QuadsortPartial.FirstRightLeads | wow_iot/inc/algorithm/quadsort.c:657-683 | The mirror case: if the first right element goes first, no left element is consumed before it |
| QuadsortRotate.TrinityRotation | wow_iot/inc/algorithm/quadsort.c:714-846 | Rotation left by any amount of any stretch with a buffer of any size from one element, on all seven branches |
| QuadsortBlit.MonoboundBinaryFirst | wow_iot/inc/algorithm/quadsort.c:848-871 | Counts the elements strictly before a value in a sorted stretch by bisection without early exit |
| QuadsortBlit.MedianCut | wow_iot/inc/algorithm/quadsort.c:873-921 | Cutting both operands at the middle of the left one leaves two independent merges whose concatenation is the merge |
| QuadsortBlit.BlitMergeBlock | wow_iot/inc/algorithm/quadsort.c:873-921 | The recursive rotate-merge ends and leaves the stable merge of two neighbouring sorted blocks, for a power-of-two block and a buffer of two |
| QuadsortRuns.PairPass | wow_iot/inc/algorithm/quadsort.c:686-709 | One pass over the array turns sorted runs of one size into sorted runs of twice the size, a shorter last run included |
| QuadsortPasses.TailMerge | wow_iot/inc/algorithm/quadsort.c:686-709 | Doubles the run length while a run fits the buffer; sorts the whole array if it fits |
| QuadsortPasses.BlitMerge | wow_iot/inc/algorithm/quadsort.c:923-947 | Doubles the run length without a size bound until the whole array is sorted |
| QuadsortPasses.QuadMergeBlock | wow_iot/inc/algorithm/quadsort.c:489-534 | Four sorted blocks become one, in all four cases of blocks that are already in order |
| QuadsortPasses.QuadMerge | wow_iot/inc/algorithm/quadsort.c:536-562 | Quadruples run lengths as far as the buffer reaches, then doubles |
| QuadsortSmall.UnguardedInsert | wow_iot/inc/algorithm/quadsort.c:32-71 | Extends a sorted stretch to the end by insertion; the downward scan is stopped by the first element instead of an index check |
| QuadsortSmall.ParityMergeTwo | wow_iot/inc/algorithm/quadsort.h:42-51 | The stable merge of two sorted pairs, branch-free |
| QuadsortSmall.ParityMergeFour | wow_iot/inc/algorithm/quadsort.h:53-66 | The stable merge of two sorted blocks of four, branch-free |
| QuadsortSmall.ParitySwapFour | wow_iot/inc/algorithm/quadsort.c:73-83 | Four elements end stably sorted |
| QuadsortSmall.ParitySwapEight | wow_iot/inc/algorithm/quadsort.c:85-103 | Eight elements end stably sorted |
| QuadsortSmall.ParitySwapSixteen | wow_iot/inc/algorithm/quadsort.c:126-144 | Sixteen elements end stably sorted |
| QuadsortSmall.TailSwap | wow_iot/inc/algorithm/quadsort.c:146-167 | Fewer than 32 elements end stably sorted |
| QuadsortSmall.ParityTailSwapEight | wow_iot/inc/algorithm/quadsort.c:171-188 | Eight elements whose first half is sorted end stably sorted |
| QuadsortSmall.ParityTailFlipEight | wow_iot/inc/algorithm/quadsort.c:190-203 | Eight elements with both halves sorted end stably sorted |
| ShmTheorems.RunsKeep | wow_iot/src/shmcache/shm_value_allocator.c:261-348 | Every state of every run of set, delete, set_expires, clear and the growth at start-up satisfies the cache invariant: extents, queues, keys and counters agree |
| ShmHandles.MemorySafe | wow_iot/src/shmcache/shm_value_allocator.c:17-39 | The extents of all entries, pending ones included, are pairwise disjoint within a segment and lie inside it |
| ShmHandles.HandlesDiffer | wow_iot/src/shmcache/shm_value_allocator.h:81-88 | Different entries have different packed handles |
| ShmHandles.PackRoundTrip | wow_iot/src/shmcache/shm_value_allocator.h:66-88 | Unpacking a handle gives back segment and offset exactly if the segment index is below 256; no entry handle is the list head's |
| ShmInvariant.SetKeeps | wow_iot/src/shmcache/shm_hashtable.c:36-128 | A set, successful or not, keeps the invariant |
| ShmInvariant.DoAllocKeeps | wow_iot/src/shmcache/shm_value_allocator.c:41-78 | An allocation keeps the invariant with the new extent pending: behind everything in its striping, inside it, counted once |
| ShmInvariant.FreeKeeps | wow_iot/src/shmcache/shm_value_allocator.c:324-348 | Freeing any entry keeps the invariant, also while other memory is pending; a striping is rewound only when nothing lives in it |
| ShmInvariant.FreeOwns | wow_iot/src/shmcache/shm_striping_allocator.h:35-65 | A striping whose used counter reaches zero holds no entry, because the counter is the sum of the entry sizes in it |
| ShmInvariant.RecycleKeeps | wow_iot/src/shmcache/shm_value_allocator.c:102-173 | The recycle scan keeps the invariant in both modes |
| ShmInvariant.CreateKeeps | wow_iot/src/shmcache/shmopt.c:72-106 | A new segment's stripings join the doing queue and overlap nothing |
| ShmOutcome.GrownExactly | wow_iot/src/shmcache/shmopt.c:76-106 | A new segment is cut into stripings one after the other from its start, each queued behind all others, and nothing else changes |
| ShmInvariant.ClearEstablishes | wow_iot/src/shmcache/shm_hashtable.c:235-268 | Clearing establishes the invariant, whatever entries, queues and counters are, exactly if the layout is intact: no more stripings than the counted segments have, each a stretch of a segment apart from the others, or without extent |
| ShmInvariant.TornCreationIntact | wow_iot/src/shmcache/shmopt.c:76-106 | A crash anywhere in the creation of a segment leaves the layout intact: a striping is counted before its bounds are written, and has no extent until then |
| ShmInvariant.WalkFinds | wow_iot/src/shmcache/shm_value_allocator.c:49-75 | The walk finds room exactly if some striping of the doing queue has room, removals under way included |
| ShmInvariant.WalkQueues | wow_iot/src/shmcache/shm_value_allocator.c:58-72 | Each step keeps the two queues without repetition and in agreement with the in_which_pool flags |
| ShmEviction.SetRefinesMap | wow_iot/src/shmcache/shm_hashtable.c:36-128 | After a successful set the key has the new value, and every other key its old one, unless it was evicted (expired, or valid entries may be recycled) |
| ShmEviction.GetAfterSet | wow_iot/src/shmcache/shm_hashtable.c:130-158 | A get after a successful set returns the stored value, as valid or timed out by the clock |
| ShmEviction.DeleteRefinesMap | wow_iot/src/shmcache/shm_hashtable.c:172-204 | A delete removes its key from the map, touches no other key and keeps the order, reports whether the key was there, and does nothing otherwise |
| ShmEviction.SetExpiresRefinesMap | wow_iot/src/shmcache/shm_hashtable.c:206-233 | A set_expires changes the expiry of its key's value and nothing else, exactly if the key is there and has not expired; ENOENT or ETIMEDOUT tells which is missing |
| ShmEviction.GetAfterSetExpires | wow_iot/src/shmcache/shm_hashtable.c:206-233 | A get after it returns the old value with the new expiry, timed out exactly if that has passed |
| ShmEviction.ClearEmpties | wow_iot/src/shmcache/shm_hashtable.c:235-268 | Clearing leaves no entry, no used memory, and every striping allocatable, in order, and as good as new |
| ShmEviction.SetEvictsThenAppends | wow_iot/src/shmcache/shm_hashtable.c:36-128 | A set first evicts, then drops the key's old entry, then appends the new one at the list's tail; a failed set only evicts, unless it has begun to rearrange: then it leaves nothing |
| ShmEviction.RearrangeRows | wow_iot/src/shmcache/shm_value_allocator.c:205-258 | A rearrangement that succeeds keeps exactly the unexpired entries, each with its key, value and place in the order; one that has begun and fails leaves an empty cache |
| ShmRearranging.RearrangeExactly | wow_iot/src/shmcache/shm_value_allocator.c:205-258 | Exactly when a rearrangement succeeds: enough memory is free, and every unexpired entry in turn finds room in the walk over the cleared cache |
| ShmRearranging.ReinsertRefills | wow_iot/src/shmcache/shm_value_allocator.c:240-255 | The sets inside a rearrangement may rearrange again, but that only comes back to the same state, so they come to plain allocations one after the other |
| ShmInvariant.RearrangeKeeps | wow_iot/src/shmcache/shm_value_allocator.c:205-258 | Rearranging keeps the invariant, nested rearrangements included, whether all entries find a place again or none stays |
| ShmEviction.RecycleEvicts | wow_iot/src/shmcache/shm_value_allocator.c:125-173 | What recycling takes is a prefix of the FIFO list if valid entries may go, and expired entries only otherwise |
| ShmEviction.SetWithinLimit | wow_iot/src/shmcache/shm_hashtable.c:64-71 | No set takes the number of entries beyond max_key_count |
| ShmTheorems.RunsWithinLimit | wow_iot/src/shmcache/shm_hashtable.c:64-71 | In no state of any run are there more entries than max_key_count |
| ShmTheorems.RunsPaid | wow_iot/src/shmcache/shmopt.c:72-106 | In every state of every run the memory counted as allocated is that of the segments there are |
| ShmRecycling.RecycleEmpties | wow_iot/src/shmcache/shm_value_allocator.c:125-172 | Which striping a striping-mode recycle empties, told from the state before it: that of the first entry which closes its striping, that is, no younger entry lives there and all that do may go. It takes out exactly what may go up to that entry; without one it takes out all that may go, reports failure and empties none |
| ShmRecycling.RecycleThenAlloc | wow_iot/src/shmcache/shm_value_allocator.c:157-172 | After a striping-mode recycle an allocation of up to a striping's size succeeds exactly if the emptied striping was in one of the queues, or there was room before |
| ShmRecycling.RecycleThenAnyAlloc | wow_iot/src/shmcache/shm_value_allocator.c:102-172 | When a striping-mode recycle that returns 0 makes every allocation of up to a striping's size succeed, exactly: the striping it empties is in one of the queues, or a queued one was empty all along |
| ShmRecycling.NoneLostThenAlloc | wow_iot/src/shmcache/shm_value_allocator.c:157-172 | So while no striping is lost (never, if removal works as documented) a striping-mode recycle that returns 0 makes the next allocation succeed |
| ShmRecycling.FailedWalk | wow_iot/src/shmcache/shm_value_allocator.c:58-75 | What an allocation attempt that finds no room does to the queues: stripings that stay keep their order; those that leave reach the done queue exactly if removal works as documented or no staying one stands before them |
| ShmRecycling.WalkParts | wow_iot/src/shmcache/shm_value_allocator.c:41-78 | What any attempt does to the two queues, by the part of the doing queue it visits |
| ShmRecycling.LeavesExactly | wow_iot/src/shmcache/shm_value_allocator.c:58-62 | A striping leaves the queue on a failure exactly if it has no more than discard_memory_size left, or has failed max_fail_times before |
| ShmRecycling.FreeEmpties | wow_iot/src/shmcache/shm_striping_allocator.h:35-65 | Freeing the last entry of a striping makes it as good as new and moves it from the done queue to the end of the doing queue; freeing any other changes its use count only |
| ShmRecycling.EmptiedExactly | wow_iot/src/shmcache/shm_value_allocator.c:324-348 | That is so exactly if no other entry lives in the striping |
| ShmCounterexample.RecycleThenAllocFails | wow_iot/src/shmcache/shm_value_allocator.c:62-72 | As the code is written the guarantee has a counterexample: a run of three sets after which recycling returns 0 and the allocation of a small entry fails |
| ShmTheorems.AllocIff | wow_iot/src/shmcache/shm_value_allocator.c:49-77 | An allocation succeeds exactly if some striping of the doing queue has room |
| ShmTheorems.WalkLosesNone | wow_iot/src/shmcache/shm_value_allocator.c:58-75 | With the removal as coded, the walk keeps every striping exactly if no exhausted one is visited behind one that stays |
| ShmTheorems.LostUntilCleared | wow_iot/src/shmcache/shm_value_allocator.c:62-72 | A striping the walk has dropped comes back only through a clear, or a set that comes to rearrange |
| ShmLiveness.SetSucceedsExactly | wow_iot/src/shmcache/shm_hashtable.c:36-128 | Exactly when a set succeeds, with removal as coded or as documented and for both settings of recycle_valid_entries: key and value are not too long, the count is below its limit or can be brought there, and the allocation in the state after that will find room |
| ShmOutcome.SetLeaves | wow_iot/src/shmcache/shm_hashtable.c:36-128 | Which entries a set leaves, exactly: what the key limit and then the allocation leave, without the key's old entry and with the new one behind them |
| ShmOutcome.SetKeepsOthers | wow_iot/src/shmcache/shm_value_allocator.c:268-313 | A set below the key limit leaves every other entry alone, if a queued striping has room, or a segment may be added and the oldest done striping has not aged |
| ShmOutcome.AllocLeaves | wow_iot/src/shmcache/shm_value_allocator.c:261-322 | Which entries an allocation leaves, exactly: all, unless it recycles; then those behind the first entry that closes its striping and those that may not go; a rearrangement keeps these or none |
| ShmOutcome.QuotaLeaves | wow_iot/src/shmcache/shm_value_allocator.c:125-161 | Recycling by number takes the first entries that may go, as many as asked for, or all there are |
| ShmOutcome.AllocPlaces | wow_iot/src/shmcache/shm_value_allocator.c:261-322 | Where an entry is put: behind what is in the first queued striping with room; else at the start of an added segment, or of the striping that recycling empties |
| ShmOutcome.DoAllocExactly | wow_iot/src/shmcache/shm_value_allocator.c:41-78 | One attempt, exactly: the first striping of the doing queue with room takes the entry, with its time; those before it count a failure and leave the queue if exhausted; nothing else changes |
| ShmOutcome.SetReports | wow_iot/src/shmcache/shm_hashtable.c:50-81 | Lengths are checked first and change nothing (ENAMETOOLONG, EINVAL); every other failure is ENOMEM |
| ShmOutcome.EntrySizeExactly | wow_iot/src/shmcache/shm_value_allocator.c:268-268 | An entry takes its header, its key and its value, each filled up to a multiple of eight |
| ShmLiveness.AllocSucceedsExactly | wow_iot/src/shmcache/shm_value_allocator.c:261-322 | Exactly when an allocation succeeds, told from the state before it, with removal as coded or as documented: a queued striping has room; or a segment is added; or recycling follows and the striping it empties is still in a queue after the failed attempt; or rearranging makes room |
| ShmLiveness.CountExactly | wow_iot/src/shmcache/shm_hashtable.c:64-71 | A full cache makes room for one more key exactly if enough entries may go (by number), or one of them closes its striping (by striping) |
| ShmLiveness.DocumentedAllocSucceeds | wow_iot/src/shmcache/shm_value_allocator.c:261-322 | With removal as documented and valid entries recyclable, every allocation of up to a striping's size succeeds |
| ShmLiveness.DocumentedSetSucceeds | wow_iot/src/shmcache/shm_hashtable.c:50-81 | Under the same settings and with stripings no smaller than the largest entry, a set succeeds exactly if key and value are not too long and, in a full cache, the recycling quota is not above the number of entries |
| ShmLiveness.LastCloses | wow_iot/src/shmcache/shm_value_allocator.c:157-172 | With valid entries recyclable there is always an entry that closes its striping, if there is any entry |
| ShmLiveness.RecycleQuota | wow_iot/src/shmcache/shm_value_allocator.c:157-161 | Recycling a number of entries succeeds exactly if as many may go |
| ShmLiveness.RunsRewind | wow_iot/src/shmcache/shm_striping_allocator.h:35-65 | In every run a striping without live memory is rewound and allocatable |
| ShmObjectPool.ObjectPool.Alloc | wow_iot/src/shmcache/shm_object_pool.c:51-63 | Takes the first offset off the ring, or -1 when empty |
| ShmObjectPool.ObjectPool.Free | wow_iot/src/shmcache/shm_object_pool.c:65-78 | Appends an offset; ENOSPC exactly if capacity - 1 offsets are queued |
| ShmObjectPool.ObjectPool.Shift | wow_iot/src/shmcache/shm_object_pool.c:100-109 | Removing at the iterator moves what is before it by one place around the ring; the rest keeps its order and the iterator goes on behind the gap |
| ShmObjectPool.ObjectPool.Remove | wow_iot/src/shmcache/shm_object_pool.c:83-111 | The removal as coded: takes out the current offset but returns its predecessor unless it was the head, and so the removed offset only then; -1 when empty or without iterator |
| ShmObjectPool.ObjectPool.RemoveDocumented | wow_iot/src/shmcache/shm_object_pool.h:150-156 | The removal as documented: the same queue, and the removed offset as result |
| ShmObjectPool.RemoveReturns | wow_iot/src/shmcache/shm_object_pool.c:100-110 | What the code returns, the slot at the iterator after the move, is the removed offset exactly if that was the head of the queue |
| ShmObjectPool.ObjectPool.RemoveBy | wow_iot/src/shmcache/shm_object_pool.c:113-127 | Removes the first occurrence of an offset, non-negative result exactly if it was queued |
| ShmObjectPool.ObjectPool.First | wow_iot/src/shmcache/shm_object_pool.h:116-124 | Starts the iterator at the head, or reports an empty queue |
| ShmObjectPool.ObjectPool.Advance | wow_iot/src/shmcache/shm_object_pool.h:132-148 | Visits the queue in order, also after removals, and ends at the tail |
| ShmObjectPool.ObjectPool.InitFull | wow_iot/src/shmcache/shm_object_pool.c:17-32 | Fills the ring with capacity - 1 equally spaced offsets |
| ShmObjectPool.ObjectPool.GetCount | wow_iot/src/shmcache/shm_object_pool.c:39-49 | The number of queued offsets on both sides of the wrap |
| ShmObjectPool.ObjectPool.IsEmpty | wow_iot/src/shmcache/shm_object_pool.h:105-108 | Head and tail meet exactly when nothing is queued |
| ShmObjectPool.ObjectPool.InitEmpty | wow_iot/src/shmcache/shm_object_pool.c:34-37 | Empties the queue, whatever head and tail were |
| ShmObjectPool.MovedRemoves | wow_iot/src/shmcache/shm_object_pool.c:100-109 | Shifting the part before a position and stepping the head is removal of exactly that position |
| ShmList.FifoList.Init | wow_iot/src/shmcache/shm_list.h:53-57 | Empties the list, whatever the links were |
| ShmList.FifoList.Empty | wow_iot/src/shmcache/shm_list.h:130-133 | The head links to itself exactly when nothing is listed |
| ShmList.FifoList.AddTail | wow_iot/src/shmcache/shm_list.h:59-80 | Appends a handle to the ring of links |
| ShmList.FifoList.Delete | wow_iot/src/shmcache/shm_list.h:89-104 | Takes a handle out of the list and links it to itself; a handle that already is so is left alone |
| ShmList.FifoList.MoveTail | wow_iot/src/shmcache/shm_list.h:113-122 | Moves a handle to the tail, the others keep their order |
| ShmList.FifoList.First | wow_iot/src/shmcache/shm_list.h:141-148 | The oldest handle, or -1 |
| ShmList.FifoList.NextOf | wow_iot/src/shmcache/shm_list.h:156-165 | The next handle, or -1 at the tail |
| ShmList.FifoList.Count | wow_iot/src/shmcache/shm_list.h:173-186 | Following the links from the head comes back to it after exactly the listed handles |
| ShmList.LinkedWithout | wow_iot/src/shmcache/shm_list.h:101-103 | Closing the gap around a node takes exactly that node out of the ring, wherever it stands |
| ShmBuckets.BucketTable.Search | wow_iot/src/shmcache/shm_hashtable.c:86-97 | Walks a key's chain to its entry and the one before it, or proves that no entry of the whole table has the key |
| ShmBuckets.BucketTable.Unlink | wow_iot/src/shmcache/shm_hashtable.c:187-192 | Takes an entry out of its chain; all other entries stay filed, in order, in the bucket of their key |
| ShmBuckets.BucketTable.Link | wow_iot/src/shmcache/shm_hashtable.c:99-121 | Puts a new entry in the chain position of the key's old one, or at the end |
| ShmBuckets.BucketTable.Clear | wow_iot/src/shmcache/shm_hashtable.c:245-247 | Empties every bucket, whatever it held |
| ShmBuckets.UnlinkChains | wow_iot/src/shmcache/shm_hashtable.c:187-192 | Changing one link or bucket to skip an entry changes one chain by that entry and no other chain |
| ShmCache.Cache.DoAlloc | wow_iot/src/shmcache/shm_value_allocator.c:41-78 | The in-place walk, removing from the ring while iterating, does what the model's allocation does, and the new handle is in no list |
| ShmCache.Cache.Skip | wow_iot/src/shmcache/shm_value_allocator.c:58-74 | Leaves a striping without room behind, removed first if exhausted, and steps the iterator to the next one |
| ShmCache.Cache.ValueStripingAlloc | wow_iot/src/shmcache/shm_value_allocator.c:17-39 | Bump allocation in one striping with its failure count, and the new entry's memory fields |
| ShmCache.Cache.StripingAlloc | wow_iot/src/shmcache/shm_striping_allocator.c:20-34 | Bump allocation in one striping, or one more failure |
| ShmCache.Cache.DoRecycle | wow_iot/src/shmcache/shm_value_allocator.c:81-100 | Moves an emptied striping from the done to the doing queue; the EFAULT branch is never taken |
| ShmCache.Cache.FreeEntry | wow_iot/src/shmcache/shm_hashtable.c:160-170 | Takes an entry out of list, counters and memory |
| ShmCache.Cache.DeleteEx | wow_iot/src/shmcache/shm_hashtable.c:172-204 | The in-place delete does what the model's delete does and keeps the structures in agreement |
| ShmCache.Cache.Evict | wow_iot/src/shmcache/shm_value_allocator.c:138-150 | The delete by key inside the recycle scan never fails, so its fallback is unreachable |
| ShmCache.Cache.Recycle | wow_iot/src/shmcache/shm_value_allocator.c:102-173 | The in-place scan, deleting under way, does what the model's recycling does |
| ShmCache.Cache.CreateSegment | wow_iot/src/shmcache/shmopt.c:56-113 | Adds a segment's stripings one by one; no push ever meets a full queue |
| ShmCache.Cache.MakeRoom | wow_iot/src/shmcache/shm_value_allocator.c:276-313 | Recycles, adds a segment or rearranges as the limits and the age of the done queue say |
| ShmCache.Cache.Rearrange | wow_iot/src/shmcache/shm_value_allocator.c:205-258 | The in-place rearrangement, which copies the entries, clears the cache and calls set, does what the model's does, and the recursion through set ends |
| ShmCache.Cache.SetAll | wow_iot/src/shmcache/shm_value_allocator.c:240-255 | The loop that sets the copied entries again |
| ShmCache.Cache.Alloc | wow_iot/src/shmcache/shm_value_allocator.c:261-322 | Allocates at once or after making room |
| ShmCache.Cache.Set | wow_iot/src/shmcache/shm_hashtable.c:36-128 | The in-place set does what the model's set does and keeps chains, list, queues and counters in agreement |
| ShmCache.Cache.Install | wow_iot/src/shmcache/shm_hashtable.c:83-125 | The second half of a set: the old entry is freed, the new one takes its chain position and the list's tail |
| ShmCache.Cache.Get | wow_iot/src/shmcache/shm_hashtable.c:130-158 | The value the model holds for the key, with ENOENT or ETIMEDOUT |
| ShmCache.Cache.SetExpires | wow_iot/src/shmcache/shm_hashtable.c:206-233 | Changes the expiry of one unexpired entry |
| ShmCache.Cache.Clear | wow_iot/src/shmcache/shm_hashtable.c:235-268 | From any links, buckets, queue heads and counters to a valid empty cache, if the layout is intact |
| ShmCache.Cache.constructor | wow_iot/src/shmcache/shmcache.c:165-188 | Both rings are created for one striping more than there can ever be |
| ShmArray.MatchKey | wow_iot/src/shmcache/shm_hashtable.c:270-301 | Exact, prefix, suffix and substring patterns, decided as their definitions say |
| ShmArray.MatchesExactly | wow_iot/src/shmcache/shm_hashtable.c:270-301 | The patterns mean the whole key, its start, its end, or any part of it |
| ShmArray.SelectedExactly | wow_iot/src/shmcache/shm_hashtable.c:340-398 | Selection goes entry by entry, keeps the order, and takes what has not expired and matches |
| ShmArray.PageExactly | wow_iot/src/shmcache/shm_hashtable.c:306-398 | A page holds the rows from its offset on, as many as asked for and there are |
| ShmCache.ToArray | wow_iot/src/shmcache/shm_hashtable.c:306-403 | One page of the unexpired matching entries, oldest first; the row bound taken from the count of all entries never cuts one off |
| ShmLock.InitialWorld | wow_iot/src/shmcache/shm_lock.c:15-58 | Any processes over a freshly created cache form an initial state of the protocol |
| ShmLock.StepOk | wow_iot/src/shmcache/shm_lock.c:101-186 | Every step of every process keeps the protocol's invariant, a crash anywhere included, in the middle of an operation, of creating a segment, or of clearing the cache for a dead owner |
| ShmLock.MutualExclusion | wow_iot/src/shmcache/shm_lock.c:136-186 | In every run at most one live process is in the critical section or at recovering it |
| ShmLock.LockFindsCacheWhole | wow_iot/src/shmcache/shm_lock.c:144-164 | Whoever gets the mutex finds a cache that satisfies its invariant, however earlier owners died |
| ShmLock.LiveOwnerReleases | wow_iot/src/shmcache/shm_lock.c:174-186 | A live owner can always release the mutex with its own next three steps at most; then nobody has it, no pid is on record, the cache is what the owner's operation was to leave, and everyone who waits can take it |
| ShmLock.OwnerReleasesWithin | wow_iot/src/shmcache/shm_lock.c:174-186 | In every run a live owner has released the mutex after three steps of its own, two more for every further operation it begins, whatever the others do |
| ShmLock.OperationTakesEffect | wow_iot/src/shmcache/shm_lock.c:136-172 | Whatever the others do meanwhile, an operation ends with its own effect on the cache it began with |
| ShmLock.CreationMayTear | wow_iot/src/shmcache/shmopt.c:76-106 | The crashes of the protocol include those anywhere in the creation of a segment |
| ShmLock.ForcedOnlyWhenDead | wow_iot/src/shmcache/shm_lock.c:109-117 | The mutex is forced open only for a dead owner, over a cache that has been cleared: valid and without entries |
| ShmLock.ReleasedOnce | wow_iot/src/shmcache/shm_lock.c:109-132 | It is never forced open twice for the same dead owner |
| ShmLock.StuckExactly | wow_iot/src/shmcache/shm_lock.c:148-158 | With a dead owner and a live process left, the mutex stays taken in every continuation exactly if the owner's pid is not on record and nobody is past zeroing it |
| ShmLock.Rescue | wow_iot/src/shmcache/shm_lock.c:144-161 | Otherwise a continuation that releases it is constructed, step by step |
| ShmLock.ReleasedWithin | wow_iot/src/shmcache/shm_lock.c:96-164 | In every run, whoever takes the steps, a dead owner with its pid on record, or with a recovery begun, loses the mutex within eleven steps per process (steps of a clear still under way not counted, three more for every error of the file lock), unless a process dies past zeroing the pid |
| ShmLock.SomeoneHelps | wow_iot/src/shmcache/shm_lock.c:96-164 | Until then there is always such a step, if any process is alive |
| ShmLock.DeathBeforeThePidIsWritten | wow_iot/src/shmcache/shm_lock.c:163-164 | A process that dies between trylock and writing its pid blocks the lock for good |
| KvList.List.Set | wow_base/src/list/wow_kv_list.c:313-321 | The in-place put leaves the sorted listing with the pair put in, and a valid AVL tree |
| KvList.List.Get | wow_base/src/list/wow_kv_list.c:299-305 | The value listed for the key, or none |
| KvList.List.Remove | wow_base/src/list/wow_kv_list.c:363-371 | The in-place removal leaves the sorted listing without the key, and a valid AVL tree |
| KvList.List.Update | wow_base/src/list/wow_kv_list.c:349-357 | The in-place update replaces the value of an existing key and changes nothing otherwise |
| KvList.List.ForEach | wow_base/src/list/wow_kv_list.c:330-341 | Writes all keys and values to the caller's arrays, by keys in the order of strcmp |
| KvList.InsertAt | wow_base/src/list/wow_kv_list.c:89-123 | The recursive insert relinks nodes as the tree function says; the only new node is fresh |
| KvList.DeleteAt | wow_base/src/list/wow_kv_list.c:150-194 | The recursive delete relinks nodes as the tree function says and never follows a null child in a rotation |
| KvList.TakeSuccessor | wow_base/src/list/wow_kv_list.c:171-175 | The node with two children takes over its successor's pair, which is deleted below |
| KvList.UpdateAt | wow_base/src/list/wow_kv_list.c:197-229 | The recursive update, with the rebalancing it repeats |
| KvList.RotateRightAt | wow_base/src/list/wow_kv_list.c:57-66 | Relinks three nodes in place as the rotation of the tree they hold |
| KvList.RotateLeftAt | wow_base/src/list/wow_kv_list.c:69-78 | The mirror image |
| KvList.GetMin | wow_base/src/list/wow_kv_list.c:140-147 | The loop to the leftmost node finds the least pair |
| KvList.GetAll | wow_base/src/list/wow_kv_list.c:232-243 | Appends the in-order listing to both arrays |
| KvTree.InsertPuts | wow_base/src/list/wow_kv_list.c:89-123 | An insertion puts the pair into its place of the sorted listing, rotations or not |
| KvTree.DeleteRemoves | wow_base/src/list/wow_kv_list.c:150-194 | A deletion removes exactly the key's pair from the listing |
| KvStrings.DeleteDangles | wow_base/src/list/wow_kv_list.c:157-175 | A deletion leaves a node whose strings have been freed exactly if the key's node has two children |
| KvStrings.FreedIs | wow_base/src/list/wow_kv_list.c:157-175 | It frees the strings of at most one pair: the deleted one, or the one that takes its place |
| KvStrings.ThreeSetsDangle | wow_base/src/list/wow_kv_list.c:89-175 | Three sets of any keys in the order middle, low, high and the deletion of the middle one leave such a node |
| KvStrings.SetReads | wow_base/src/list/wow_kv_list.c:89-104 | After a set all values read as set; once the caller has reused its buffer they still do exactly if the key was new, or the buffer holds the same string |
| KvStrings.UpdateReads | wow_base/src/list/wow_kv_list.c:197-209 | After an update all values read as set exactly if the key is absent, or the byte that no terminator is written to happens to be zero |
| KvTree.UpdateReplaces | wow_base/src/list/wow_kv_list.c:197-229 | An update replaces the value of exactly that key in the listing |
| KvTree.SearchGets | wow_base/src/list/wow_kv_list.c:126-137 | A search finds what the listing holds |
| KvTree.Insert | wow_base/src/list/wow_kv_list.c:89-123 | Insertion keeps stored heights exact and siblings within one level, and adds at most one level, on the key's side |
| KvTree.Delete | wow_base/src/list/wow_kv_list.c:150-194 | Deletion keeps stored heights exact and siblings within one level, and takes at most one level |
| KvTree.DoubleRight | wow_base/src/list/wow_kv_list.c:113-116 | A left subtree two levels higher that leans right is levelled by two rotations, on exact heights |
| KvTree.PutLaws | wow_base/src/list/wow_kv_list.c:89-123 | Listings stay ascending, and a lookup after a put sees the new value for its key and the old ones for all others |
| KvTree.RemoveLaws | wow_base/src/list/wow_kv_list.c:150-194 | After a removal the key is gone and nothing else has changed |
| KvTree.ReplaceLaws | wow_base/src/list/wow_kv_list.c:197-229 | After an update only an existing key's value has changed |
| KvTree.ListingExact | wow_base/src/list/wow_kv_list.c:232-243 | The listing holds exactly the pairs a search finds |
| KvTree.LessIsPrecedes | wow_base/src/list/wow_kv_list.c:95-97 | The order of the tree is that of strcmp: the first place where keys differ decides, by unsigned bytes, or the end of a key |
| KvTree.HeightIsDepth | wow_base/src/list/wow_kv_list.c:49-54 | The stored heights are the depths of the subtrees |
| KvTree.NotTooHigh | wow_base/src/list/wow_kv_list.c:105-122 | A tree of height h has at least Fib(h + 2) - 1 nodes |
| Crc16.CcittMirrorsXmodem | wow_iot/src/encrypt/wow_crc.c:189-239 | For messages of any length, the CCITT checksum is the mirror image of the XMODEM checksum of the mirrored bytes |
| Crc16.Linear | wow_iot/src/encrypt/wow_crc.c:221-239 | The register is linear over exclusive or in its start and in messages of one length, for every polynomial |
| Crc16.XmodemLinear | wow_iot/src/encrypt/wow_crc.c:221-239 | The zero-initialised checksum is linear over exclusive or |
| Crc16.CcittLinear | wow_iot/src/encrypt/wow_crc.c:189-208 | So is the CCITT checksum |
| Crc16.BurstDetected | wow_iot/src/encrypt/wow_crc.c:221-239 | Messages that differ in an error burst of up to 16 bits, starting at any bit, have different checksums, for every polynomial with a constant term |
| Crc16.RightBurstDetected | wow_iot/src/encrypt/wow_crc.c:189-208 | The same for the right-shifting register, which takes the lowest bit of a byte first |
| Crc16.AppendedChecksum | wow_iot/src/encrypt/wow_crc.c:221-239 | A message followed by its own checksum has checksum zero |
| Crc16.MirrorRegisters | wow_iot/src/encrypt/wow_crc.c:189-239 | Right-shifting with the mirrored polynomial is left-shifting seen in the mirror, for every polynomial and start |
| Crc16.Ccitt | wow_iot/src/encrypt/wow_crc.c:189-208 | The nested byte and bit loops compute the right-shifting register |
| Crc16.Xmodem | wow_iot/src/encrypt/wow_crc.c:221-239 | The nested byte and bit loops compute the left-shifting register |
| Crc16.XmodemCheck | wow_iot/src/encrypt/wow_crc.c:221-239 | The XMODEM checksum of the digits 1 to 9 is 0x31C3 |
| Crc16.CcittCheck | wow_iot/src/encrypt/wow_crc.c:189-208 | The CCITT checksum of the digits 1 to 9 is 0x2189 |
| Crc16.InvertUint16 | wow_iot/src/encrypt/wow_crc.c:22-33 | The bit loop mirrors the word |
| Crc16.MirrorBit | wow_iot/src/encrypt/wow_crc.c:27-31 | Bit i of the mirrored word is bit 15 - i of the word |
| Crc32.ReflectedMirrorsMpeg | wow_iot/src/encrypt/wow_crc.c:446-497 | For messages of any length, CRC-32 is the complement of the mirror image of the MPEG-2 checksum of the mirrored bytes |
| Crc32.Linear | wow_iot/src/encrypt/wow_crc.c:477-497 | The register is linear over exclusive or in its start and in messages of one length, for every polynomial |
| Crc32.BurstDetected | wow_iot/src/encrypt/wow_crc.c:477-497 | Messages that differ in an error burst of up to 32 bits, starting at any bit, have different MPEG-2 checksums |
| Crc32.RightBurstDetected | wow_iot/src/encrypt/wow_crc.c:446-465 | The same for the register of CRC-32, lowest bit of a byte first |
| Crc32.MpegAffine | wow_iot/src/encrypt/wow_crc.c:477-497 | The MPEG-2 checksum of the exclusive or of three messages of one length is that of their checksums |
| Crc32.ReflectedAffine | wow_iot/src/encrypt/wow_crc.c:446-465 | So is CRC-32 |
| Crc32.AppendedChecksum | wow_iot/src/encrypt/wow_crc.c:477-497 | A message followed by its own MPEG-2 checksum, high byte first, has checksum zero |
| Crc32.AppendedReflected | wow_iot/src/encrypt/wow_crc.c:446-465 | A message followed by its own CRC-32, low byte first, has CRC-32 0x2144DF1C whatever the message is |
| Crc32.Reflected | wow_iot/src/encrypt/wow_crc.c:446-465 | The loops of wow_crc32 compute the complemented right-shifting register |
| Crc32.Mpeg | wow_iot/src/encrypt/wow_crc.c:477-497 | The loops of wow_crc32_mpeg compute the left-shifting register |
| Crc32.MpegCheck | wow_iot/src/encrypt/wow_crc.c:477-497 | The MPEG-2 checksum of the digits 1 to 9 is 0x0376E6E7 |
| Crc32.ReflectedCheck | wow_iot/src/encrypt/wow_crc.c:446-465 | The CRC-32 of the digits 1 to 9 is 0xCBF43926 |
| Crc32.InvertUint32 | wow_iot/src/encrypt/wow_crc.c:34-45 | The bit loop mirrors the word |
| WowTime.RtcRoundTrip | wow_base/src/system/wow_time.c:205-259 | rtc_to_msec undoes msec_to_rtc for a 64-bit number of milliseconds exactly if it lies before 2039, where the product of the years overflows an int |
| WowTime.Cp56RoundTrip | wow_base/src/system/wow_time.c:266-319 | cp56_to_msec undoes msec_to_cp56 exactly from 2000 through 2038, the seven-bit year's wrap included |
| WowTime.DateIsGregorian | wow_base/src/system/wow_time.c:225-256 | Until the end of 2099 the computed date is valid and is the Gregorian date of that day |
| WowTime.RtcFields | wow_base/src/system/wow_time.c:205-259 | Hours, minutes, seconds and milliseconds are in their ranges and add up to the part of the day, for every 64-bit number |
| WowTime.Cp56Fields | wow_base/src/system/wow_time.c:266-319 | The same for CP56Time2a, whose milliseconds include the seconds |
| WowTime.RtcSays | wow_base/src/system/wow_time.c:205-259 | Until the end of 2099 the fields are a valid Gregorian date and a time of day, and together say the number of milliseconds |
| WowTime.Cp56Says | wow_base/src/system/wow_time.c:266-319 | The same for CP56Time2a from 2000 on |
| WowTime.RtcMsecSays | wow_base/src/system/wow_time.c:378-405 | The way back from any valid date and time of 1970 to 2038 is the number of milliseconds they stand for |
| WowTime.Cp56MsecSays | wow_base/src/system/wow_time.c:407-434 | The same for CP56Time2a from 2000 to 2038 |
| WowTime.LeapDaysExactly | wow_base/src/system/wow_time.c:378-405 | The leap-year loop counts the leap days of the Gregorian rule, for all years |
| WowTime.RtcAtTheEnd | wow_base/src/system/wow_time.c:378-405 | The wrapped, negative results around the end of the 64-bit range are no exception to the bound |
| WowTime.CorrectYear | wow_base/src/system/wow_time.c:229-235 | The year-correction loop ends, for either width of the year field, with the year and day within the four-year group |
| WowTime.FindMonth | wow_base/src/system/wow_time.c:240-256 | The month loop finds the last month that begins before the day |
| WowTime.MsecToRtc | wow_base/src/system/wow_time.c:205-259 | The conversion with its loops computes the date the lemmas speak about |
| WowTime.MsecToCp56 | wow_base/src/system/wow_time.c:266-319 | The same for CP56Time2a |
| WowTime.RtcToMsec | wow_base/src/system/wow_time.c:378-405 | Summing with wrap-around after every step is the wrapped sum; leap years are counted by the loop |
| WowTime.Cp56ToMsec | wow_base/src/system/wow_time.c:407-434 | The same for CP56Time2a |
| WowTime.MonthTable | wow_base/src/system/wow_time.c:21-24 | The table of month starts adds up the Gregorian month lengths |
| RingBuffer.RingBuffer.Write | wow_base/src/utils/wow_ring_buff.c:108-131 | Appends all bytes if they and one more fit, in one or two pieces; otherwise nothing |
| RingBuffer.RingBuffer.Read | wow_base/src/utils/wow_ring_buff.c:139-165 | Takes off the oldest bytes, at most as many as asked for, in one or two pieces; an emptied buffer starts at 0 again |
| RingBuffer.RingBuffer.Clear | wow_base/src/utils/wow_ring_buff.c:171-176 | Empties the queue |
| RingBuffer.RingBuffer.GetFree | wow_base/src/utils/wow_ring_buff.c:75-84 | The length minus the number of queued bytes, on both sides of the wrap |
| RingBuffer.RingBuffer.GetUsed | wow_base/src/utils/wow_ring_buff.c:90-99 | The number of queued bytes |
| RingBuffer.LaidAppends | wow_base/src/utils/wow_ring_buff.c:117-128 | Bytes laid from the tail on, around the end if need be, are appended to the queue and disturb nothing in it |
| RingBuffer.Dropped | wow_base/src/utils/wow_ring_buff.c:147-158 | Stepping the start over n bytes takes exactly the n oldest off |
| Base64.RoundTrip | wow_iot/src/encode/wow_base64.c:52-136 | Decoding the encoding gives back the message, of any non-zero length |
| Base64.RawIsRfc | wow_iot/src/encode/wow_base64.c:62-77 | Zero-filled groups with padding written over their last letters are the encoding of section 4 of RFC 4648 |
| Base64.LetterIs | wow_iot/src/encode/wow_base64.c:14-22 | The encoding table is the alphabet of the RFC's table 1 |
| Base64.SextetExactly | wow_iot/src/encode/wow_base64.c:24-41 | The decoding table gives a letter's place in the alphabet, and 0 for everything else |
| Base64.RfcVectors | wow_iot/src/encode/wow_base64.c:52-80 | Test vectors of section 10 of the RFC |
| Base64.GroupDecodes | wow_iot/src/encode/wow_base64.c:113-133 | Every group of any text, malformed or not, decodes to the three bytes that its four sextets make up |
| Base64.Encode | wow_iot/src/encode/wow_base64.c:52-80 | The loops write the RFC's encoding to the output buffer, or -1 if it is too short or the input empty |
| Base64.Decode | wow_iot/src/encode/wow_base64.c:89-136 | The loop writes the decoded bytes the padding admits, or -1 for lengths that are no multiple of four |
| Base64.EncodedLength | wow_iot/src/encode/wow_base64.c:104-110 | The padding of an encoding tells the message's length |
| Base64.GroupBits | wow_iot/src/encode/wow_base64.c:113-120 | Each group of an encoding, the padded one included, carries its three bytes, zero-filled |

## Left out

- Running out of private memory while the entries are copied for a listing or a rearrangement.
- Segment creation failing after its bump or mapping (`shmopt_init_value_segment`), and a process whose own segment count is stale (EINVAL): mapping is taken to succeed.
- Readers without the lock, statistics, logging, sleeping, configuration, shared-memory mapping.
- Entry memory: an entry's header, key and value are a record under its handle; that records at different handles do not overlap is `ShmHandles.MemorySafe`. Header and alignment enter through the entry size.
- The striping allocators are values in a sequence the cache reassigns, not objects.
- The four copies of the chain walk in set, get, delete and set_expires are one method; `ht_next` of a freed entry is zeroed when it leaves its chain.
- More than 256 value segments: handles keep eight bits of the segment index, as `ShmHandles.PackRoundTrip` states exactly.
- Failures of the mutex other than EBUSY, and the count of retries before a probe: a process of the lock model may probe whenever it waits. Process ids are not reused, and each process has one thread.
- Element widths of quadsort and the dispatch on them; the comparator is a total preorder without side effects. The two copies of the four-element network in quad_swap are one method. Elements are values, so pointer arithmetic is index arithmetic.
- QuadsortMerge.ForwardMerge: for blocks of at least four elements, the only sizes quad_merge_block passes; the comparison made up front looks a quarter of a block back from the end, which for fewer elements is the element behind the block.
- QuadsortPartial.PartialBackwardMerge: for blocks of at least two elements, the only sizes its callers pass; with one element, the comparison after it has been placed reads the element before the block.
- KvList.List.Set: strings are values; that a set of an existing key stores the caller's value pointer is the subject of `KvStrings` (also for `InsertAt`).
- KvList.List.Remove: strings are values; the strings freed while a node still points to them are the subject of `KvStrings` (also for `DeleteAt` and `TakeSuccessor`). Freed nodes simply drop out of the tree.
- KvList.List.Update: strings are values; the terminator an update leaves unwritten is the subject of `KvStrings` (also for `UpdateAt`).
- KvList.List.ForEach: requires arrays long enough for all pairs, which the C function cannot check.
- The rebalancing that delete and update repeat is one method.
- CRC-8, the other CRC-16 variants and the additive checksums: the same registers with other constants.
- Crc32.InvertUint32: shifts are on unsigned words; the C code shifts into the sign bit of an int.
- RingBuffer.RingBuffer.Read: requires a buffer of positive length; the C code divides by zero on an empty one. Null arguments and the creation's failure paths.
- Base64.Encode: requires that the output length fits 32 bits; beyond, the C code's length wraps, its check of the buffer no longer protects the loop, and nothing can be promised. A length beyond the range of the returned int is not seen as negative here.
- Time stamps as text, setting the clock, and local time zones.
- Sockets, files, threads, timers, plugins, configuration parsers and the other containers of the repository.
