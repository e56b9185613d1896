# Verified models of PhotonLibOS components

This project models the parts of PhotonLibOS whose correctness is hardest to see
by reading them, and proves what they are for. `dafny verify dfyconfig.toml`
checks everything.

| file | component |
|---|---|
| MpmcQueue.dfy, BatchQueue.dfy | the two lock-free ring queues, as transition systems over any number of threads with one atomic access per step |
| MpmcCalls.dfy, BatchCalls.dfy | what calls to the queues answer, from call to return |
| ObjectCache.dfy | the reference-counted, expiring object cache, one step per critical section |
| ObjectCacheCalls.dfy | what a session of the cache gets, from acquire to the end of its release |
| IntrusiveList.dfy | the circular intrusive list, on the heap |
| RangeSplit.dfy | splitting an offset range at block boundaries, by division, by shift and mask, and by key points |
| FlatFile.dfy, AlignedFile.dfy, XFile.dfy | a flat file as reference; the aligned-access adaptor; linear and striped composite files |
| IoVec.dfy, SplitView.dfy | scatter/gather vectors over a byte memory; vectored I/O in blocks |
| RangeLock.dfy, Throttle.dfy, RingBuffer.dfy | range lock, token bucket, blocking ring |
| IdentityPool.dfy, PooledAllocator.dfy | object pool and the buffer allocator on top of it |
| DomIndex.dfy | key index and same-key enumeration of SimpleDOM |
| Arith.dfy | division facts and 64-bit saturating arithmetic |

## How the models relate to the code

- Concurrent components are state machines. A run is any finite interleaving of
  calls and steps from an initial state, and the theorems quantify over all runs.
  Memory is sequentially consistent and counters of the queues are unbounded. The
  queue theorems hold for every positive capacity; the constructors make powers of two.
- Components that work in place are classes or methods on arrays, proved against
  specifications on sequences.
- Semaphores, condition variables, clocks, I/O results and fresh addresses are
  parameters or nondeterministic choices of the caller.
- `write_head` and `read_tail` of the batch queue are taken to start at 0; the
  constructor of the source leaves them to the memory they are placed in.
- `malloc_usable_size` is taken to be at least the size asked for and below twice
  the maximum allocation.
- Underlay files complete every read and write up to their end, as a flat file does.

## What turned out not to hold

- A `push` that returns false need not have met a full queue once `recv` is used:
  a receiver that has claimed a ticket ahead of the writers makes the counters
  differ by a whole lap the other way (`MpmcQueue.PushFailsAheadOfRecv`). It has met
  a full queue exactly if no read ticket was ahead at that instant
  (`MpmcQueue.PushFailureJustified`).
- Splicing an empty list into a non-empty one reads the links of a null node
  (`IntrusiveList.SpliceEmpty`); every other splice concatenates.
- An aligned file fails a `pread` that starts past the end at an unaligned offset,
  where a flat file reports the end of file; nowhere else do they differ
  (`AlignedFile.ReadPastEnd`, `AlignedFile.AlignedFileAdaptor.PRead`).
- `iovector_view::slice` does not count the elements it skips, so it delivers the
  wanted bytes only if the skipped elements were empty, or nothing was wanted
  (`IoVec.SliceMisses`, `IoVec.SliceExact`).
- The comment on `shrink_less_than` promises a sum of at most `size`. The code keeps
  the fewest elements that hold at least `size` (`IoVec.ShrinkKeepsMore`); the promise
  holds exactly if everything fits or an element ends at `size` (`IoVec.ShrunkWithin`).
- The comment on `split_iovector_view` promises that rewritten elements are put back.
  After a complete run over several blocks they are, exactly unless the last block is
  short and lies inside the last element (`SplitView.NotRestored`). After a short or
  failed I/O they are exactly if the view of that I/O begins and ends at element
  boundaries (`SplitView.NotRestoredOnError`). `SplitView.SplitVectoredIo` proves both.
- A range lock grants an empty request, and then holds an empty range
  (`RangeLock.EmptyRequestHeld`). An operation keeps the held ranges sound exactly if
  it asks for at least one byte (`RangeLock.InsertHeld`, `RangeLock.AdjustHeld`).
- `do_scale` reads the slot it took off the stack after dropping the lock. If another
  vCPU puts an object back in between, the object takes that slot and is destroyed
  while idle (`IdentityPool.DestroysIdle`); the condition is exact
  (`IdentityPool.DestroyExact`). Threads of one vCPU do not get in between, since
  nothing yields there.
- The allocator has too few slots exactly when the alignment is below 4096
  (`PooledAllocator.SlotsInRange`).
- A request for one byte with alignment 1 skips the slot of one-byte buffers, because
  the rounded-up logarithm of 1 is 1 in the source; every other request gets the
  smallest slot that fits (`PooledAllocator.SlotLeast`).
- In the object cache an idle item never carries a failure stamp, so the failure
  cool-down only affects acquirers that overlap with the failed one
  (`ObjectCache.IdleListExact`).
- `aligned_parts` of an empty range that starts inside a block begins behind its end
  (`RangeSplit.EmptyInsideBlock`). It counts up from there, and would meet its end only
  after the 64-bit index has wrapped around; the condition is exact
  (`RangeSplit.AlignedPartsEnd`).

## Model

| member | source | states |
|---|---|---|
| MpmcQueue.ApplyInv | common/lockfree_queue.h:207-300 | every call and every atomic step of push, pop, send and recv keeps the turn-mark invariant: each ticket is unclaimed, being written, stored, being read or delivered, and its slot's mark says which |
| MpmcQueue.RunInv | common/lockfree_queue.h:207-300 | that invariant in every state of every run |
| MpmcQueue.Delivery | common/lockfree_queue.h:207-300 | in every run the value read with ticket h is the value written with ticket h; every claimed write ticket is in flight, in its slot or delivered; every claimed read ticket is delivered or in flight |
| MpmcQueue.ReadOnce | common/lockfree_queue.h:250-300 | no ticket is delivered twice and a delivered value never changes |
| MpmcQueue.QuiescentDelivery | common/lockfree_queue.h:207-300 | with nothing in flight and as many reads as writes claimed, the values read are exactly the values written, ticket by ticket |
| MpmcQueue.NoDataRace | common/lockfree_queue.h:227-300 | no two threads are ever at accesses to the same slot, so no value is overwritten early |
| MpmcQueue.Bounded | common/lockfree_queue.h:132-140 | in runs of push and pop, head <= tail <= head + capacity always |
| MpmcQueue.HeadBehind | common/lockfree_queue.h:227-285 | in runs without recv head <= tail always |
| MpmcQueue.PushFailureJustified | common/lockfree_queue.h:227-248 | a push that returns false saw, at an instant inside the call, counters a non-zero number of laps apart; it was full or over-claimed then if and only if head <= tail then, which holds in all runs without recv; with push and pop only it was exactly full |
| MpmcQueue.PopFailureJustified | common/lockfree_queue.h:250-271 | a pop that returns false saw head equal to tail at an instant inside the call |
| MpmcQueue.PushFailsAheadOfRecv | common/lockfree_queue.h:227-248 | a run with recv, at capacity 2, in which a push fails and the counters never say full |
| MpmcCalls.PushOutcome | common/lockfree_queue.h:227-248 | over every run and every push(x) from its call to its return: it answers true if and only if exactly one of its steps claimed a ticket, for x, and false if and only if none claimed any |
| MpmcCalls.SendOutcome | common/lockfree_queue.h:274-286 | a send returns only with exactly one ticket claimed, for its value |
| MpmcCalls.PopOutcome | common/lockfree_queue.h:250-271 | a pop fails if and only if none of its steps moved head, and returns ticket h if and only if exactly one did, from h; the value is the one sent under h |
| MpmcCalls.RecvOutcome | common/lockfree_queue.h:288-300 | a recv returns the value of the one ticket it claimed |
| MpmcCalls.QuietMarks | common/lockfree_queue.h:132-140 | with no call between claim and publication, head <= tail <= head + capacity, and the marks at both ends and check_full say exactly whether the queue is full or empty |
| MpmcCalls.SoloPush | common/lockfree_queue.h:227-248 | a push that runs alone from such a state answers within five steps: true with its value sent if there is room, false with nothing sent if the queue is full |
| MpmcCalls.SoloPop | common/lockfree_queue.h:250-271 | a pop that runs alone returns the oldest value, or fails if and only if the queue is empty |
| MpmcCalls.SoloSend | common/lockfree_queue.h:274-286 | a send that runs alone returns if there is room and waits with its place taken if there is none |
| MpmcCalls.SoloRecv | common/lockfree_queue.h:288-300 | a recv that runs alone returns the oldest value, or waits for the next |
| BatchQueue.ApplyInv | common/lockfree_queue.h:332-388 | every atomic step of push_batch and pop_batch, and every element copied, keeps the counter and ownership invariant |
| BatchQueue.RunInv | common/lockfree_queue.h:332-388 | that invariant in every state of every run |
| BatchQueue.CountersOrdered | common/lockfree_queue.h:332-388 | head <= read_tail <= write_head <= tail <= head + capacity in every reachable state |
| BatchQueue.FifoPrefix | common/lockfree_queue.h:332-388 | popped batches in ticket order are a prefix of the pushed ones; a finished push stored exactly the first wn of its elements, a finished pop returned exactly those of its tickets |
| BatchQueue.RegionsDisjoint | common/lockfree_queue.h:343-386 | slots being copied by different threads are different modulo the capacity |
| BatchQueue.NextPublisherExists | common/lockfree_queue.h:332-388 | while tickets are claimed and unpublished, the owner of the lowest can publish next, so publication never gets stuck |
| BatchQueue.ZeroIsJustified | common/lockfree_queue.h:332-388 | a non-empty push_batch returns 0 only when the queue is full, a pop_batch only when nothing is published and unclaimed |
| BatchQueue.FreeSpaceExact | common/lockfree_queue.h:332-345 | the unsigned free-space subtraction, wrapped when the loaded tail is stale, still equals the exact free space |
| BatchQueue.CopyIndexIsMod | common/lockfree_queue.h:343-352 | the two-part copy places element j of a batch at slot (ticket + j) modulo the capacity |
| BatchCalls.PushBatchOutcome | common/lockfree_queue.h:332-358 | over every run, a push_batch of x returns min of the size of x and the free space at an instant inside the call; it claims tickets exactly once, for that many of its first elements, or none if it returns 0 |
| BatchCalls.PopBatchOutcome | common/lockfree_queue.h:361-388 | a pop_batch of n returns min of n and the number of published, unclaimed elements at an instant inside the call; it moves read_tail exactly once, by that many, or not at all if it returns 0 |
| BatchCalls.SoloPushBatch | common/lockfree_queue.h:332-358 | a push_batch that runs alone stores and publishes as many of its first elements as fit, and returns their number |
| BatchCalls.SoloPopBatch | common/lockfree_queue.h:361-388 | a pop_batch that runs alone returns the oldest elements, n or all there are, and frees exactly those |
| ObjectCache.ApplyInv | common/expirecontainer.cpp:53-157 | every critical section of acquire, construct, release, recycle, expire and delete keeps the cache invariant |
| ObjectCache.RunInv | common/expirecontainer.cpp:53-157 | that invariant in every state of every run |
| ObjectCache.IdleListExact | common/expirecontainer.cpp:83-157 | the idle list holds exactly the indexed items without reference and recycler, in order of expiration; reference counts count the holders |
| ObjectCache.BorrowersShareObject | common/expirecontainer.cpp:83-121 | concurrent borrowers of a key have the same live object, the one its constructor stored |
| ObjectCache.OneConstructor | common/expirecontainer.cpp:108-115 | at most one session per key is inside the constructor, and only while there is no object |
| ObjectCache.OneRecycler | common/expirecontainer.cpp:127-155 | an item has at most one recycler; it proceeds only when no reference is left, and is always signalled then |
| ObjectCache.DeletedUnclaimed | common/expirecontainer.cpp:123-157 | an item is deleted only when nobody else claims it, and no borrowed object is destroyed or moved out |
| ObjectCache.DeletionIsByDisposer | common/expirecontainer.cpp:53-66 | only the session that took an item out of the index deletes it |
| ObjectCache.ObjectConservation | common/expirecontainer.cpp:83-157 | every object ever constructed is carried by exactly one item, or moved out, or destroyed |
| ObjectCache.ExpireLoopSpec | common/expirecontainer.cpp:53-66 | the prefix scan takes items as long as they are expired or the index exceeds the limit, and removes exactly their index entries |
| ObjectCache.ExpireComplete | common/expirecontainer.cpp:53-66 | after expire no idle item is expired, and either nothing is idle or the index is within the limit |
| ObjectCacheCalls.ApplyItemChange | common/expirecontainer.cpp:53-157 | whatever happens, an item keeps its key; its object is stored once, by its constructor; its failure stamp is set by a failed constructor and cleared when it becomes idle; its expiration is set, to now plus lifespan, when it becomes idle |
| ObjectCacheCalls.AskedItem | common/expirecontainer.cpp:83-121 | over every run, a session works on the item of the key it asked for, with the cooldown it asked for, from its acquire to the end of its release |
| ObjectCacheCalls.SameKeySameObject | common/expirecontainer.cpp:83-121 | two sessions that asked for the same key and have got an object have the same live object, that of the item the key leads to |
| ObjectCacheCalls.SameKeyOneConstructor | common/expirecontainer.cpp:108-115 | of the sessions that asked for a key at most one is inside the constructor |
| ObjectCacheCalls.AcquireOutcome | common/expirecontainer.cpp:89-107 | a session gets the item of its key at its next step, a new one without object if the key is unknown, unless the item is being recycled; other keys keep their items |
| ObjectCacheCalls.ConstructsWhenDue | common/expirecontainer.cpp:108-115 | with the mutex free, a session runs the constructor if and only if there is no object and no failure within the cooldown of its call |
| ObjectCacheCalls.CtorOutcome | common/expirecontainer.cpp:112-114 | a constructor that succeeds stores an object no item had; one that fails stores the time |
| ObjectCacheCalls.FailureStands | common/expirecontainer.cpp:109-114 | the stamp of a failure, or a later one, stands until the item becomes idle |
| ObjectCacheCalls.CooldownRespected | common/expirecontainer.cpp:109-114 | within its cooldown no session runs the constructor again after a failure, as long as the item was not idle in between |
| ObjectCacheCalls.CheckOutcome | common/expirecontainer.cpp:116-120 | ref_acquire returns object o if and only if the item has o, and gives the reference back if and only if it has none |
| ObjectCacheCalls.ConstructedIsBorrowed | common/expirecontainer.cpp:108-120 | a session whose constructor succeeds gets the object it made |
| ObjectCacheCalls.ReleaseGoesOn | common/expirecontainer.cpp:123-157 | a release goes on with the item it borrowed and the flags it was called with, and the object stays in the item until then |
| ObjectCacheCalls.ReleaseOutcome | common/expirecontainer.cpp:123-157 | a release recycles if and only if it asked to and nobody did before; it waits exactly while references are left, takes out its key and no other, deletes its item and no other, and the object it had is destroyed if the call said so, handed out if not |
| ObjectCacheCalls.IdleSince | common/expirecontainer.cpp:135-139 | an item that became idle at time t and stayed so has expiration t plus lifespan |
| ObjectCacheCalls.KeptForLifespan | common/expirecontainer.cpp:53-66 | expire does not take it before that time has passed, unless the index exceeds the limit |
| IntrusiveList.RingUnique | common/intrusive_list.h:23-44 | the pointers determine the sequence of nodes |
| IntrusiveList.Node.RemoveFromList | common/intrusive_list.h:34-44 | unlinking leaves the ring of the others and a ring of one, and returns the next node |
| IntrusiveList.Node.InsertBetween | common/intrusive_list.h:90-97 | linking a single node between two neighbours |
| IntrusiveList.Node.InsertBefore | common/intrusive_list.h:45-48 | the node becomes the last of the ring |
| IntrusiveList.Node.InsertListBefore | common/intrusive_list.h:57-60 | splicing concatenates two rings |
| IntrusiveList.Node.Split | common/intrusive_list.h:73-87 | splitting gives two rings whose concatenation is the original |
| IntrusiveList.List.PushBack | common/intrusive_list.h:283-290 | appends a single node; an empty list becomes the whole ring of the node; otherwise a node that is in a ring already stays there |
| IntrusiveList.List.PushBackList | common/intrusive_list.h:291-299 | appends another list, which becomes empty; fails if and only if the argument is empty and this list is not |
| IntrusiveList.SpliceEmpty | common/intrusive_list.h:291-299 | splicing an empty list into one of one node fails |
| IntrusiveList.List.PushFront | common/intrusive_list.h:300-306 | prepends a single node; a node of the list becomes its first; a node of another ring makes the list that ring |
| IntrusiveList.List.PopFront | common/intrusive_list.h:316-324 | removes and returns the first node |
| IntrusiveList.List.PopBack | common/intrusive_list.h:325-337 | removes and returns the last node |
| IntrusiveList.List.Erase | common/intrusive_list.h:338-344 | the node leaves the ring it is in, this list or another, and its successor is returned |
| IntrusiveList.List.Contains | common/intrusive_list.h:375-387 | true exactly for the nodes of the list |
| IntrusiveList.List.SplitFrontInclusive | common/intrusive_list.h:389-402 | the part up to and including the node is returned, the rest stays |
| IntrusiveList.List.SplitFrontExclusive | common/intrusive_list.h:403-417 | the part before the node is returned, the rest stays |
| IntrusiveList.List.SplitByPredicate | common/intrusive_list.h:419-432 | the longest prefix that satisfies the predicate is returned, the rest stays |
| IntrusiveList.List.RoundRobinNext | common/intrusive_list.h:445-449 | the first node becomes the last |
| IntrusiveList.SpliceThenSplit | common/intrusive_list.h:73-106 | splitting after splicing a non-empty ring gives the two rings back |
| RangeSplit.MaskIsMod | fs/range-split.h:328-335 | masking with 2^k - 1 is the remainder modulo 2^k |
| RangeSplit.ShrIsDiv | fs/range-split.h:328-335 | shifting right by k is division by 2^k |
| RangeSplit.ShlIsMul | fs/range-split.h:336-339 | shifting left by k is multiplication by 2^k |
| RangeSplit.Power2AgreesWithDivision | fs/range-split.h:299-344 | the shift and mask splitter computes what the division splitter does on powers of two |
| RangeSplit.UpperBound | fs/range-split-vi.h:52-62 | binary search: exactly the key points before the result are at most x |
| RangeSplit.Divide | fs/range-split.h:117-121 | for all three splitters: x lies in block down at offset rem, and up is the first block that starts at or after x |
| RangeSplit.DivideByDivision | fs/range-split.h:299-305 | the same for division |
| RangeSplit.DivideByShift | fs/range-split.h:328-335 | the same for shift and mask |
| RangeSplit.DivideByKeyPoints | fs/range-split-vi.h:52-62 | the same for key points |
| RangeSplit.StartStep | fs/range-split.h:122-129 | blocks are not empty and follow each other without gap |
| RangeSplit.Init | fs/range-split.h:133-192 | small note, preface, first part and postface are exactly the partial pieces of the range |
| RangeSplit.NextPart | fs/range-split.h:243-270 | the iterator moves to the piece of the next block |
| RangeSplit.AllParts | fs/range-split.h:240-289 | the iteration yields exactly the pieces of the range |
| RangeSplit.AlignedPartsEnd | fs/range-split.h:222-233 | counting up from apbegin meets the end of the iteration if and only if the range is not empty or begins at a block start |
| RangeSplit.AlignedParts | fs/range-split.h:194-238 | the iteration ends under exactly that condition, and then yields exactly the whole blocks |
| RangeSplit.EmptyInsideBlock | fs/range-split.h:194-238 | for an empty range at offset 1 in blocks of four it does not end |
| RangeSplit.PiecesTile | fs/range-split.h:240-289 | the pieces are non-empty, inside one block each, contiguous and cover exactly the range |
| RangeSplit.ByCategory | fs/range-split.h:346-376 | visiting small note or preface, aligned parts and postface visits all parts in order |
| RangeSplit.CategoriesAreAll | fs/range-split.h:346-376 | preface + aligned parts + postface equals all parts |
| RangeSplit.SmallNoteIsAll | fs/range-split.h:346-376 | a small note is the only part |
| RangeSplit.SplitAll | fs/range-split.h:133-289 | splitting any non-empty range gives a partition of it, for all three splitters |
| AlignedFile.SplitSpan | fs/range-split.h:101-114 | the aligned span covers the range, begins and ends on block starts, and the remainders are the distances to it |
| AlignedFile.WriteBackRefines | fs/aligned-file.cpp:119-134 | writing back a patched span and truncating leaves exactly the file a flat write leaves |
| AlignedFile.AlignedFileAdaptor.FillBuffer | fs/aligned-file.cpp:99-127 | the loaded and patched buffer holds what the span should hold after the write |
| AlignedFile.AlignedFileAdaptor.WriteBlocks | fs/aligned-file.cpp:93-135 | the read-modify-write path equals the flat write |
| AlignedFile.AlignedFileAdaptor.PWrite | fs/aligned-file.cpp:86-136 | for every alignment, offset, count and content, pwrite leaves the file a flat pwrite leaves and returns count |
| AlignedFile.AlignedFileAdaptor.ReadBlocks | fs/aligned-file.cpp:72-85 | reading whole blocks and cutting equals the flat read, or fails |
| AlignedFile.AlignedFileAdaptor.PRead | fs/aligned-file.cpp:65-85 | pread equals the flat pread, and fails if and only if the offset is unaligned and past the end |
| AlignedFile.ReadPastEnd | fs/aligned-file.cpp:77-80 | a read on which the adaptor fails and a flat file does not |
| XFile.LocatePart | fs/xfile.cpp:114-120 | the bytes of a part are consecutive bytes of one file |
| XFile.LocateFixed | fs/xfile.cpp:105-122 | byte x is byte x mod unit of file x div unit |
| XFile.LocateStripe | fs/xfile.cpp:197-216 | block b goes to file b mod n as its block b div n |
| XFile.LocateLinear | fs/xfile.cpp:129-163 | byte x lies in the file between whose running totals x is, at the distance from the lower one |
| XFile.LocateInjective | fs/xfile.cpp:197-216 | no two bytes of the whole share a place, for linear and striped layouts |
| XFile.LocateOnto | fs/xfile.cpp:197-216 | every byte of every file has a place in the whole |
| XFile.LocateWithin | fs/xfile.cpp:99-122 | a byte is below the size if and only if its place is a byte of a file: with the two rows above, [0, size) and the bytes of the files correspond one to one, for linear and striped layouts |
| XFile.FullFilesComplete | fs/xfile.cpp:99-122 | if the files are as long as the layout says, every byte of the whole is there |
| XFile.WritePart | fs/xfile.cpp:105-122 | writing a part changes its bytes of the whole and no others; they are there afterwards, and nothing that was there is lost |
| XFile.XFile.PRead | fs/xfile.cpp:105-122 | a read returns the slice of the whole, clipped at its end; it fails exactly for an offset outside or a byte that is not there, so never inside a complete file; the loops at 146-163 and 197-216 are the same over their splitters |
| XFile.XFile.PWrite | fs/xfile.cpp:105-122 | a write splices its bytes into the whole, makes them present, and leaves every other byte alone; a complete file stays complete |
| XFile.WriteThenRead | fs/xfile.cpp:105-122 | what was written is read back, in any composite file |
| XFile.FixedSplitter | fs/xfile.cpp:241-243 | the splitter chosen for a unit has blocks of that size |
| XFile.NewFixedSizeLinearFile | fs/xfile.cpp:233-244 | fails exactly for no files or an empty unit; the size is n units; complete if every file holds a unit |
| XFile.LinearKeyPoints | fs/xfile.cpp:129-145 | key points are the running totals; they ascend if and only if no file is empty and the total is below 2^64 - 1 |
| XFile.NewLinearFile | fs/xfile.cpp:246-252 | made for any files; usable if and only if they are distinct and their key points ascend; then complete, with their total size |
| XFile.NewStripeFile | fs/xfile.cpp:170-196 | succeeds exactly for at least one file, all of one size that is a positive multiple of the stripe; then complete |
| IoVec.CopyStep | common/iovector.cpp:275-288 | one memcpy extends a flat copy by one stretch |
| IoVec.CopyFront | common/iovector.cpp:278-286 | one round copies a stretch, moves both sides on and makes progress even over empty elements |
| IoVec.CopyLoop | common/iovector.cpp:275-288 | the loop terminates and is a flat copy |
| IoVec.MemcpyIov | common/iovector.cpp:290-292 | exactly the first min(size, dest, src) flattened bytes are copied, nothing else changes, for any fragmentation |
| IoVec.PipeIov | common/iovector.cpp:294-311 | the same, and the source loses exactly the copied bytes from its front |
| IoVec.Iterator.Advance | common/iovector.cpp:258-267 | drops n bytes of the front element |
| IoVec.View.Advance | common/iovector.cpp:294-303 | drops n bytes of the front element in place |
| IoVec.View.Sum | common/iovector.cpp:23-29 | the length of the flattened vector |
| IoVec.View.ShrinkTo | common/iovector.cpp:31-48 | keeps exactly the first min(size, total) bytes |
| IoVec.View.ShrinkLessThan | common/iovector.cpp:50-72 | keeps the fewest elements that hold size bytes, unchanged, and returns the excess |
| IoVec.ShrunkWithin | common/iovector.cpp:50-72 | what is kept is within size if and only if everything is, or an element ends at size |
| IoVec.ShrinkKeepsMore | common/iovector.cpp:50-72 | eight bytes shrunk to five stay eight |
| IoVec.View.ExtractFront | common/iovector.cpp:109-140 | drops exactly min(bytes, total) bytes from the front |
| IoVec.View.ExtractFrontInto | common/iovector.cpp:193-205 | no byte is lost or duplicated between the two vectors; fails exactly when the target has too few elements |
| IoVec.View.ExtractBack | common/iovector.cpp:143-172 | drops exactly min(bytes, total) bytes from the back |
| IoVec.View.Slice | common/iovector.cpp:74-104 | delivers a window of the vector that begins with the first element longer than offset, as far as there is room |
| IoVec.SliceExact | common/iovector.cpp:84-101 | that is the wanted window if and only if nothing is wanted, it lies past the end, or the skipped elements are empty |
| IoVec.SliceMisses | common/iovector.cpp:84-101 | two one-byte elements sliced at offset 1 give nothing |
| SplitView.PartsAreWhole | fs/throttled-file.cpp:199-233 | cutting inside an element splits the flattened vector in two |
| SplitView.ShrunkOk | fs/throttled-file.cpp:198-203 | do_shrink leaves a view of a full block, or all that is left, and saves the right elements |
| SplitView.AllFinished | fs/throttled-file.cpp:204-217 | putting the saved elements back restores the vector if and only if the last element was saved |
| SplitView.InsideElement | fs/throttled-file.cpp:219-232 | what remains begins inside the last element of the view |
| SplitView.SplitView.constructor | fs/throttled-file.cpp:185-197 | the first view is the first block |
| SplitView.SplitView.Next | fs/throttled-file.cpp:204-233 | what is to be handed out loses exactly the current view |
| SplitView.SplitView.ViewIsFirst | fs/throttled-file.cpp:180-234 | every view holds the next min(block, remaining) bytes |
| SplitView.SplitView.SplitIo | fs/throttled-file.cpp:237-265 | every I/O gets the next block; the result is the sum of all, or that up to the first short one, or -1; the exact condition for restoring the vector in each case |
| SplitView.UnsavedIff | fs/throttled-file.cpp:199-233 | the last element is not saved if and only if the last block is short and lies inside it |
| SplitView.EarlyEnd | fs/throttled-file.cpp:253-260 | without a next() after it, the vector is the original if and only if the last view begins and ends at element boundaries |
| SplitView.SplitVectoredIo | fs/throttled-file.cpp:180-267 | end to end, for complete and failing I/O: blocks in order, concatenating to the vector up to the first short I/O, and the exact condition for restoring it |
| SplitView.NotRestored | fs/throttled-file.cpp:178-180 | ten bytes in blocks of four are not put back |
| SplitView.NotRestoredOnError | fs/throttled-file.cpp:253-260 | eight bytes in blocks of four stay cut when the first I/O fails |
| RangeLock.Exclusive | common/range-lock.h:111-133 | no point belongs to two held ranges |
| RangeLock.OneNeighbour | common/range-lock.h:30-38 | the single lower_bound neighbour conflicts exactly when some held range overlaps |
| RangeLock.InsertHeld | common/range-lock.h:38-41 | inserting there keeps the held ranges sorted and disjoint exactly when the request is not empty |
| RangeLock.RefusedIff | common/range-lock.h:93-95 | adjust_range refuses exactly what does not fit between the neighbours |
| RangeLock.FitsIff | common/range-lock.h:86-99 | looking at the two neighbours is enough: adjust_range accepts exactly what ends before every later and begins after every earlier held range |
| RangeLock.AdjustHeld | common/range-lock.h:86-99 | an accepted adjustment keeps the ranges sorted and disjoint exactly when it is not empty |
| RangeLock.WithoutHeld | common/range-lock.h:44-57 | removing contained ranges keeps the rest sorted and disjoint |
| RangeLock.WithoutMembers | common/range-lock.h:44-57 | what is left is exactly what was held and is not contained |
| RangeLock.Unlocked | common/range-lock.h:48-56 | ranges outside the scanned window are never contained |
| RangeLock.StepHeld | common/range-lock.h:28-106 | every operation keeps the held ranges non-empty, sorted and disjoint under saturating ends |
| RangeLock.RunHeld | common/range-lock.h:28-106 | so do all runs, and handles stay unique |
| RangeLock.EmptyRequestHeld | common/range-lock.h:28-42 | an empty request leaves an empty held range |
| RangeLock.RangeLock.TryLockWait | common/range-lock.h:28-42 | rejects if and only if some held range overlaps, changing nothing and reporting the first such conflict; otherwise the held ranges are the old ones and the new one |
| RangeLock.RangeLock.TryLockWait2 | common/range-lock.h:61-76 | the same with a handle that no other held range has |
| RangeLock.RangeLock.AdjustRange | common/range-lock.h:86-99 | succeeds if and only if there is a handle and the new range stays clear of every other held range and passes none; then exactly the range of the handle is replaced |
| RangeLock.RangeLock.Unlock | common/range-lock.h:101-106 | removes the range of the handle and no other |
| RangeLock.RangeLock.UnlockContained | common/range-lock.h:44-57 | removes exactly the contained ranges |
| Throttle.EarnedFits | common/throttle.h:18-30 | the refill product never exceeds the limit and cannot overflow |
| Throttle.RefillExact | common/throttle.h:18-30 | a refill gives the share of every whole slice since the last one, up to the limit; capping the time at the window loses nothing |
| Throttle.WindowFills | common/throttle.h:18-30 | after a whole window without a refill the bucket is full, so a request for at most the limit is served |
| Throttle.RefillPaid | common/throttle.h:18-30 | a refill adds no more than the slices since the last one are worth |
| Throttle.Balance | common/throttle.h:18-111 | over every run, tokens held plus consumed are covered by those at the start, those restored and the slices passed; tokens never exceed the limit |
| Throttle.ConsumptionBound | common/throttle.h:61-111 | from any state to any later time, consumption is at most limit + restored + limit per slice times whole slices |
| Throttle.Throttle.constructor | common/throttle.h:36-46 | limit and window are rounded up to whole slices without overflow |
| Throttle.Throttle.Refresh | common/throttle.h:18-30 | tokens become min of the limit and the tokens plus limit per slice times the whole slices since the last refill; the time of the refill is recorded exactly if there was a whole slice |
| Throttle.Throttle.TryConsume | common/throttle.h:101-104 | succeeds if and only if that number covers the amount, and then takes it; otherwise only the refill happens |
| Throttle.Throttle.Update | common/throttle.h:55-59 | a new limit keeps the bounds exactly when it is not below the tokens present |
| Throttle.Throttle.GiveBack | common/throttle.h:106-111 | tokens become min of the limit and the tokens plus the amount |
| RingBuffer.CircleTake | common/ring.cpp:26-56 | reading a stretch, across the wrap-around, takes it off the front |
| RingBuffer.CirclePut | common/ring.cpp:74-106 | writing a stretch into free slots, across the wrap-around, appends it |
| RingBuffer.Ring.Occupancy | common/ring.h:28-31 | size() is the number of bytes held, at most capacity - 1; empty and full mean what they say |
| RingBuffer.Ring.NotBothBlocked | common/ring.h:46-60 | reader and writer are never both blocked |
| RingBuffer.Ring.ReadRound | common/ring.cpp:38-58 | an unblocked round delivers at least one byte, the oldest ones: all that is wanted, all there are, or all up to the wrap-around |
| RingBuffer.Ring.WriteRound | common/ring.cpp:86-108 | an unblocked round accepts at least one byte and appends it: all there is, all that fits, or all up to the wrap-around |
| RingBuffer.Interleave | common/ring.cpp:38-108 | over every interleaving of rounds, bytes read followed by those held are the bytes written; occupancy stays below the capacity; a round moves nothing exactly when it is blocked or has nothing to do |
| RingBuffer.ReactOk | common/ring.h:128-137 | every event of concurrent calls under the two locks keeps the call invariant |
| RingBuffer.CallsContiguous | common/ring.h:128-137 | in every run each read or write call covers one contiguous stretch of the stream and no two calls share a byte |
| RingBuffer.CallOutcome | common/ring.cpp:38-108 | over every run a read returns the number of bytes it was asked for and a write puts in all its bytes, as one stretch of the stream; less only after an interrupted wait on an empty, or full, ring |
| RingBuffer.LocksHeld | common/ring.h:128-137 | in every run each lock is free or held by a call at work |
| RingBuffer.CallProgress | common/ring.cpp:38-108 | a waiting call gets its lock unless a call at work has it; a call at work can move on unless the ring is empty, or full; a call that has moved everything returns |
| IdentityPool.StepPartition | common/identity-pool.cpp:21-70 | every step keeps each object in exactly one of idle, held, destroyed and being destroyed, if a slot still holds the object taken off |
| IdentityPool.StepRefcnt | common/identity-pool.cpp:21-56 | the reference count the destructor waits on is the number of held objects |
| IdentityPool.DestroyExact | common/identity-pool.cpp:58-70 | that condition is exact |
| IdentityPool.RunPartition | common/identity-pool.cpp:21-70 | over all runs in which nothing is put back inside that window, objects stay partitioned, idle ones within the capacity and held ones counted |
| IdentityPool.DestroysIdle | common/identity-pool.cpp:58-70 | a run in which an idle object is destroyed |
| IdentityPool.Pool.Take | common/identity-pool.cpp:21-38 | get returns the object on top of the stack, or a new one if it is empty; nobody held it; the minimum of the interval follows the size |
| IdentityPool.Pool.GiveBack | common/identity-pool.cpp:40-56 | put places the object on top of the stack, or destroys it exactly when the stack is full |
| IdentityPool.Pool.DoScale | common/identity-pool.cpp:58-70 | undisturbed, destroys half of what stayed idle, rounded up: exactly the objects on top of the stack |
| PooledAllocator.Log2Unique | common/utility.h:134-139 | the truncated logarithm is the only r with 2^r <= x < 2^(r+1) |
| PooledAllocator.RoundUpCovers | common/utility.h:149-152 | the rounded-up logarithm is the least that covers x, for x > 1 |
| PooledAllocator.SlotFits | common/io-alloc.h:178-182 | the slot for a request is big enough |
| PooledAllocator.SlotLeast | common/io-alloc.h:178-182 | no smaller slot is big enough, except for a request of one byte with alignment 1 |
| PooledAllocator.SlotsInRange | common/io-alloc.h:122-132 | all requests find a slot if and only if the alignment is at least 4096 |
| PooledAllocator.ReturnSlot | common/io-alloc.h:195-205 | a block returns to an existing slot: the largest it is big enough for |
| PooledAllocator.AllocateServes | common/io-alloc.h:178-193 | an allocation fails exactly if its least size is over the maximum; otherwise it gives min(max, maximum) bytes out of the smallest slot that fits, an idle block if there is one, else a new one |
| PooledAllocator.FreeKeeps | common/io-alloc.h:195-205 | a freed block becomes idle in the largest slot it is big enough for, or is destroyed exactly if that slot is full |
| PooledAllocator.StepSized | common/io-alloc.h:178-205 | each request keeps every block in slot k at least alignment times 2^k bytes, and hands out at least the reported size |
| PooledAllocator.StepOwned | common/io-alloc.h:178-205 | each request keeps every block in exactly one of idle, held and destroyed, whichever slot it returns to, and hands out only blocks that nobody holds |
| PooledAllocator.HistoryOk | common/io-alloc.h:178-205 | both over every history of requests: chosen slots exist, sizes hold, every block has one owner |
| PooledAllocator.NoDoubleAllocation | common/io-alloc.h:185-205 | between two allocations that return the same block there is a free of it |
| DomIndex.LessTotal | ecosystem/simple_dom.cpp:107-120 | keys are totally ordered |
| DomIndex.BeforeTrans | ecosystem/simple_dom.cpp:109-114 | the index order is transitive |
| DomIndex.SortIndex | ecosystem/simple_dom.cpp:130-132 | the index is sorted by key and position and holds every child |
| DomIndex.LastInIndex | ecosystem/simple_dom.cpp:133-139 | the last child of a key is the one followed by another key in the index |
| DomIndex.DocNode.SetChildren | ecosystem/simple_dom.cpp:122-144 | truncates to the maximum, and all flags mean what they say |
| DomIndex.DocNode.MarkLastOfKey | ecosystem/simple_dom.cpp:133-139 | the flag is set exactly on the last child of each key |
| DomIndex.DocNode.LowerBound | ecosystem/simple_dom.cpp:162-163 | the first place in the index whose key is not less |
| DomIndex.DocNode.Get | ecosystem/simple_dom.cpp:155-167 | with an index, the first child with the key in document order, or none exactly if there is none |
| DomIndex.DocNode.NextSameKey | ecosystem/simple_dom.h:216-224 | the next child with the same key, or the end exactly after the last, with or without an index |
| DomIndex.DocNode.ChildrenWithKey | ecosystem/simple_dom.h:209-235 | with an index the enumeration visits exactly the children with the key, once each, in document order; without one it is empty |

## Left out

- Logging, performance counters, startup, event engines, network clients, and the local, async, export and forward file systems.
- The JSON, XML, YAML and INI parsers behind SimpleDOM, and the text offsets inside its nodes.
- Weak memory orders and wrap-around of 64-bit queue counters, except in BatchQueue.FreeSpaceExact.
- The `Pause` strategies of the queues, the SPSC queue and the blocking ring channel on top of them.
- `ExpireList`, `keep_alive`, `clear` and the destructor of the expire containers; common/objectcachev2.h, which repeats the protocol.
- `push_front` of a whole list, which calls a member that does not exist, and `delete_all` of the intrusive list.
- Overflow of 64-bit offsets in the range splitters.
- Allocation failures, and underlay I/O errors beyond a short result.
- `preadv` and `pwritev` of the aligned file, which only repeat the scalar forms over fragments.
- `extract_back` and `extract_front` into a buffer: the copying forms combine an extraction with a flat copy.
- Reading one element past the end of an iovec array when an iterator runs out, and the accesses of `split_iovector_view` to an empty rest, are not performed by the model.
- `split_iovector_view` with block size 0, for which split_io does not use the view's blocks.
- Waiting and priorities of the throttle: they only restrict which takes happen, and the bound holds for all of them.
- Waiting on a conflicting range: try_lock_wait reports the conflict and the caller tries again.
- 32-bit wrap-around of ring indexes; masking by a power of two is modelled as the remainder (RangeSplit.MaskIsMod proves the two equal).
- common/rcuptr.h, common/unordered_inline_set.h, the statistics queue of the throttled file, case-insensitive comparison and path levels.
- Throttle.Throttle.constructor: asks for at least one slice and a window above 0, without which the source divides by zero.
- XFile.XFile.PRead: asks for distinct underlay files with ascending key points, as XFile.PWrite does; the splitter asserts the latter on every request.
- RingBuffer.Ring.constructor: asks for a capacity of at least 2; with 1 the ring of the source is always full.
- IdentityPool.Pool.GiveBack: leaves out the null object, which put ignores.
- IoVec.MemcpyIov: asks that no byte is written twice or both read and written, as memcpy does.
- IoVec.View.Slice: takes offset as non-negative.
- PooledAllocator.HistoryOk: asks for a maximum of at most 2^31, because slots are computed from an unsigned int.
