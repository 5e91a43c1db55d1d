# A verified model of the cache

This project models the storage engine of the sharded byte cache, its expiry, and the parts of the cluster protocol
that carry data, and proves what they keep over whole runs. It is layered as the program is, and each layer is proved
against a simpler one:

- **Free list** (`FreeList.dfy`, over `Regions.dfy` and `Options.dfy`): the index tree, the shared items and the eight size lists
  represent a set of disjoint byte ranges that never touch.
- **Byte queue** (`Arena.dfy`, `BytesQueue.dfy`): the arena is tiled by entries, free blocks and the bytes that a
  double merge loses. `QueueRun.dfy` shows that a queue that is pushed and popped is a sequence, `StoreRun.dfy` that
  one that is pushed, deleted from and read is a store.
- **Entries** (`Bytes.dfy`, `Encoding.dfy`): the byte layout of a cache entry, with its 16-bit offsets.
- **Expiry** (`Ttl.dfy`): keys by second in an ordered tree and one timer. Time is a clock in nanoseconds.
- **Shard** (`Shard.dfy`, `ShardRun.dfy`, `Demands.dfy`): the hash index over the queue is a map from hashes to entries, over runs of
  any length. `Interleaving.dfy` takes the critical sections of set, del and the eviction goroutine as actions of a
  state machine and proves what holds over every interleaving.
- **Cache** (`Bits.dfy`, `Fnv.dfy`, `BigCache.dfy`, `CacheRun.dfy`, `Iterator.dfy`): the shards together are one map,
  the clock included, and the iterator lists it.
- **Cluster** (`Messages.dfy`, `Framing.dfy`, `ClusterGet.dfy`): the binary messages, the byte stream between two
  nodes, and the matching of answers with Gets as a state machine over its messages.

`Departures.dfy` has inputs at which the queue and the shard do what their callers may not expect.

Objects that the program updates in place are classes with the same fields; a ghost field holds the abstract value,
and the invariant ties the two. Loops are loops. What the methods compute is stated with functions and predicates on
values, and the lemmas are about those.

## Where the program departs from its intent

The model follows the code in each of these, and states the exact effect or condition.

- Giving back a block with both neighbours free forgets the left one, whose bytes are lost (`Release`, `Forgotten`).
- A free block of exactly 4096 bytes is in no size list: it can be merged but is never handed out (`Find`).
- Resetting a queue or a shard does not clear the free list (`BytesQueue.Reset`, `Shard.Reset`, `ResetQueue`,
  `ResetShard`).
- Growing a wrapped queue changes the order and counts the filler as an entry (`FirstInFirstOut`, `OneFillerPerTurn`,
  `TurnRound`).
- An empty entry that ends exactly at the end of the arena is refused by reads, pops and deletions (`PeekEntry`,
  `EmptyAtEnd`).
- A set whose push is refused returns zero without an error, keeps the lock, and leaves the index naming a deleted
  entry (`Shard.Set`, `RefuseSet`). The configuration's comment says that the oldest entries make room instead.
- A del reads its timestamp in the freed block, and takes the record out of the expiry table, after giving the lock
  back: a set of the same key in between can lose its record, for whatever second, because its entry may take the
  freed block (`AlwaysCovered`, `ExactlyFree`, `LostRecord`, `LostNewRecord`, `Reuse`).
- The eviction goroutine takes the first timestamp of the tree without looking at the time (`NeverEarly`,
  `EarlyUnlessPunctual`, `EarlyEviction`).
- Offsets of keys are added up in 16 bits (`RoundTrip`, `PutRoundTrip`, `GetRspRoundTrip`, `ExactKeyBound`).
- The comment on the network sender describes a two-byte length; the code writes four bytes, which is what the
  consumer reads and what is modelled (`Frame`).
- Zero shards pass the power-of-two test: they make a cache without shards, or a division by zero when there is a
  size limit (`BigCache.New`).

## Model

| member | source | states |
|---|---|---|
| `FreeLists.FreeList.constructor` | bigcache/queue/freeList.go:23-33 | the representation invariant holds from the start and no byte is free |
| `FreeLists.FreeList.Add` | bigcache/queue/freeList.go:38-68 | the free bytes become exactly `Release`: joined with the right neighbour, or with the left one when there is none on the right; the index tree, the shared items and the size lists stay consistent (tree keys are exactly first and last bytes, every block but those of 4096 bytes in exactly one list of its class, no two blocks touch) |
| `FreeLists.ReleaseBytes` | bigcache/queue/freeList.go:38-68 | byte by byte: exactly the bytes given back become free, except that the left neighbour stops being free when both neighbours were |
| `FreeLists.FreeList.Unlink` | bigcache/queue/freeList.go:43-60 | taking a neighbour out of the tree and its list removes exactly its block and keeps the representation |
| `FreeLists.FreeList.Link` | bigcache/queue/freeList.go:62-65 | putting an item whose bytes touch no free block into the tree and its list adds exactly its block and keeps the representation |
| `FreeLists.FreeList.RemoveFromSizeList` | bigcache/queue/freeList.go:70-122 | exactly the given item leaves the list of its size class, the other lists and the order are kept; an item of 4096 bytes is in no list |
| `FreeLists.FreeList.PutIntoSizeList` | bigcache/queue/freeList.go:124-143 | exactly the given item enters the list of its size class, unless it has 4096 bytes |
| `FreeLists.SizeClasses` | bigcache/queue/freeList.go:124-143 | the bounds of the eight lists in bytes; a block of exactly 4096 bytes belongs to none |
| `FreeLists.FreeList.ListPos` | bigcache/queue/freeList.go:145-153 | the first position of an item by identity, or -1 exactly when it does not occur |
| `FreeLists.FreeList.Find` | bigcache/queue/freeList.go:155-199 | -1 exactly when every free block is of 4096 bytes or too small, and then nothing changes; otherwise the start of a large enough block, which is below 64, 128, 256, 512, 1024, 2048 or 4096 bytes whenever some large enough block is, and whose first bytes and nothing else stop being free |
| `FreeLists.FreeList.FindInSizeList` | bigcache/queue/freeList.go:201-232 | the first block of the list that is large enough is used, split in any of the three ways with the same effect on the free bytes; failure means no block of the class fits and changes nothing |
| `FreeLists.CarveBytes` | bigcache/queue/freeList.go:201-228 | byte by byte: exactly the bytes taken stop being free |
| `FreeLists.FreeList.ShrinkInPlace` | bigcache/queue/freeList.go:213-219 | the in-place split, which the caller can reach only when more than 4096 bytes are left, moves one tree key and keeps the item in its list |
| `FreeLists.FreeList.UnlinkAt` | bigcache/queue/freeList.go:205-211 | a block found at a list position leaves the list and both tree keys |
| `FreeLists.ReleaseTotal` | bigcache/queue/freeList.go:38-68 | giving back n bytes raises the free total by n, less the size of the left neighbour when both neighbours are free |
| `FreeLists.CarveTotal` | bigcache/queue/freeList.go:201-232 | taking n bytes lowers the free total by exactly n |
| `FreeLists.LookupLeft` | bigcache/queue/freeList.go:43-51 | the tree entry one byte before a range is found exactly when a free block ends there, and is that block |
| `FreeLists.LookupRight` | bigcache/queue/freeList.go:52-60 | the tree entry right after a range is found exactly when a free block starts there, and is that block |
| `Arena.AppendTail` | bigcache/queue/bytes_queue.go:128-143 | writing an entry at the tail keeps the tiling and adds exactly that entry |
| `Arena.FillIdle` | bigcache/queue/bytes_queue.go:71-81 | writing an entry over free bytes keeps the tiling and every other entry |
| `Arena.Enlarge` | bigcache/queue/bytes_queue.go:109-113 | an arena copied up to the right margin holds the same entries at the same addresses |
| `Arena.Bridge` | bigcache/queue/bytes_queue.go:115-120 | filling the gap of a wrapped queue adds one entry of zeros and leaves one run of bytes in use |
| `Arena.DeleteEntry` | bigcache/queue/bytes_queue.go:226-235 | turning an entry into free bytes, with the merges of the free list, keeps the tiling |
| `Arena.DeletedViews` | bigcache/queue/bytes_queue.go:226-235 | deleting removes one entry, releases its bytes, and loses exactly the left neighbour that the free list forgets |
| `Arena.PopFront` | bigcache/queue/bytes_queue.go:146-164 | taking the entry at the head keeps the tiling, in the branches with and without wrap |
| `Arena.RingAppend` | bigcache/queue/bytes_queue.go:128-139 | read from head to tail, a push appends |
| `Arena.RingPop` | bigcache/queue/bytes_queue.go:146-164 | read from head to tail, a pop takes the front |
| `Arena.RingBridge` | bigcache/queue/bytes_queue.go:115-120 | growing a wrapped queue turns older ++ newer into newer ++ [zeros] ++ older |
| `Arena.Conservation` | bigcache/queue/bytes_queue.go:68-97 | live, free and lost bytes add up to exactly the bytes in use, wrapped or not |
| `Queues.BytesQueue.constructor` | bigcache/queue/bytes_queue.go:42-55 | an empty queue of the given capacities, with nothing free |
| `Queues.BytesQueue.Push` | bigcache/queue/bytes_queue.go:68-97 | refused exactly when no free block fits, there is no room at the tail nor before the head, and growing would reach the maximum; then nothing changes. Otherwise exactly one entry is added at an address no entry has, all others read the same, and the address, head, tail and free ranges are those of the branch taken. The capacity changes exactly when the push must grow, to twice the old one, or twice the sum when the new bytes exceed it, up to the maximum |
| `Queues.PushBranches` | bigcache/queue/bytes_queue.go:83-92 | when a push grows and when it is refused, in bytes: the header of 4, the left margin of 1 and the 36 bytes to spare |
| `Queues.PushAddress` | bigcache/queue/bytes_queue.go:83-97 | where a push that finds no free block writes, and where head and tail are afterwards, in bytes |
| `Queues.BytesQueue.PushIntoFree` | bigcache/queue/bytes_queue.go:71-81 | an entry written into a free block is added there, and head and tail are kept |
| `Queues.BytesQueue.AllocateAdditionalMemory` | bigcache/queue/bytes_queue.go:99-126 | the pending entry fits after the tail; the capacity is twice the old one, or twice the sum when the pending bytes exceed it, up to the maximum; every address keeps its bytes, and a wrapped queue is bridged by zeros |
| `Queues.BytesQueue.MakeRoom` | bigcache/queue/bytes_queue.go:83-92 | refuses exactly when it must grow and may not; otherwise there is room at the tail, and the capacity changes exactly when it must grow |
| `Queues.BytesQueue.MoveArena` | bigcache/queue/bytes_queue.go:99-113 | a fresh, larger array with the same state |
| `Queues.BytesQueue.FillGap` | bigcache/queue/bytes_queue.go:115-120 | the gap becomes an entry of zeros and is counted |
| `Queues.BytesQueue.PushAtTail` | bigcache/queue/bytes_queue.go:128-139 | the whole new state after an entry is copied to the tail, which stays sound |
| `Queues.BytesQueue.Pop` | bigcache/queue/bytes_queue.go:146-164 | succeeds exactly on a non-empty queue whose front does not end the arena as an empty entry; returns the entry at the head, and without deletions that is the front of the sequence; the head moves on by the block, and at the right margin back to 1, with tail and right margin moved together |
| `Queues.BytesQueue.PeekEntry` | bigcache/queue/bytes_queue.go:193-209 | the guards reject no live index (but an empty entry at the very end of the arena), and the window is exactly the entry |
| `Queues.BytesQueue.Get` | bigcache/queue/bytes_queue.go:173-176 | an index of a live entry reads back exactly the bytes of that entry; refused exactly on an empty queue or an index at or below 0 or within 4 bytes of the end |
| `Queues.BytesQueue.Delete` | bigcache/queue/bytes_queue.go:226-235 | exactly that entry goes, exactly its header and data are given back to the free list, head, tail and every byte of the arena are kept; an index that is refused changes nothing |
| `Queues.BytesQueue.WriteWithin` | bigcache/encoding.go:68-70 | writing through a window of an entry changes only the bytes of that entry |
| `Queues.BytesQueue.Reset` | bigcache/queue/bytes_queue.go:58-64 | the queue is sound again if and only if the free list was empty, since it is not cleared |
| `QueueRuns.Run` | bigcache/queue/bytes_queue.go:68-164 | every run of pushes and pops, with any capacities, is a run of a sequence: a push appends or is refused exactly when the queue says so, a pop takes the front; growing a wrapped queue turns it round where it wraps, with entries on both sides; a wrapped queue keeps a gap of 36 bytes |
| `QueueRuns.NothingLost` | bigcache/queue/bytes_queue.go:68-164 | over every run, the accepted entries and the fillers are exactly the returned and the queued ones, each as often, whatever growth did to the order |
| `QueueRuns.OneFillerPerTurn` | bigcache/queue/bytes_queue.go:115-120 | each growth while wrapped adds exactly one entry that nobody pushed; accepted entries equal returned followed by queued ones if and only if there was none |
| `QueueRuns.FirstInFirstOut` | bigcache/queue/bytes_queue.go:68-164 | for distinct data that does not look like a filler, the order of the entries, fillers aside, is kept if and only if the queue never grew while wrapped |
| `QueueRuns.RotatedTurnsRound` | bigcache/queue/bytes_queue.go:115-120 | a wrapped queue is turned round at the place where it wraps, with at least one entry on each side and at least 32 zeros between |
| `QueueRuns.CapacityBounded` | bigcache/queue/bytes_queue.go:99-126 | over every run the capacity never exceeds the larger of the initial and the positive maximum capacity |
| `QueueRuns.TurnRound` | bigcache/queue/bytes_queue.go:68-164 | a schedule of seven operations turns a queue of 100 bytes round: the entry pushed fourth comes before the one pushed third |
| `StoreRuns.Run` | bigcache/queue/bytes_queue.go:68-235 | every run of pushes, deletions and reads, with any capacities and data, answers as its history says despite reuse, splitting and moving: a push is refused exactly when the queue says so, and an entry that is held is read and deleted unless it is empty at the very end of the arena; at the end the live entries are exactly those left by the history |
| `StoreRuns.Accounted` | bigcache/queue/bytes_queue.go:68-235 | in every state of every such run, live + free + lost bytes are tail − 1 |
| `StoreRuns.ReadBack` | bigcache/queue/bytes_queue.go:173-209 | over every run, data that is not empty is found by every read from its push up to its deletion |
| `StoreRuns.GoneForGood` | bigcache/queue/bytes_queue.go:226-235 | over every run, after its deletion nothing reads or deletes an entry again |
| `StoreRuns.CapacityBounded` | bigcache/queue/bytes_queue.go:99-126 | over every such run the capacity never exceeds the larger of the initial and the positive maximum capacity |
| `Encoding.WrapEntry` | bigcache/encoding.go:16-32 | the buffer holds the wrapped entry whatever it held before, and is replaced exactly when it is too small |
| `Encoding.WrapLayout` | bigcache/encoding.go:16-32 | timestamp at bytes 0 to 7, hash at 8 to 15, key length at 16 and 17, then the key and the value |
| `Bytes.PutDigit` | bigcache/encoding.go:16-32 | numbers are written with the least significant byte first |
| `Encoding.WrapFields` | bigcache/encoding.go:44-70 | timestamp, hash and key length (modulo 2^16) are read back, and the rest is the key followed by the value |
| `Encoding.RoundTrip` | bigcache/encoding.go:34-56 | key and value are each read back if and only if the key has at most 65517 bytes |
| `Encoding.Reading` | bigcache/encoding.go:34-56 | what is read back for keys of any length: the key cut to its length modulo 2^16, the rest of it as part of the value, and an out-of-range slice exactly when the cut length is over 65517 |
| `Ttl.WaitExact` | bigcache/ttl.go:117-145 | the wrapped 64-bit computation of the wait is exact if and only if the difference is at most 9223372036 seconds either way |
| `Ttl.ArmedInSecond` | bigcache/ttl.go:135-145 | a timer armed for any timestamp within 9223372036 seconds of the clock goes off within that second, at once when it is past |
| `Ttl.TtlManager.constructor` | bigcache/ttl.go:19-31 | an empty table with its timer armed ten hours ahead |
| `Ttl.TtlManager.ResetTimer` | bigcache/ttl.go:135-145 | the timer is armed anew and a pending tick is dropped |
| `Ttl.TtlManager.Put` | bigcache/ttl.go:35-60 | the new table, with the timer armed exactly when the timestamp becomes the first |
| `Ttl.TtlManager.Remove` | bigcache/ttl.go:63-83 | the new table, with the timer moved exactly when the first timestamp goes and another is left |
| `Ttl.TtlManager.Reset` | bigcache/ttl.go:86-91 | an empty table and a stopped timer |
| `Ttl.PutReady` | bigcache/ttl.go:35-60 | a put, of any expiry that the timer can be armed for, keeps the timer set for the first timestamp |
| `Ttl.PutTimer` | bigcache/ttl.go:35-60 | the timer moves, to exactly the second of the new timestamp, if and only if that comes first |
| `Ttl.RemoveReady` | bigcache/ttl.go:63-83 | a removal keeps the timer set for the first timestamp |
| `Ttl.RemoveTimer` | bigcache/ttl.go:63-83 | a timestamp goes exactly with its last key; the timer moves, to exactly the second of the next timestamp, if and only if the first one goes and another is left |
| `Shards.Shard.constructor` | bigcache/shard.go:286-305 | an empty shard that satisfies the invariant |
| `Shards.Shard.Get` | bigcache/shard.go:34-61 | the value stored under the hash exactly when it was stored for that key; a collision is not found; keys over 65517 bytes behave as their cut lengths make them |
| `Shards.ReplyFound` | bigcache/shard.go:50-60 | for keys up to 65517 bytes the value is returned exactly when it is stored for that key |
| `Shards.Shard.Lookup` | bigcache/shard.go:187-189 | the guards of the queue never reject an indexed address, and the window holds exactly the wrapped entry |
| `Shards.Shard.Set` | bigcache/shard.go:63-95 | the map gains or replaces exactly that hash; the expiry table loses exactly the record of the replaced entry under the key of the set and gains exactly the new one, if there is an expiry; the push is refused exactly when the queue, after the old entry is deleted, refuses it, which happens only near the limit, and then zero is returned with the lock held, the old record gone and the index still naming the deleted entry |
| `Shards.SetRecords` | bigcache/shard.go:63-95 | the records after a set, one by one |
| `Shards.Shard.DropPrevious` | bigcache/shard.go:73-80 | the old entry leaves the queue and its record the expiry table, and no other record does; the index keeps naming it |
| `Shards.Shard.StoreNew` | bigcache/shard.go:82-87 | the wrapped entry is pushed and indexed, and the index is a bijection again |
| `Shards.Shard.EvictKey` | bigcache/shard.go:101-127 | exactly the entry that the hash of a key names goes, and only if it expires at the given timestamp |
| `Shards.Shard.EvictDel` | bigcache/shard.go:97-130 | over the whole set of keys, exactly the entries with that timestamp whose hash is the hash of one of the keys go |
| `Shards.Shard.Del` | bigcache/shard.go:132-160 | exactly that hash goes, whichever key it was stored for, and its record under the given key |
| `Shards.Shard.Discard` | bigcache/shard.go:151-152 | clearing the stored hash and deleting the block keeps the rest of the queue and the stored timestamp |
| `Shards.Shard.CopyKeys` | bigcache/shard.go:191-203 | every live address once, as many as there are entries |
| `Shards.Shard.Len` | bigcache/shard.go:225-230 | the size of the index, which is the number of entries and the count of the queue |
| `Shards.Shard.Reset` | bigcache/shard.go:216-223 | the shard is valid again if and only if the free list was empty |
| `Shards.Unlink` | bigcache/shard.go:149-152 | removing a hash and its block keeps the index a bijection onto the blocks, each block storing the hash that names it |
| `Shards.Relink` | bigcache/shard.go:82-87 | adding a hash and its block keeps the index a bijection, for addresses below 2^32 |
| `Shards.Injective` | bigcache/shard.go:73-87 | different hashes name different blocks, and every block is named |
| `Shards.AnswerByReading` | bigcache/shard.go:50-60 | decoding the stored bytes gives the answer of the abstract map, for keys of any length |
| `Shards.Shard.Drain` | bigcache/ttl.go:110-131 | the inner loop evicts exactly timestamps equal to the current second, then arms the timer for the first one left |
| `Shards.Shard.Fire` | bigcache/ttl.go:96-131 | one tick evicts the first timestamp, due or not, and besides it none but the current second, and leaves the timer armed for the next |
| `Shards.Shard.Eviction` | bigcache/ttl.go:94-132 | with the clock held, after no more ticks than there were due timestamps nothing before the current second is left, and nothing of it once the timer went off |
| `Shards.Shard.Apply` | bigcache/shard.go:63-160 | a set, a deletion or the ticks that are due change exactly the entry of the hash, or the expired ones, and keep every expiring entry recorded and the timer set |
| `Shards.SetCurrent` | bigcache/shard.go:63-95 | a set keeps every expiring entry recorded and the timer set |
| `Shards.DelCurrent` | bigcache/shard.go:132-160 | a deletion keeps every other expiring entry recorded and the timer set |
| `ShardRuns.Run` | bigcache/shard.go:34-160 | every run of set, get, del and evictDel, with or without a limit, answers exactly as the history says, until a set is refused, which takes more bytes than the limit allows, or the end of the arena could pass 2^32 |
| `ShardRuns.GetFinds` | bigcache/shard.go:34-160 | over every history of sets of keys up to 65517 bytes, a get finds a value exactly when an operation set it for that key under that hash and no later one replaced, deleted or evicted it |
| `Interleaving.AlwaysCovered` | bigcache/shard.go:63-160 | over every interleaving of the critical sections of set, del and eviction, whatever timestamp a del reads after it has given the lock back, in which no set stores an expiring entry of a key that a del has still to remove, every expiring entry is in the tree, in a pending put, being evicted or being replaced, and a waiting goroutine has its timer set |
| `Interleaving.AtomicNotOvertaken` | bigcache/shard.go:132-160 | with atomic dels no set does that, so the coverage holds over every interleaving |
| `Interleaving.OvertakenCanLose` | bigcache/shard.go:82-92 | conversely, a set that does that, unless the goroutine is just evicting its key and second, can go on to lose its record: its entry takes the block that the del has freed, and the del reads the expiry there |
| `Interleaving.ExactlyFree` | bigcache/shard.go:63-160 | a set keeps every entry seen to, whatever happens until another set stores one, if and only if no del of its key is to come, or what it stores does not expire or is just being evicted |
| `Interleaving.KeepsCoverage` | bigcache/shard.go:63-160 | each critical section keeps that coverage, hash collisions included |
| `Interleaving.StepRecords` | bigcache/shard.go:63-160 | what each critical section does to the records of the expiry tree, one by one |
| `Interleaving.SetAlone` | bigcache/shard.go:63-95 | a set with nothing in between does what the set of a shard does |
| `Interleaving.RemoveCoverage` | bigcache/shard.go:153-156 | the second half of a del, with the timestamp that it reads, keeps the coverage if and only if the key is not stored with that expiry by then, or that entry is seen to by a pending put, an eviction or a replacement in progress |
| `Interleaving.LostRecord` | bigcache/shard.go:153-156 | a run in which a del overtaken by a set of the same key and second leaves an entry that never expires |
| `Interleaving.LostNewRecord` | bigcache/shard.go:153-156 | a run in which a del of an entry of second 5, overtaken by a set for second 7 that takes the freed block, removes the record of second 7 |
| `Interleaving.KeepsTimer` | bigcache/ttl.go:35-145 | each critical section keeps the timer of a waiting goroutine set for the first timestamp |
| `Interleaving.NothingForgotten` | bigcache/ttl.go:94-132 | at rest, an entry whose second is over means that a tick is pending |
| `Interleaving.ExpiredCanGo` | bigcache/ttl.go:94-145 | a recorded entry whose second is over can be evicted without more time passing, when no call is under way and the goroutine waits: a timer armed for a past timestamp goes off at once |
| `Interleaving.NeverEarly` | bigcache/ttl.go:94-132 | over every run in which the clock has reached the first timestamp whenever the goroutine takes it on a tick, no entry is evicted before its expiry |
| `Interleaving.PromptPunctual` | bigcache/ttl.go:94-108 | a goroutine that takes the tree lock right after its tick is such a run |
| `Interleaving.EarlyUnlessPunctual` | bigcache/ttl.go:104-108 | conversely, of what the goroutine takes before its time and evicts before that time comes, exactly the entries of that timestamp that its keys name go early |
| `Interleaving.EarlyEviction` | bigcache/ttl.go:104-108 | a run in which an entry is evicted 1000 seconds early, because the head is taken without looking at the time |
| `Bits.PowerOfTwoTest` | bigcache/utils.go:14-16 | the test accepts exactly zero and the powers of two |
| `Bits.BitwiseOperations` | bigcache/utils.go:14-16 | both operations work bit by bit |
| `Fnv.Sum64` | bigcache/fnv.go:20-28 | the loop is the fold of the rounds from the offset basis |
| `Fnv.KnownHashes` | bigcache/fnv.go:20-28 | the published 64-bit FNV-1a hashes of the empty key and of the key a |
| `Fnv.RoundInverts` | bigcache/fnv.go:20-28 | each round is a bijection of the 64-bit states, with its inverse given |
| `Fnv.CommonSuffix` | bigcache/fnv.go:20-28 | a common suffix preserves both equality and inequality of hashes |
| `Fnv.OneByteApart` | bigcache/fnv.go:20-28 | keys of the same length that differ in one byte never collide |
| `BigCaches.MaskIsRemainder` | bigcache/bigcache.go:131-133 | for a power of two, the shard index is the hash modulo the number of shards |
| `BigCaches.BigCache.New` | bigcache/bigcache.go:30-62 | fails exactly for numbers that are neither zero nor a power of two, and crashes exactly for zero with a size limit; otherwise every shard is empty and separate from the others, and the limits of the shards use up the limit of the cache but for less than a byte each |
| `BigCaches.ShardLimits` | bigcache/config.go:59-67 | n times the limit of a shard is at most the limit of the cache in bytes, and n times one byte more is not |
| `BigCaches.BigCache.Get` | bigcache/bigcache.go:65-69 | the answer of the one map that the shards make up |
| `BigCaches.BigCache.Set` | bigcache/bigcache.go:72-76 | exactly the hash of the key changes in that map, in all shards together; a refusal happens only near the limit of the shard and leaves it locked |
| `BigCaches.BigCache.Apply` | bigcache/bigcache.go:72-83 | a change to one shard leaves the others, their entries and their invariants alone |
| `BigCaches.BigCache.Delete` | bigcache/bigcache.go:79-83 | exactly the hash of the key goes, and success is told exactly when it was there |
| `BigCaches.BigCache.Len` | bigcache/bigcache.go:94-100 | the number of hashes that the cache holds, so no hash is in two shards |
| `BigCaches.BigCache.Tick` | bigcache/ttl.go:94-132 | when every shard has taken its ticks, exactly expired entries are gone and none from before the second is left |
| `CacheRuns.Run` | bigcache/bigcache.go:65-83 | every run of set, get, delete, the clock and the ticks of single shards, taken at any time or not at all, with or without a size limit, answers as its history allows: an entry is found until its shard takes ticks in its second and not after ticks go past it; the run ends early only at a refused set or when an arena could pass 2^32 |
| `CacheRuns.FoundUntilTicks` | bigcache/bigcache.go:65-83 | over every history, what was last set for a key of up to 65517 bytes is found as long as its shard has not taken ticks in the second of its expiry or later |
| `CacheRuns.GoneAfterTicks` | bigcache/bigcache.go:65-83 | once its shard has taken ticks after that second, it is not found |
| `CacheRuns.NotFoundOtherwise` | bigcache/bigcache.go:65-83 | nothing is found for a key under whose hash nothing is set, or another key of up to 65517 bytes is |
| `Iterators.EntryInfoIterator.constructor` | bigcache/iterator.go:87-97 | nothing has been visited |
| `Iterators.EntryInfoIterator.SetNext` | bigcache/iterator.go:59-85 | true exactly when it moved to a block not visited before; false only when all blocks are visited, and after a false always false |
| `Iterators.EntryInfoIterator.Value` | bigcache/iterator.go:100-122 | what is read from the entry stored under the hash that names the current block, for keys of any length |
| `Iterators.DescribesShort` | bigcache/iterator.go:100-122 | for keys up to 65517 bytes that is its timestamp, hash, key and value |
| `Iterators.SameHash` | bigcache/iterator.go:59-85 | different blocks, in any shards, are named by different hashes |
| `Iterators.Collect` | bigcache/iterator.go:59-122 | a whole iteration yields, for every live block exactly once, what is read from the entry under the hash that names it |
| `Iterators.Visit` | bigcache/iterator.go:59-97 | stepping through a whole cache visits every live block of every shard exactly once, as many as Len counts, whatever the keys |
| `Messages.SerializePut` | message/putMessage.go:16-27 | code 14; expiry at bytes 0 to 7, key length at 8 and 9, then key and data |
| `Messages.PutRoundTrip` | message/putMessage.go:16-36 | a PUT message is read back if and only if its key has at most 65525 bytes |
| `Messages.SerializeGetRsp` | message/getRspMessage.go:15-25 | code 16; key length at bytes 0 and 1, then pending key and data |
| `Messages.GetRspRoundTrip` | message/getRspMessage.go:15-33 | a GET response is read back if and only if its pending key has at most 65533 bytes |
| `Messages.GetRspReading` | message/getRspMessage.go:15-33 | what is read for a pending key of any length: cut to its length modulo 2^16, with the rest taken for data |
| `Framing.BuildFrame` | cluster/remoteNode.go:363-380 | the length, with the two bytes of the code counted in, at bytes 0 to 3, the code at 4 and 5, then the body |
| `Framing.Send` | cluster/remoteNode.go:363-380 | the stream is the concatenation of the frames |
| `Framing.Consume` | cluster/remoteNode.go:318-342 | the loop reads exactly the messages at the front of the stream |
| `Framing.StreamRoundTrip` | cluster/remoteNode.go:318-380 | reading the frames of any messages gives the same messages in order, with nothing left over |
| `Framing.FrameRoundTrip` | cluster/remoteNode.go:318-380 | a frame is read back if and only if its body is shorter than 2^32 bytes |
| `Framing.CutStream` | cluster/remoteNode.go:318-342 | a stream cut anywhere yields exactly the messages whose frames are whole |
| `ClusterGet.KeepsInv` | cluster/remoteNode.go:577-614 | every action keeps pending keys, requests and responses on their way consistent |
| `ClusterGet.DeliveredForKey` | cluster/clusteredBigCache.go:386-424 | over every run of Gets for keys of at most 65535 bytes, with concurrent Gets, repeated suffixes and late replies, whatever a Get returns was held by a peer for that very key |
| `ClusterGet.Delivery` | cluster/remoteNode.go:577-614 | a waiting Get that was asked of a peer that holds a non-empty value for its key is given exactly that value, if it is ready when the answer comes |
| `ClusterGet.CanBeFound` | cluster/clusteredBigCache.go:386-424 | every Get of a key of at most 65525 bytes that asks the peers can be given the non-empty value that a peer holds for its key |
| `ClusterGet.ExactKeyBound` | cluster/clusteredBigCache.go:386-424 | that holds over every run of Gets for keys of at most n bytes if and only if n is at most 65535 |
| `ClusterGet.OneOutcome` | cluster/remoteNode.go:594-614 | a Get keeps its first reply or timeout |
| `ClusterGet.Misdelivery` | cluster/remoteNode.go:594-614 | a run with a key of 65536 bytes in which a Get of the empty key is given data that no peer ever held |
| `Departures.Reuse` | bigcache/queue/bytes_queue.go:68-81 | a block that is freed is taken by the next entry of the same size, if and only if it does not have 4096 bytes |
| `Departures.EmptyAtEnd` | bigcache/queue/bytes_queue.go:193-209 | an empty entry in an arena of 5 bytes is accepted, but neither read nor deleted |
| `Departures.ResetQueue` | bigcache/queue/bytes_queue.go:58-64 | a queue is not sound after a push, a deletion and a reset |
| `Departures.ResetShard` | bigcache/shard.go:216-223 | a shard is not valid after a set, a deletion and a reset |
| `Departures.RefuseSet` | bigcache/shard.go:82-95 | a shard limited to 10 bytes refuses its first set, returns zero and stays locked |

## Left out

- Shards.Shard.Set: requires a free block for the entry or the end of the arena to stay below 2^32 bytes, because the index keeps addresses in 32 bits; what a larger arena does is not modelled.
- Queues.BytesQueue.Push: requires data, and the gap of a wrapped queue, below 2^32 bytes, because their length is stored in 32 bits.
- Queues.BytesQueue.Pop: requires the block at the head to be an entry, so runs that mix Pop with Delete are not modelled; the shard never pops.
- Queues.BytesQueue.Delete: requires an index of an entry or one that the guards refuse; an index into the middle of other data is not modelled.
- ShardRuns.Run: stops at a refused set, after which every call on the shard waits for its lock, and at a set that could take the end of the arena past 2^32.
- CacheRuns.Run: takes clock readings up to 9223372036 seconds and expiries up to as many seconds later, the range in which `WaitExact` holds; beyond it the timer arithmetic wraps.
- Interleaving.AlwaysCovered: is about sets that are not refused; `ExactlyFree`, `LostRecord` and `LostNewRecord` treat the interleavings that it leaves out.
- Iterators.Collect: is about a cache that does not change meanwhile.
- ClusterGet.DeliveredForKey: takes the request, which travels as JSON, as an identity, which it is for keys of valid UTF-8; another byte becomes three, so that a shorter key can pass the bound. A response that cannot be read crashes the receiver, and the run has no such step.
- BigCaches.BigCache.New: takes a natural number of shards; Go panics on negative ones.
- The slice that a get or the iterator decodes after giving the lock back is taken at the time of the call; data races on it are not modelled. That of a del is, in `Interleaving.dfy`.
- The scratch header buffer of the queue, the on-remove callback, statistics, logging and the unsafe conversion of bytes to strings.
- Conversion of durations to whole seconds, for which the expiry second is a parameter, and the recomputation of expiries on replicas.
- `avltree`, `hashset`, `sync.Map`, `time.Timer` and the random suffixes, which are ordered maps, sets, maps, deadlines and arbitrary letters here.
- TCP connections, dialling, pings, the handshake and the registry of peers: input and output, and scheduling.
- What a cluster Get does before it asks the peers (the own cache, no peers, passive peers); it may time out at any time.
- Replication of puts and deletes to other nodes, which go through several workers in no fixed order.
- The messages encoded as JSON.
- `onEvict`, `removeOldestEntry` and other code that is never called.
