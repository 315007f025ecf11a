# Verification of the operating-systems course projects

This project models the stateful cores of the repository in Dafny and proves what each of them is
for. Each core keeps the form it has in C: a pool of header words, a disk image behind handlers,
slots and counters behind a mutex, linked nodes behind a spin lock, a buffer in front of `read()`.
The methods are proved against functions on values; the theorems are then about those functions and
about every run of them. `dafny verify dfyconfig.toml` covers all files.

| files | part of the repository |
|---|---|
| `HeapLayout.dfy`, `Heap.dfy` | the first-fit allocator, `proj3/mem.c` |
| `FsImage.dfy`, `FsConsistency.dfy`, `FsHandlers.dfy`, `FsProperties.dfy`, `FsServer.dfy`, `FsWrites.dfy`, `FsRetry.dfy`, `FsExamples.dfy` | the file-system server, `proj6/server.c` |
| `RequestBuffer.dfy`, `Scheduler.dfy`, `ShortestFirst.dfy` | the web server's buffer and its schedulers, `proj5/server.c` |
| `HashMachine.dfy`, `HashProof.dfy`, `HashProgress.dfy`, `HashTable.dfy` | the concurrent list and hash table, `proj4` |
| `Rio.dfy` | the buffered reader, `proj5/cs537.c` |
| `Keyword.dfy` | the keyword count, `proj1/search.c` |
| `Basics.dfy` | arithmetic and set sizes used by several of these |

**The allocator.** The pool is one array addressed by bytes; a header field lives in the cell of its
first byte. The header is 12 bytes (packed, 8-byte pointers), address 0 is the start of the pool,
`NULL` is -2 and the taken mark is -1. A ghost sequence of chunks says what the headers mean, and
`HeadersDetermineLayout` shows that it adds nothing to them. The invariant the code never states is
`HeapLayout.WellFormed` with `Heap.Encodes`: the chunks tile the pool, no two neighbours are free,
the last chunk is free, and each `next` word is the address of the next free chunk, `NULL` for the
last one only, or the taken mark. The main result is that the set of live blocks determines the
whole layout, so freeing in any order leads back to the initial pool.

**The file server.** The image is four structured regions: two bitmaps, the inode table and the data
blocks, a block being its sixteen entries. Memory the handlers use without having set it (stack
buffers, the pointers of a new inode, what `init_obj` returns for a regular file) is an argument,
`Junk`, arbitrary each time a request is carried out. The theorems on runs are about this domain,
which the code does not enforce by itself: inode numbers below 512, because `init_obj` and
`bitmap_check` compare with the number of bytes in a bitmap; room in the bitmaps and in the
directory; parents that are allocated directories; names other than "." and ".."; writes to an
allocated file at a block not beyond its end. Where the code departs from what it is meant to do,
the model follows the code:

- `handle_write` goes on after its test of type and length has failed, and it never asks whether the
  inode is allocated. `WriteSoundIff` gives, for every write that lands in the data region, the exact
  condition under which the image survives, and `WriteHitsOwner` says whose block it overwrites.
  `RootOverwritten`, `BlockLeaked` and `RootWipedOut` are runs from a new image in which it does not.
- `handle_creat` looks for an existing name in data block number `pinum`, which is the parent's own
  block for the root only. `CreatAgain` gives the exact condition under which repeating a creat
  changes nothing, and `CreatAgainAtRoot` restates it for the root; `CreatDuplicates` says what
  happens otherwise, and `TwoOfAName` is a run from a new image in which it happens.
- `handle_creat` replies -1 for a regular file it has created when the local that `init_obj` leaves
  unset is negative.
- `handle_unlink` sees the first block of its parent only and answers -1 for `pinum >= 10`.
- `size` grows at each write, also when a block is overwritten, so for files no claim is made of it.

**The web server.** Each critical section, wait and wake-up is one step of a state machine with one
producer and any number of workers; condition variables may wake spuriously, and a signal may wake
any waiter. The producer's scan compares with `old_i`, a local read before it is set; its value is
the argument `stale` of the step, arbitrary each time. In FIFO mode it does not matter (`FifoScans`).
In the SFF modes the scan can stop on an occupied slot: `ScanGoodIff` says exactly when it does not.
A run loses no request if and only if all its inserts go into slots that are free at that moment
(`RunConservedIff`), for which it is enough that its scans end on free slots (`ScansSuffice`); the
theorems on SFF and SFF-BS are about these runs. `RequestLost` is, in both modes, a run that loses a
request and leaves a worker without a slot to serve from. In the buffer a request's `id` is history.

**The hash table.** `HashMachine` steps one statement or loop iteration at a time, the lock being an exchange
on a flag; `HashProof` shows every run linearizable to a map from keys to stacks of elements, the operations
being those the schedule asked for; `HashProgress` shows that it does not deadlock. `HashTable`
is the same code as one thread sees it, relinking nodes in place, and relates the table to a single
list. `LogLikeList` connects the two.

**The buffered reader.** `Source.Read` is a `read()` that delivers any number of bytes up to the
number asked for and may be interrupted. Whatever it does, a mixture of `rio_readnb` and
`rio_readlineb` calls delivers the pieces that `Rio.Pieces` computes from the byte stream alone.
`rio_readlineb` returns one more than the number of bytes delivered when no newline stops it after
it has delivered some; `Readlineb` states this.

## Model

| member | source | states |
|---|---|---|
| HeapLayout.LiveSetDeterminesLayout | proj3/mem.c:258-291 | coalescing is complete: two well-formed layouts of one pool with the same live blocks are equal, chunk by chunk |
| HeapLayout.FreeUndoesAlloc | proj3/mem.c:147-291 | freeing a block right after its allocation gives back exactly the earlier layout |
| HeapLayout.FreeingEverythingRestores | proj3/mem.c:61-291 | after any run, freeing pointers that include all live blocks, in any order and with repetitions, leaves one free chunk of the initial size |
| HeapLayout.HistoryForgotten | proj3/mem.c:147-291 | two runs that leave the same blocks live leave the same chunks and free list |
| HeapLayout.RunKeepsWellFormed | proj3/mem.c:93-335 | every run of allocations and frees keeps the pool tiled, coalesced, with multiples of four as sizes and a free last chunk |
| HeapLayout.AllocKeepsWellFormed | proj3/mem.c:145-164 | one allocation keeps that invariant |
| HeapLayout.ReleaseKeepsWellFormed | proj3/mem.c:230-291 | relinking and the two merges restore it |
| HeapLayout.AllocAddsBlock | proj3/mem.c:145-154 | an allocation adds one new block to the live ones and touches no other |
| HeapLayout.FreeEffect | proj3/mem.c:211-291 | a free keeps the invariant and removes from the live blocks exactly the one at that pointer |
| HeapLayout.LiveBlocksApart | proj3/mem.c:115-164 | live blocks lie inside the pool, start at multiples of four, and do not overlap |
| HeapLayout.FirstFit | proj3/mem.c:122-135 | the lowest free chunk with room for the request and a header, or none if no chunk has it |
| Heap.HeadersDetermineLayout | proj3/mem.c:16-20 | the header words alone determine the chunks |
| Heap.ClientWritesAreHarmless | proj3/mem.c:147-147 | nothing a client stores inside its own blocks disturbs the headers |
| Heap.SplitEncodes | proj3/mem.c:149-164 | the header writes of a split, with one relinked predecessor or list head, encode the split layout |
| Heap.LinkEncodes | proj3/mem.c:237-255 | the writes that put a header back encode the layout with that chunk free |
| Heap.MergeEncodes | proj3/mem.c:278-279 | the writes of a merge encode the layout with the two chunks made one |
| Heap.HeadSide | proj3/mem.c:237-250 | the header lies below the list head exactly when no free chunk lies below it, so `lastFreeNode` is not null where it is dereferenced |
| Heap.NotLast | proj3/mem.c:258-271 | no chunk the walk passes before its target has a null `next`, so the walk cannot end early |
| Heap.RightTest | proj3/mem.c:276-276 | the test for merging to the right holds exactly when the right neighbour is free |
| Heap.LeftTest | proj3/mem.c:283-285 | the test for merging to the left holds exactly when the left neighbour is free, and `lastFreeNode` is then that neighbour |
| Heap.Allocator.MemInit | proj3/mem.c:30-91 | one free chunk of the size rounded up to pages, or E_BAD_ARGS with nothing changed |
| Heap.Allocator.FindFit | proj3/mem.c:120-143 | the walk along the free list ends, at the first fit, with the nearest free chunk below it as predecessor |
| Heap.Allocator.WriteSplit | proj3/mem.c:149-159 | the exact new contents of the pool |
| Heap.Allocator.Carve | proj3/mem.c:146-164 | the chunk is split, the pool encodes the result, and no word of a live block changes |
| Heap.Allocator.MemAlloc | proj3/mem.c:93-209 | fails with E_NO_SPACE exactly when no free chunk fits, else returns the payload of the lowest that does; on failure nothing changes; payloads of live blocks are kept |
| Heap.Allocator.FindPlace | proj3/mem.c:230-272 | the stride walk ends, at the header to free, with `lastFreeNode` the nearest free chunk below it or null |
| Heap.Allocator.LinkIn | proj3/mem.c:235-255 | the chunk is free again and linked where address order wants it |
| Heap.Allocator.Absorb | proj3/mem.c:276-291 | one merge, kept in step with the encoding |
| Heap.Allocator.Release | proj3/mem.c:230-291 | walk, relinking and merges together give the layout of a release, payloads of live blocks kept |
| Heap.Allocator.MemFree | proj3/mem.c:211-335 | frees the block at the pointer; null is accepted; a pointer to no live block gives -1 and E_BAD_POINTER with nothing changed; a header just freed does not read as taken, so freeing it again is such a case until something is stored there |
| FsConsistency.GrowKeeps | proj6/server.c:129-153 | a directory that gets one more block stays consistent, the new block owned by it alone |
| FsConsistency.AddKeeps | proj6/server.c:155-172 | a new inode entered in an unused slot keeps the image consistent |
| FsConsistency.MakeDirKeeps | proj6/server.c:175-203 | a new directory with its dot entries and first block keeps the image consistent |
| FsConsistency.RemoveKeeps | proj6/server.c:558-608 | removing a file or an empty directory with its entry and blocks keeps the image consistent |
| FsConsistency.WriteKeeps | proj6/server.c:381-398 | writing an existing or the next block keeps the image consistent |
| FsConsistency.EmptyDirectory | proj6/server.c:554-555 | a directory with the size of two entries has no entry besides its dots |
| FsHandlers.AfterKeepsSound | proj6/server.c:359-610 | every creat, write and unlink of the domain keeps the image consistent |
| FsHandlers.RunStaysSound | proj6/server.c:359-610 | so does every run of them |
| FsProperties.NamedExactlyOnce | proj6/server.c:96-173 | every allocated inode but the root is named by exactly one entry other than the dots |
| FsProperties.EntriesNameAllocated | proj6/server.c:558-608 | no entry dangles and none but a dot entry names the root |
| FsProperties.NoCycle | proj6/server.c:96-203 | no directory lies below itself |
| FsProperties.ReachedFromRoot | proj6/server.c:96-203 | every allocated inode is reached from the root through directory entries |
| FsProperties.SizeTellsEmpty | proj6/server.c:552-555 | unlink's emptiness test is exact: size of two entries if and only if the directory contains nothing |
| FsProperties.BitMeansOwned | proj6/server.c:32-60 | a data bit is set if and only if some allocated inode has that block: none leaks, none is freed while owned |
| FsProperties.BlocksNotShared | proj6/server.c:32-60 | two blocks of allocated inodes are never the same data block |
| FsProperties.CreatNames | proj6/server.c:467-510 | creat names the lowest free inode in one slot that was unused, gives a directory its dots, and changes no other slot |
| FsProperties.KindsFollow | proj6/server.c:359-610 | creat allocates the lowest free inode with the kind asked for, unlink frees the one it removes, and every other inode keeps its kind |
| FsProperties.NothingDone | proj6/server.c:359-610 | a creat of a name that is found, a write out of range and an unlink that finds nothing or is refused leave the image as it is |
| FsProperties.CreatReplyIff | proj6/server.c:481-509 | the reply is 0 if and only if data block `pinum` has a live entry of that name, or the kind is directory, or the unset local is not negative |
| FsProperties.UnlinkReplyIff | proj6/server.c:535-610 | in a directory numbered below 10 the reply is -1 if and only if the first live entry of that name in the first block names an inode that is neither a regular file nor a directory with nothing in it |
| FsProperties.UnlinkReplyDone | proj6/server.c:552-610 | after a reply of 0 the first entry of that name is clear, if there was one; after -1 nothing has changed |
| FsProperties.RemovableIff | proj6/server.c:535-555 | unlink goes through if and only if the first live entry of that name names a regular file or an empty directory |
| FsProperties.UnlinkNames | proj6/server.c:535-608 | unlink frees the inode of that name, clears its slot and the slots of the object, and changes no other slot |
| FsProperties.LookupFindsCreated | proj6/server.c:267-307 | at the root, once creat has put an entry into the first block, the search of lookup finds the new inode under that name |
| FsProperties.RefinesStore | proj6/server.c:359-610 | the image refines a map from inode and block to contents: each request changes the one block, or drops the one file, it is about |
| FsProperties.ContentsLast | proj6/server.c:359-610 | a block keeps its contents over any run that does not write it or remove its file, though inodes and blocks around it are reused |
| FsProperties.ReadsLastWrite | proj6/server.c:359-465 | what is read is what was last written there, over any such run |
| FsImage.CopiedName | proj6/server.c:158-158 | a name copied into an entry, whatever the entry held, compares equal to the name it was copied from |
| FsImage.DotNames | proj6/server.c:183-187 | the dot entries hold "." and ".." whatever the buffer held |
| FsImage.LowestClear | proj6/server.c:41-48 | a clear bit with all bits below it set, the length when every bit is set |
| FsServer.BitmapAlloc | proj6/server.c:32-60 | byte scan then bit scan find and set the lowest clear bit, or -1 and no change when all are set |
| FsServer.BitmapCheck | proj6/server.c:62-78 | the bit for indices below 512, and -1 for every other index |
| FsServer.ScanForName | proj6/server.c:488-490 | the first live entry of that name, 16 when there is none |
| FsServer.ScanForUnused | proj6/server.c:115-120 | the first unused entry, 16 when there is none |
| FsServer.FileServer.InitFs | proj6/server.c:208-246 | the new image is consistent and has the root directory only |
| FsProperties.NewImageSound | proj6/server.c:219-243 | zeros with the root directory in inode 0 and block 0 are a consistent image |
| FsServer.FileServer.WriteDotBlock | proj6/server.c:175-198 | the block of a new directory, in the lowest free data block |
| FsServer.FileServer.FindFreeEntry | proj6/server.c:96-121 | the first unused entry of the parent over all its blocks, and what the buffer is left with |
| FsServer.FileServer.EnterInParent | proj6/server.c:96-173 | the entry goes into that slot, or into the first slot of one more block when the parent is full |
| FsServer.FileServer.InitObj | proj6/server.c:80-206 | entry and first block together, and the block number handed back |
| FsServer.FileServer.HandleCreat | proj6/server.c:467-510 | the new image; the reply is 0 if and only if the parent is known and the block searched has a live entry of that name, or the kind is directory, or the unset local is not negative; nothing changes when the name is found; consistency kept |
| FsServer.FileServer.HandleWrite | proj6/server.c:359-402 | the new image whatever the reply, for allocated and unallocated inodes and blocks beyond the end; reply 0 exactly for regular files within reach; consistency kept when the reply is 0 and the inode is allocated |
| FsServer.FileServer.HandleRead | proj6/server.c:404-465 | replies 0 exactly for an existing block of a file or directory, with that block |
| FsServer.FileServer.HandleLookup | proj6/server.c:248-310 | the first live entry of that name over all blocks in order, -1 exactly when there is none |
| FsServer.FileServer.HandleUnlink | proj6/server.c:512-611 | for names other than the dots: -1 and no change for a parent that is no directory numbered below 10, and when the first live entry of that name names neither a file nor an empty directory; otherwise 0, with that entry clear if there was one; consistency kept |
| FsServer.FileServer.UnlinkIn | proj6/server.c:535-608 | the new image, and the reply -1 exactly when the object found is neither a file nor an empty directory |
| FsServer.FileServer.ClearOwnedBits | proj6/server.c:577-583 | exactly the bits of the inode's blocks are cleared |
| FsWrites.WriteSoundIff | proj6/server.c:366-399 | a write that lands in the data region leaves a consistent image if and only if its target is no directory, is allocated if it takes a new block, and, if it lies beyond the end and its stale pointer leads into a directory, brings entries that do the work of the old ones |
| FsWrites.WriteSoundIffNotDirectory | proj6/server.c:377-399 | for an allocated inode and a block not beyond the end: if and only if the inode is no directory |
| FsWrites.WriteHitsOwner | proj6/server.c:389-395 | a write through an existing pointer puts the buffer into the block of whichever file owns it, and changes no file when nobody does |
| FsWrites.StraySoundIff | proj6/server.c:389-395 | a write beyond the end into a directory's block keeps the image consistent if and only if the same dots and the same inodes are named, each once, and in the root's first block no name twice |
| FsWrites.DirectoryWriteUnsound | proj6/server.c:389-398 | no write to a directory leaves a consistent image, whatever is written |
| FsWrites.LeakUnsound | proj6/server.c:381-387 | a write that takes a block for an unallocated inode leaks it |
| FsExamples.RootOverwritten | proj6/server.c:377-399 | in a new image a write to block 0 of inode 0 destroys the root |
| FsExamples.BlockLeaked | proj6/server.c:377-399 | in a new image a write to block 0 of any other inode leaks a block |
| FsExamples.RootWipedOut | proj6/server.c:377-399 | a new file written beyond its end, through a pointer that happens to be 0, wipes out the root |
| FsRetry.WriteRepeated | proj6/mfs.c:137-144 | a write carried out any number of times leaves what the first one left, but for the file's size |
| FsRetry.UnlinkRepeated | proj6/mfs.c:137-144 | an unlink at the root carried out any number of times leaves what the first one left, with the same reply |
| FsRetry.NameGone | proj6/server.c:570-608 | after the removal of an entry of the root's first block no entry of that name is left in it |
| FsRetry.CreatAgain | proj6/server.c:482-507 | a second creat, with anything on the stack, changes nothing if and only if the name was there or the entry went into data block number `pinum` |
| FsRetry.CreatDuplicates | proj6/server.c:482-507 | otherwise it leaves two live entries of that name in the directory, naming different inodes |
| FsRetry.CreatAgainAtRoot | proj6/server.c:482-507 | at the root it changes nothing if and only if the name was in the first block or the first block had an unused entry |
| FsRetry.CreatRepeated | proj6/mfs.c:137-144 | then a creat carried out any number of times, with anything on the stack each time, leaves what the first one left, and each repetition finds the name and is answered with 0 |
| FsExamples.TwoOfAName | proj6/server.c:482-507 | a run from a new image in which a repeated creat makes two files of one name |
| HashProof.Linearizable | proj4/list.c:13-94 | every call has its own entry in a legal history of stacks, with its result and within its duration; calls that follow each other are in that order; the history holds no other entries than those of calls returned or under way; and the calls are those the schedule asked for: each one asked for has returned or is under way, with its operation, and nothing else has |
| HashProgress.NoDeadlock | proj4/spin.c:37-53 | in every reachable state a thread under way, or the holder of the lock it waits for, can finish its operation by its own steps alone |
| HashProgress.FinishesAlone | proj4/list.c:13-94 | a thread in its critical section, past it, or before a free lock returns within a number of its own steps bounded by the length of its list |
| HashProof.RunFaithful | proj4/hash.c:20-45 | every returned call was asked for at the step it says, of the thread that ran it from then to its return; every call asked for has returned or is under way |
| HashProof.MutualExclusion | proj4/spin.c:37-53 | two threads are never inside one bucket's critical section, and the flag is set exactly while one is |
| HashProof.NeverStuck | proj4/list.c:13-94 | in every reachable state each pointer a thread is about to follow is a node, or is tested against null first and is null or a node, in the scan and in the read after release too |
| HashProof.RunInv | proj4/hash.c:20-45 | the invariant holds after every schedule of every number of threads and buckets |
| HashProof.StepKeeps | proj4/list.c:13-94 | every step of any thread is defined and keeps the invariant |
| HashProof.AcquireKeeps | proj4/spin.c:37-44 | one exchange on the flag, taking the lock or not, keeps the invariant |
| HashProof.PublishKeeps | proj4/list.c:22-23 | linking the new node at the head pushes its element on its key's stack and leaves other keys alone |
| HashProof.ScanKeeps | proj4/list.c:38-42 | the search keeps its place, and at its end the pointer found is the top of the key's stack |
| HashProof.UnlinkKeeps | proj4/list.c:44-55 | taking the node out pops its key's stack and leaves other keys alone |
| HashProof.ReturnKeeps | proj4/list.c:91-93 | the element read after the lock is released is the one that was on top when the search ended |
| HashProof.StepDefined | proj4/list.c:13-94 | under the invariant no step follows a pointer that is neither null nor a node, nor an untested null |
| HashTable.TableAnswersLikeList | proj4/hash.c:20-45 | for every sequence of operations and every number of buckets a lookup is answered as by one single list |
| HashTable.TableLikeList | proj4/hash.c:20-45 | each key has the same stack of elements, shadowed ones included, in the table and in the list |
| HashTable.DeleteUndoesInsert | proj4/list.c:13-58 | an insert is seen by a lookup, and a delete of its key undoes it |
| HashTable.LogLikeList | proj4/list.c:13-94 | the history of the concurrent table means what one list given the same operations holds |
| HashTable.RemovePops | proj4/list.c:28-58 | removing the first node of a key pops that key's stack and no other |
| HashTable.List.Insert | proj4/list.c:13-26 | the pair is in front of the earlier ones, whose nodes are untouched |
| HashTable.List.Locate | proj4/list.c:35-42 | the first node of the key, if any, and the node before it |
| HashTable.List.TakeOut | proj4/list.c:46-54 | exactly that node leaves, order kept |
| HashTable.List.Delete | proj4/list.c:28-58 | the first pair of the key is gone, or nothing changes |
| HashTable.List.Lookup | proj4/list.c:79-94 | the element of the first pair of the key, null when there is none |
| HashTable.EmptyLists | proj4/hash.c:11-14 | distinct empty lists |
| HashTable.Table.constructor | proj4/hash.c:6-15 | an empty table |
| HashTable.Table.Insert | proj4/hash.c:20-23 | the one bucket of the key changes as a list does, no other |
| HashTable.Table.Delete | proj4/hash.c:25-28 | the one bucket of the key changes as a list does, no other |
| HashTable.Table.Lookup | proj4/hash.c:42-45 | the answer of the key's bucket |
| RequestBuffer.MinIndex | proj5/server.c:48-70 | a smallest eligible request, the first of its size, -1 exactly when no request is eligible |
| RequestBuffer.GetMinRequest | proj5/server.c:38-73 | the loop computes it |
| RequestBuffer.ScanGoodIff | proj5/server.c:334-336 | the producer's scan ends on a free slot if and only if one lies between its start and its limit |
| RequestBuffer.Server.constructor | proj5/server.c:251-305 | all slots free, all counters zero |
| RequestBuffer.Server.ChooseSlot | proj5/server.c:334-336 | the loop ends, with some slot free, at the slot of the scan function |
| RequestBuffer.Server.Insert | proj5/server.c:351-368 | the slot holds the connection's descriptor and size with the current epoch, the other slots stay, and the count and the epoch counters after an arrival |
| RequestBuffer.Server.PickSlot | proj5/server.c:105-134 | the slot served under each of the three algorithms |
| RequestBuffer.Server.Dispatch | proj5/server.c:105-153 | the request taken, its slot free, count, index and epoch counters after a dispatch |
| Scheduler.NoLostWakeup | proj5/server.c:100-103 | in every reachable state of every algorithm, pending work or a blocked producer means that some worker is awake; a producer blocked beside a buffer that is not full has a worker about to signal |
| ShortestFirst.WorkIsServed | proj5/server.c:98-155 | under FIFO in every run, under SFF and SFF-BS in the runs that lose no request: with work pending or the producer blocked, an awake worker finds a request to serve or is about to signal, and no worker indexes outside the buffer |
| Scheduler.WakeKept | proj5/server.c:150-183 | each step keeps: work pending implies a worker awake, a blocked producer implies a full buffer or a worker serving |
| Scheduler.FifoTheorem | proj5/server.c:98-155 | over every interleaving the requests accepted are the connections that came, in order; dispatch order is arrival order; the rest is in the consecutive slots from the serve index, and the slot the producer holds is free |
| Scheduler.RunGenuine | proj5/server.c:340-368 | under every algorithm the requests accepted have the descriptors and sizes of the connections accepted, in order, and what a worker serves has been taken from the buffer |
| Scheduler.Handed | proj5/server.c:146-177 | a worker that finds work takes one request and serves that one until it is done; no other step takes a request |
| Scheduler.Signalled | proj5/server.c:370-371 | an insert wakes the waiting worker it signals, a worker that is done wakes a blocked producer, and a step changes no other thread |
| Scheduler.FifoScans | proj5/server.c:110-115 | in FIFO mode neither scan moves, whatever the unset local holds |
| Scheduler.FifoKept | proj5/server.c:98-155 | each step is defined and keeps the ring |
| ShortestFirst.BatchTheorem | proj5/server.c:38-73 | SFF-BS, in a run whose inserts go into free slots: the requests accepted are the connections that came; each is in a slot or was taken, never both; work pending means that a smallest request of the oldest unfinished epoch is served; fewer than an epoch's worth of later arrivals overtake a request |
| ShortestFirst.BatchServes | proj5/server.c:129-144 | SFF-BS serves a smallest request of the oldest unfinished epoch, and there always is one |
| ShortestFirst.CurrentPending | proj5/server.c:129-144 | as long as the buffer is not empty a request of the workers' epoch is in it |
| ShortestFirst.TagsTell | proj5/server.c:140-143 | although epoch counters wrap around, equal counters mean equal epochs for requests that can be in the buffer together |
| ShortestFirst.OvertakenFewTimes | proj5/server.c:351-361 | a pending request has been overtaken by at most an epoch's size less one |
| ShortestFirst.BatchKept | proj5/server.c:129-153 | each step is defined and, unless it inserts into an occupied slot, keeps requests and epochs |
| ShortestFirst.ShortestServed | proj5/server.c:122-128 | SFF serves a smallest request of the whole buffer, and there always is one |
| ShortestFirst.ShortestRun | proj5/server.c:98-155 | SFF, in a run whose inserts go into free slots: the requests accepted are the connections that came, and none is lost or taken twice |
| ShortestFirst.InsertConservesIff | proj5/server.c:366-368 | an insert loses no request if and only if the slot written is free at that moment |
| ShortestFirst.RunConservedIff | proj5/server.c:327-376 | a run of SFF or SFF-BS keeps every request throughout if and only if all its inserts go into free slots |
| ShortestFirst.ScansSuffice | proj5/server.c:334-366 | if all scans of a run end on free slots, so do its inserts |
| ShortestFirst.RequestLost | proj5/server.c:334-336 | in both SFF modes, a run in which the scan as written stops on an occupied slot, a request is overwritten, and a worker later finds a count of one and no slot |
| Rio.Reader.constructor | proj5/cs537.c:457-462 | an empty buffer at the descriptor's position |
| Rio.Reader.Refill | proj5/cs537.c:413-434 | refilling hands over nothing, and leaves the buffer empty exactly at the end of the stream |
| Rio.Reader.CopyOut | proj5/cs537.c:436-449 | the bytes copied are the next ones of the stream |
| Rio.Reader.RioRead | proj5/cs537.c:408-450 | some of the next bytes of the stream, none exactly at its end, the rest of the caller's buffer untouched |
| Rio.Reader.Readnb | proj5/cs537.c:469-499 | the next bytes of the stream, n of them, or fewer only if the stream has ended |
| Rio.Reader.FillLine | proj5/cs537.c:513-539 | the bytes stored and the count of the loop |
| Rio.Reader.Readlineb | proj5/cs537.c:506-544 | the next bytes of the stream up to maxlen - 1, through the first newline or to the end, whichever comes first; its NUL; and the value returned, one too high after data without a newline |
| Rio.Reader.RunCalls | proj5/cs537.c:408-544 | any mixture of calls delivers what is computed from the stream alone, each piece starting where the one before ended and of the right length for its call |
| Rio.RightLength | proj5/cs537.c:469-544 | one length only is right for a call: all that was asked for or all there is; a line through its newline, within its length, or to the end |
| Rio.PiecesAreRight | proj5/cs537.c:469-544 | the pieces computed for any mixture of calls have these lengths |
| Rio.LineStops | proj5/cs537.c:513-539 | a line stops at the newline, the length or the end, whichever comes first |
| Rio.LineUnique | proj5/cs537.c:513-539 | and this determines it |
| Rio.PiecesAreConsecutive | proj5/cs537.c:469-544 | the pieces delivered are consecutive in the stream |
| Rio.StreamIsExhausted | proj5/cs537.c:469-544 | enough calls deliver the whole stream |
| Keyword.CountInstances | proj1/search.c:125-131 | the count is the largest number of pairwise non-overlapping occurrences |
| Keyword.GreedyIsOptimal | proj1/search.c:125-131 | no choice of non-overlapping places has more of them than the leftmost greedy one |
| Keyword.FoundApart | proj1/search.c:125-131 | the places found are occurrences and do not overlap |

## Left out

- Allocator: debug mode (the split moves on by 128 bytes it does not subtract), padding and fill patterns, `Mem_Dump`, failure of mmap, sizes whose rounding overflows an int.
- Heap.Allocator.MemAlloc: covers requests up to INT_MAX - 3, beyond which rounding up overflows.
- Heap.Allocator.MemInit: covers regions whose rounding up to pages stays an int, and page sizes that are multiples of four.
- Heap.Allocator.MemFree: covers null, live blocks, and addresses inside the pool whose header does not read as taken; it says nothing of wild pointers whose header happens to read as taken.
- Heap.Allocator: a field is held whole by the cell of its first byte, so a client write that overlaps part of a header is not modelled; headers are not split into bytes.
- File server: byte offsets of the four regions and the byte layout of inodes and entries, `handle_stat`, tokenising of commands, sockets, the clients' time-outs, stale or reordered replies.
- FsServer.BitmapAlloc: the bound is tested before the byte is read, where the code reads one byte beyond the bitmap when it is full.
- FsServer.FileServer.HandleCreat: requires an allocated directory as parent when the inode number is below 512 and allocated, room for the object when the name is not found, and a name other than the dots; inode numbers from 512 to 4095 are outside its domain, there `bitmap_check` answers -1 and the code goes on as if the parent were allocated.
- FsServer.FileServer.HandleWrite: requires that the pointer followed is the number of a data block, and a free data block when one is taken; the code writes outside the data region otherwise.
- FsServer.FileServer.HandleUnlink: requires a consistent image, an inode number whose first pointer is the number of a data block, and a name other than the dots.
- FsServer.FileServer.HandleRead: starts from a consistent image.
- FsServer.FileServer.HandleLookup: starts from a consistent image.
- FsRetry.CreatRepeated: is about the root and entries in its first block, elsewhere `creat` does not recognise its own entry, see `CreatAgain`.
- Web server: HTTP, CGI and statistics; `preRequestHandle` is a size that a request has from the start; handling and closing a connection is one step; failure of Accept.
- ShortestFirst.BatchTheorem: is about runs whose inserts all go into free slots; `RunConservedIff` says that the others lose a request.
- ShortestFirst.ShortestRun: the same.
- ShortestFirst.BatchKept: is about steps that do not insert into an occupied slot; `InsertConservesIff` says what the others do.
- ShortestFirst.WorkIsServed: the same as `BatchTheorem` for SFF and SFF-BS; in `RequestLost` a worker does index outside the buffer.
- Scheduler.NoLostWakeup: says that some awake thread can go on, not that the scheduler is fair.
- Hash table: reordering of memory accesses below statements, the variant with POSIX mutexes, failure of malloc, initialisation and destruction beside other threads, the counter, the benchmarks.
- HashProof.Linearizable: keys are unbounded natural numbers and bucket selection is their remainder; termination of the spin loop under fair scheduling is not claimed.
- Rio: errors of `read()` other than interruption, endless interruption, the unbuffered `rio_readn` and `rio_writen`, sizes beyond the range of int.
- Keyword.CountInstances: requires a keyword that is not empty, since the loop never ends for an empty one; reading files, argument handling and the sorted report are left out.
- The shell (`proj2`) and the remaining programs of the repository.
