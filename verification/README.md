# COHERENT kernel and host tools: a verified model

The COHERENT 4.2 kernel and the host programs around it keep several linked structures and
protocols in step by hand: record locks and their wait-for graph, the free list inside the
free blocks, a buffer cache threaded through hash and age lists, pipes shared by sleeping
processes, gates, timers.  This project models those parts in Dafny and proves what they are
meant to keep, over every input and every run.

| file | models |
|---|---|
| `RecordLock.dfy`, `LockSystem.dfy`, `LockTable.dfy` | record locking (`rlock.c`): lists of locks as functions, all runs of any number of processes as a state machine, and the code with its loops and its deadlock search |
| `Layout.dfy`, `FreeChain.dfy`, `TreeSets.dfy` | the disk: byte orders, the block map as paths through index blocks, the free chain, and which blocks a tree holds |
| `KernelFs.dfy`, `FileHistory.dfy` | the kernel's filesystem (`fs1.c`, `fs2.c`, `fs3.c`) and any sequence of its calls against plain byte files |
| `CohFs.dfy`, `ImageTree.dfy`, `Superblock.dfy`, `ImageWriter.dfy`, `ImageSession.dfy`, `Mkfs.dfy` | the host's image reader and writer (`cohfs.py`, `cohfsw.py`) |
| `RadixSort.dfy`, `BufferCache.dfy`, `CacheHistory.dfy` | the buffer cache (`bio.c`) and any sequence of its calls against direct disk access |
| `Pipe.dfy` | pipes (`pipe.c`), step by step |
| `Gates.dfy`, `Timers.dfy` | sleep, wakeup and gates (`proc.c`); the timing wheel (`timeout.c`, `clock.c`) |
| `HexFile.dfy` | Intel HEX output and input (`hex2bin.c`), sections II to V and VIII of the Intel Hexadecimal Object File Format Specification, Rev. A |
| `Copt.dfy`, `CoptLines.dfy` | the optimizer's pattern matcher (`copt.c`), and which lines it finds |
| `Lists.dfy`, `Wrappers.dfy` | shared vocabulary |

Conventions.  The disk is a sequence of 512-byte blocks.  A list that the C code threads
through nodes is a sequence of the nodes in list order; where the links themselves are the
point (buffer cache, timers, process queues, radix sort) they are modelled too and proved to
run through exactly that sequence.  Locks and interrupt masks make a stretch of code one
atomic step.  Integers are unbounded except where a byte, a word, a checksum or a mask matters.

## What the proofs turned up

Each fault comes with its exact condition, and most with an input that shows it.

- `fcntl` locking (`rlock.c`): EDEADLK is given exactly when sleeping would close a cycle and a
  record is left to sleep with (without one the answer is ENOLCK, cycle or not), and never to a
  process that has already slept on the request (`LockSystem.DeadlockExactly`,
  `LockSystem.WokenNeverRefused`).  ENOLCK does not mean that nothing happened: `addlock` ignores
  that its inner `remlock` ran out of records, but `getlock` has left the error for the caller.
  With disjoint locks per owner this is so exactly when the request takes the last record and lies
  strictly inside a lock of the caller's other type (`LockSystem.EnolckExactly`); the request is
  granted then, and the bytes are held with both types (`LockSystem.EnolckWhileInstalled`,
  `LockSystem.EnolckAfterSleep`).
- `cohfs.py` misreads a sparse file when an indirect slot before its end is empty, because the
  missing list is not padded.  For a file whose last block is there, the list of blocks is right
  exactly without such a gap (`CohFs.ListIsMapExactly`); `CohFs.GapExample` is a file whose bytes
  come out wrong.
- `bfree` in `cohfsw.py` writes no empty batch into a block freed into an empty list; the result
  is a proper chain exactly when the block begins with a zero count
  (`ImageSession.FreeIntoEmptyExactly`, `ImageSession.FreeIntoEmptyFails`).
- `bclaim` does not look for the block again after it has slept; taking over a buffer leaves one
  live buffer per block exactly when no other buffer holds the block by then
  (`BufferCache.Cache.TakeOver`; two claims that end with two buffers for one block are
  `CacheHistory.TwoClaims`).  `brelease` of a claimed buffer that was never filled shows the old
  contents as the block's (`BufferCache.Cache.BRelease`, `CacheHistory.ReleaseUnfilled`).
- A process that gives up `popen` after a signal wakes nobody, which strands sleeping writers, or
  readers, exactly when it was the last of the other kind (`Pipe.PipeNode.ReopenRead`,
  `Pipe.PipeNode.ReopenWrite`; `Pipe.StrandWriter`, `Pipe.StrandReader`).  A small write may wait
  although the pipe has room, exactly when the free room is split by the end of the ring
  (`Pipe.PipeNode.FitsExactly`), and may go on waiting when it fits, exactly when another write
  has moved the writing position past that end, since `pwrite` wakes only readers
  (`Pipe.PipeNode.Write`, `Pipe.PipeNode.Step`; `Pipe.OverlookWriter`).
- `timeout` with a delay of 0 arms a timer that never fires; with any other delay it fires exactly
  once (`Timers.ArmAndRun`).
- `match` in `copt.c` never matches wrongly, but may miss a line the pattern stands for, in two
  ways.  Its loop stops at the end of the line, so a variable at the end of a pattern never gets
  the empty text: every pattern that ends in a variable misses the line of its bare characters
  (`CoptLines.MissedBare`; `a%1` misses `a` and nothing else, `CoptLines.MissingTail`).  And it
  commits to the first place where the rest matches, which can go wrong when a variable is
  repeated (`%1%1` misses `aa`, `Copt.MatchIsIncomplete`).  A pattern misses no line at all
  exactly when it does not end in a variable, every run of adjacent variables has one that is used
  once, and after the last use of a repeated variable one that is used once follows in the same
  run (`CoptLines.CompleteExactly`); so `%1%1%2;` misses none (`CoptLines.HarmlessRepeat`).
- `bclaim` looks for a free buffer with interrupts enabled and then sleeps: it sleeps on although
  buffers are free exactly when no transfer is in flight any more at the sleep and no other
  process unlocks a buffer (`BufferCache.Cache.SleepForBuffer`, `CacheHistory.SleepThroughAll`).

## Model

| member | source | states |
|---|---|---|
| `RecordLock.MeetsIsOverlap` | Coherent/sys.r12/coh.386/rlock.c:223-243 | nextmeet's comparisons, with -1 as the end of the file, hold exactly when the two ranges share a byte |
| `RecordLock.ToRangeExact` | Coherent/sys.r12/coh.386/rlock.c:90-131 | a request is refused with EINVAL exactly when section 6.5.2 of IEEE Std 1003.1-1990 makes it name a byte before the file; otherwise the range holds exactly the bytes requested, negative lengths included |
| `RecordLock.ReportRoundTrip` | Coherent/sys.r12/coh.386/rlock.c:137-151 | the start and length F_GETLK reports, used in a new request, name the same range |
| `RecordLock.ExtractExact` | Coherent/sys.r12/coh.386/rlock.c:275-312 | what extract leaves keeps owner and type and covers exactly the old bytes outside the cut |
| `RecordLock.RemLockExact` | Coherent/sys.r12/coh.386/rlock.c:314-350 | per process and byte: a successful remlock clears exactly the owner's bytes in the range and nothing else; a failed one only clears some of those |
| `RecordLock.RemLockFailsExactly` | Coherent/sys.r12/coh.386/rlock.c:314-350 | with the owner's locks disjoint, unlocking fails exactly when the pool is empty and the range lies strictly inside one lock |
| `RecordLock.RemLockRunsOut` | Coherent/sys.r12/coh.386/rlock.c:314-350 | on any list, redundant locks included: remlock fails exactly when it reaches a lock to split with the pool, and the records given back on the way, used up |
| `RecordLock.FailedUnlockKeeps` | Coherent/sys.r12/coh.386/rlock.c:314-350 | with the owner's locks disjoint a failed unlock changes nothing |
| `RecordLock.RemLockKeepsDisjoint` | Coherent/sys.r12/coh.386/rlock.c:314-350 | each owner's locks stay pairwise disjoint |
| `RecordLock.AbsorbExact` | Coherent/sys.r12/coh.386/rlock.c:366-385 | growing the span over neighbours of the same owner and type adds exactly the bytes they covered |
| `RecordLock.AddLockBounds` | Coherent/sys.r12/coh.386/rlock.c:352-397 | a successful addlock gives the owner its bytes with the new type and touches no other owner, whatever becomes of the inner remlock |
| `RecordLock.AddLockExact` | Coherent/sys.r12/coh.386/rlock.c:352-397 | when the inner remlock succeeds, the map from process and byte to lock type changes at exactly the owner's bytes in the range |
| `RecordLock.AddLockFailsExactly` | Coherent/sys.r12/coh.386/rlock.c:352-397 | addlock installs nothing exactly when the pool is empty and there is no neighbour to merge with, and then nothing changes |
| `RecordLock.AddLockOutside` | Coherent/sys.r12/coh.386/rlock.c:352-397 | bytes outside the request stay as they are unless a byte was held with both types before, even when the inner remlock runs out; inside, a clean addlock leaves the new type only |
| `RecordLock.AddLockEnolckExactly` | Coherent/sys.r12/coh.386/rlock.c:246-258 | getlock leaves ENOLCK in the user error exactly when the pool is empty and nothing can be merged, or when the last record goes to the request and a lock of the owner's other type must be split around it; only in the first case is the lock not installed |
| `RecordLock.InstalledWithEnolck` | Coherent/sys.r12/coh.386/rlock.c:389-396 | one record left, reading bytes 10 to 19 inside an own write lock: ENOLCK, with the lock installed and byte 12 held with both types |
| `RecordLock.AddLockKeepsDisjoint` | Coherent/sys.r12/coh.386/rlock.c:352-397 | each owner's locks stay disjoint when the inner remlock succeeds |
| `RecordLock.AddLockNonRedundant` | Coherent/sys.r12/coh.386/rlock.c:352-397 | when the inner remlock succeeds, no process ends up holding a byte both as a reader and as a writer |
| `RecordLock.TouchesMeans` | Coherent/sys.r12/coh.386/rlock.c:366-372 | two ranges touch exactly when they share a byte or one begins right behind the other |
| `RecordLock.RemLockKeepsCoalesced` | Coherent/sys.r12/coh.386/rlock.c:314-350 | remlock, failed or not, makes no two locks of one owner and type overlap or adjoin |
| `RecordLock.AddLockKeepsCoalesced` | Coherent/sys.r12/coh.386/rlock.c:352-397 | nor does addlock: it merges the request with every neighbour of its owner and type |
| `RecordLock.NotBlockedMeans` | Coherent/sys.r12/coh.386/rlock.c:199-219 | a request nextblock lets through conflicts with no byte another process holds |
| `RecordLock.AddLockCompatible` | Coherent/sys.r12/coh.386/rlock.c:352-397 | installing an unblocked request leaves no byte held by two processes when one of them writes, even if the inner remlock ran out of records |
| `LockSystem.StepKeepsInv` | Coherent/sys.r12/coh.386/rlock.c:133-197 | every lock, unlock, sleep, wakeup and signal step keeps the invariant (acyclic wait-for graph, compatible locks) and the number of records |
| `LockSystem.EveryRun` | Coherent/sys.r12/coh.386/rlock.c:133-197 | over all runs of any number of processes: no cycle, no conflicting locks, free + active + pending records always RLOCKS |
| `LockSystem.DeadlockExactly` | Coherent/sys.r12/coh.386/rlock.c:399-446 | a blocked F_SETLKW gets EDEADLK exactly when sleeping would close a cycle of the wait-for graph and a record is left to sleep with; it sleeps when there is a record and no cycle; with an empty pool it gets ENOLCK, cycle or not |
| `LockSystem.RefusalsExactly` | Coherent/sys.r12/coh.386/rlock.c:133-197 | EINTR to a signalled sleeper and to nobody else, EACCES to a blocked F_SETLK and to nobody else, EDEADLK and the sleep by the wait-for graph; no list changes with any of them, and only the caller's own request comes or goes |
| `LockSystem.StepExact` | Coherent/sys.r12/coh.386/rlock.c:133-197 | for every call, per file, process and byte: a granted request holds all its bytes with its type and, without ENOLCK, with no other; a successful unlock leaves none of its bytes; everything else is as before |
| `LockSystem.WokenNeverRefused` | Coherent/sys.r12/coh.386/rlock.c:430-446 | a process that has slept on its request never gets EDEADLK; ENOLCK it gets exactly when its own record is the last and a lock of its other type must be split, and the request is granted then |
| `LockSystem.EnolckExactly` | Coherent/sys.r12/coh.386/rlock.c:133-197 | ENOLCK for each call, by the pool and the lists before the call alone; the lists change with it exactly when the request is granted, and otherwise nothing changes |
| `LockSystem.RunStaysDisjoint` | Coherent/sys.r12/coh.386/rlock.c:352-363 | over all runs: until a request is first granted with ENOLCK no process covers a byte with two locks |
| `LockSystem.NeighboursMerged` | Coherent/sys.r12/coh.386/rlock.c:352-363 | over all runs, ENOLCK or not: no two locks of one process and type on a file overlap or adjoin |
| `LockSystem.EnolckWhileInstalled` | Coherent/sys.r12/coh.386/rlock.c:389-396 | two records and two calls of one process: ENOLCK with the lock installed |
| `LockSystem.EnolckAfterSleep` | Coherent/sys.r12/coh.386/rlock.c:439-445 | three processes and three records: the same for a process that slept on its request |
| `LockSystem.GrantableOnlyWhenWoken` | Coherent/sys.r12/coh.386/rlock.c:176-197 | no lost wakeup: a sleeping request becomes grantable only in a step that wakes the sleepers of its inode |
| `LockSystem.SomeoneCanMove` | Coherent/sys.r12/coh.386/rlock.c:399-468 | behind every blocked process stands one that is not waiting or whose request can be granted |
| `LockTable.NextMeet` | Coherent/sys.r12/coh.386/rlock.c:223-243 | the first lock from a position on whose range meets the given one |
| `LockTable.NextBlock` | Coherent/sys.r12/coh.386/rlock.c:207-219 | the first conflicting lock from a position on |
| `LockTable.LockTable.CutAll` | Coherent/sys.r12/coh.386/rlock.c:322-350 | the loop of remlock, splitting and freeing records, computes RemLock |
| `LockTable.LockTable.AddRange` | Coherent/sys.r12/coh.386/rlock.c:358-397 | the two phases of addlock compute the model's installation step, the user error left by the inner remlock included |
| `LockTable.LockTable.Waiting` | Coherent/sys.r12/coh.386/rlock.c:450-468 | the recursive search terminates and finds exactly whether the process waits, directly or through others, for the requester |
| `LockTable.LockTable.WaitLock` | Coherent/sys.r12/coh.386/rlock.c:399-428 | waitlock up to its sleep or return is the model's step, EDEADLK and ENOLCK included |
| `LockTable.LockTable.AfterSleep` | Coherent/sys.r12/coh.386/rlock.c:428-446 | waitlock after a wakeup or signal is the model's step, whose answers are `LockSystem.RefusalsExactly` and `LockSystem.StepExact`; it gives no EDEADLK, and ENOLCK only with the lock installed |
| `LockTable.LockTable.RLock` | Coherent/sys.r12/coh.386/rlock.c:90-197 | F_SETLK and F_SETLKW: range and mode checks, then the model's step |
| `LockTable.LockTable.GetLock` | Coherent/sys.r12/coh.386/rlock.c:134-152 | F_GETLK reports the first lock in the way exactly when F_SETLK would fail with EACCES |
| `Layout.PdpRoundTrip` | Coherent/tools/cohfsw.py:41-43 | a long stored high word first is read back, for 32 bits |
| `Layout.PdpOrder` | Coherent/tools/cohfs.py:31-33 | which byte of a stored long counts for what: 34 12 78 56 is 0x12345678 |
| `Layout.LeafBijection` | Coherent/sys.r12/coh.386/fs3.c:248-307 | logical blocks below 10 + 128 + 128^2 + 128^3 and index paths correspond one to one |
| `Layout.GrowKeepsPartition` | Coherent/sys.r12/coh.386/fs3.c:596-668 | putting a free block at an empty place of one tree keeps every block free or in exactly one place |
| `Layout.GrowContent` | Coherent/sys.r12/coh.386/fs3.c:596-668 | a new clear index block changes no file; a new data block changes that block of that file only |
| `Layout.RunGrows` | Coherent/sys.r12/coh.386/fs3.c:589-644 | one block more takes from the free list what the longer run of blocks lacks beyond the shorter one |
| `Layout.PresentNeedsNothing` | Coherent/sys.r12/coh.386/fs3.c:589-644 | a run of blocks that are all there takes nothing from the free list |
| `Layout.LeafWrite` | Coherent/sys.r12/coh.386/fs3.c:700-724 | writing a data block changes that logical block of that file and nothing else |
| `FreeChain.CountIsSize` | Coherent/sys.r12/coh.386/fs2.c:605-676 | the counters of a chain without repetitions add up to the number of free blocks |
| `FreeChain.PopExact` | Coherent/sys.r12/coh.386/fs2.c:756-829 | taking the last entry removes exactly that block, and at the last entry of a batch the next batch is in that very block |
| `FreeChain.PushExact` | Coherent/sys.r12/coh.386/fs2.c:651-676 | putting a block in, or a full list into the block, adds exactly that block to the free set |
| `FreeChain.StoredPack` | Coherent/tools/cohfsw.py:114-125 | a batch written into a link block decodes to the same batch |
| `TreeSets.SlotTreesExact` | Coherent/sys.r12/coh.386/fs1.c:608-622 | the trees under the slots hold exactly the blocks the file owns |
| `TreeSets.TruncateKeepsPartition` | Coherent/sys.r12/coh.386/fs1.c:608-628 | giving all of a file's blocks back leaves the volume partitioned, the file empty and the others as they were |
| `KernelFs.InsertDownPermutes` | Coherent/sys.r12/coh.386/fs2.c:536-582 | daddr_add's result and the entry pushed out are the old list and the new block |
| `KernelFs.DaddrAdd` | Coherent/sys.r12/coh.386/fs2.c:536-582 | the in-place insertion computes that list; 0 tells of a block that is listed already |
| `KernelFs.FreeKeepsDescending` | Coherent/sys.r12/coh.386/fs2.c:605-676 | with sorting on, positions 1 up of every batch stay strictly descending |
| `KernelFs.LMap` | Coherent/sys.r12/coh.386/fs3.c:248-307 | the steps lmap stores are those of the block's path, and its count is the length of the run of neighbours; EFBIG exactly past the triple range |
| `KernelFs.LeafRun` | Coherent/sys.r12/coh.386/fs3.c:344-396 | for every j below the reported count, block k + j has the same path with the leaf index raised by j |
| `KernelFs.FileSystem.BAlloc` | Coherent/sys.r12/coh.386/fs2.c:751-829 | a block is handed out exactly when one is free; it leaves the free set, and the rest of the disk and chain stay in order |
| `KernelFs.FileSystem.BFree` | Coherent/sys.r12/coh.386/fs2.c:600-676 | the freed block joins the free set, and no block in use changes; with sorting on, positions 1 up of every batch stay strictly descending |
| `KernelFs.FileSystem.ARead` | Coherent/sys.r12/coh.386/fs3.c:558-672 | the block of a logical number is found, with the empty places on its path, and no others, filled from the free list; it fails exactly past the triple range or when fewer blocks are free than places are empty; other contents stay, and the volume stays partitioned |
| `KernelFs.FileSystem.FWrite` | Coherent/sys.r12/coh.386/fs3.c:674-728 | the n bytes written replace exactly the file's bytes from the offset on, the size grows to the furthest byte, no other file changes; n stops at the first block for which the free blocks do not suffice, counted in the volume before the call, and the free list shrinks by just what was missing |
| `KernelFs.FileSystem.VMap` | Coherent/sys.r12/coh.386/fs3.c:320-400 | for the run of neighbouring logical blocks, as many as asked for or as lmap counts, each block's number or the mark of a hole |
| `KernelFs.FileSystem.FRead` | Coherent/sys.r12/coh.386/fs3.c:414-548 | the bytes up to the end of the file, zeroes in holes, whatever the number of blocks mapped ahead |
| `KernelFs.FileSystem.IndFree` | Coherent/sys.r12/coh.386/fs2.c:678-733 | the tree below a pointer goes back block by block, each once, although freed blocks may take in free-list batches meanwhile |
| `KernelFs.FileSystem.ITruncate` | Coherent/sys.r12/coh.386/fs1.c:582-629 | exactly the blocks the file owned become free, each once; nothing else changes |
| `FileHistory.MatchesNext` | Coherent/sys.r12/coh.386/fs3.c:414-728 | one more call keeps the files equal to the history of writes |
| `FileHistory.Session` | Coherent/sys.r12/coh.386/fs3.c:414-728 | any sequence of reads, writes and truncations on any files: every answer is what the history of writes says, free and owned blocks stay a partition, and with sorting on the batches stay in descending order |
| `CohFs.Indirect` | Coherent/tools/cohfs.py:83-93 | the list below an index block, with the exact number of zeroes for what is missing |
| `CohFs.L3DropsTop` | Coherent/tools/cohfs.py:36-38 | an address in an inode is a long in the same byte order with the top byte dropped |
| `CohFs.InodePlace` | Coherent/tools/cohfs.py:95-97 | inodes lie eight to a block from block 2 on |
| `CohFs.TypesOfMode` | Coherent/tools/cohfs.py:61-63 | regular files (0x8000) and directories (0x4000) have contents, character (0x2000) and block devices (0x6000) have none, whatever the permissions |
| `CohFs.ListIsMap` | Coherent/tools/cohfs.py:52-59 | without an empty indirect slot before the end, the list of blocks is the file's block map |
| `CohFs.Blocks` | Coherent/tools/cohfs.py:52-59 | Inode.blocks returns that list, cut to the size of the file |
| `CohFs.Data` | Coherent/tools/cohfs.py:61-67 | Inode.data returns the bytes of the listed blocks, zeroes for missing ones, cut to the size; nothing exactly for modes 0x2000 to 0x2FFF and 0x6000 to 0x6FFF |
| `CohFs.DataIsFile` | Coherent/tools/cohfs.py:61-67 | in that case the bytes read are the file's, holes included |
| `CohFs.ListIsMapExactly` | Coherent/tools/cohfs.py:52-59 | for a file whose last block is there, Inode.blocks is the block map if and only if no indirect slot before the end is empty |
| `CohFs.GapVolumeOK` | Coherent/tools/cohfs.py:52-67 | the volume of the next row is a proper one: it comes about by putting three free blocks into an empty file |
| `CohFs.GapExample` | Coherent/tools/cohfs.py:61-67 | a file of 70657 bytes with byte 70656 not zero and slot 10 empty: that byte is read as the first of block 10, and as a zero in its own place |
| `ImageTree.BuiltNode` | Coherent/tools/cohfsw.py:196-224 | in the tree setdata builds, each place holds the allocated block meant for it |
| `ImageTree.BuiltPartition` | Coherent/tools/cohfsw.py:196-224 | the new tree keeps the volume partitioned |
| `ImageTree.BuiltContent` | Coherent/tools/cohfsw.py:196-224 | the file's k-th block is the k-th allocated one; the other files are as they were |
| `Superblock.SamePlaces` | Coherent/tools/cohfs.py:75-78 | both programs find the sizes and the number of free blocks in the same places of the superblock, the list and its count between them |
| `Superblock.PackSuper` | Coherent/tools/cohfsw.py:73-96 | the superblock's fields and list, stored over any bytes, load as they were, and the other bytes stay |
| `ImageWriter.FSW.BAlloc` | Coherent/tools/cohfsw.py:99-112 | a cleared block is handed out exactly when one is free, in the chain's order; the inode area is untouched |
| `ImageWriter.FSW.BFree` | Coherent/tools/cohfsw.py:114-125 | into a non-empty list the block joins the free set; into an empty list nothing is written, and list and counter are as stated |
| `ImageWriter.FSW.TreeBlocks` | Coherent/tools/cohfsw.py:168-188 | _blocks lists every block of the file, data and indirect, exactly once |
| `ImageWriter.FSW.Truncate` | Coherent/tools/cohfsw.py:190-194 | all of the file's blocks become free, and no block in use changes |
| `ImageWriter.FSW.SetData` | Coherent/tools/cohfsw.py:196-224 | the new contents replace the old and leave other files alone; the outcome is Done, Full or TooLarge exactly by the number of blocks needed, TooLarge only when there are enough for all the data and a full double tree |
| `ImageWriter.PackInode` | Coherent/tools/cohfsw.py:139-149 | an inode packed into its 64 bytes decodes to itself |
| `ImageWriter.FSW.IWrite` | Coherent/tools/cohfsw.py:139-149 | the inode reads back as written; other inodes, blocks and the free chain stay |
| `ImageWriter.FSW.StoreFile` | Coherent/tools/cohfsw.py:277-293 | replacing a file's contents and inode succeeds exactly when its blocks, the old ones counted as free, suffice, and keeps the filesystem valid |
| `ImageWriter.FSW.Save` | Coherent/tools/cohfsw.py:67-70 | the saved image mounts with the same sizes and free chain, cohfs.py reads the same sizes and number of free blocks, and inodes and files are the same; only block 1 changes |
| `ImageWriter.FSW.ZeroFree` | Coherent/tools/cohfsw.py:312-329 | free blocks other than links are cleared, link blocks are cleared behind the 258 bytes of their batch, no block in use changes, and the count is the number of free blocks |
| `ImageSession.Cat` | Coherent/tools/cohfs.py:61-67 | reading an image gives the bytes its volume holds for the file, and nothing for a device |
| `ImageSession.PutThenCat` | Coherent/tools/cohfsw.py:277-293 | what is put and saved is read back byte for byte from the saved image, mounted anew, for every length the writer accepts, whatever the file held before, unless its mode makes it a device; another file reads as before |
| `ImageSession.FreeIntoEmptyExactly` | Coherent/tools/cohfsw.py:114-125 | freeing into an empty list leaves a chain of just that block if and only if the block begins with a zero count |
| `ImageSession.FreeIntoEmptyFails` | Coherent/tools/cohfsw.py:114-125 | a block that begins with the byte 7: no proper chain, and the next count read from it is 7 |
| `Mkfs.DrainsAscending` | Coherent/tools/cohfsw.py:374-383 | the grouping of mkfs is emptied in ascending order, each block once |
| `Mkfs.NewChainExact` | Coherent/tools/cohfsw.py:374-383 | with its links stored, the new chain is proper and holds exactly the blocks after the root directory |
| `Mkfs.NewPartition` | Coherent/tools/cohfsw.py:364-427 | only the root directory owns a block of a new filesystem |
| `Mkfs.NInodesExactly` | Coherent/tools/cohfsw.py:364-372 | the number of inodes is the least multiple of eight with one for seven blocks, and the root directory comes right behind them |
| `Mkfs.PacksExactly` | Coherent/tools/cohfsw.py:386-401 | the words packed into the superblock all fit exactly for the possible sizes |
| `Mkfs.MkFs` | Coherent/tools/cohfsw.py:364-427 | mkfs fails exactly when a count does not fit its word; otherwise the image mounts with every block after the root directory free, and root directory and inodes are as laid out |
| `Mkfs.InodesAre` | Coherent/tools/cohfsw.py:409-420 | inode 1 of a new image is an empty file with no link, inode 2 the root directory of 32 bytes with three links and mode 0777, the others are zero |
| `Mkfs.RootOfNew` | Coherent/tools/cohfsw.py:402-427 | inode 2 of a new image, read with cohfs.py, gives the directory entries "." and "..", both naming inode 2 |
| `Mkfs.FillNew` | Coherent/tools/cohfsw.py:99-112 | on a new filesystem, zeroed or not, balloc returns every block after the root directory once, ascending, then none with tfree 0; zerofree counts them |
| `RadixSort.UnlockedRadixPass` | Coherent/sys.r12/coh.386/bio.c:352-406 | one pass over the linked containers leaves them linked by octet and, within an octet, in list order: both reversals cancel |
| `RadixSort.PassIsStable` | Coherent/sys.r12/coh.386/bio.c:352-406 | the containers of each octet keep their order |
| `RadixSort.PassPermutes` | Coherent/sys.r12/coh.386/bio.c:352-406 | a pass loses and adds nothing |
| `RadixSort.PassAscends` | Coherent/sys.r12/coh.386/bio.c:352-406 | a pass extends ascending order by one more octet |
| `RadixSort.SortByBlock` | Coherent/sys.r12/coh.386/bio.c:984-994 | the four passes give the same containers by ascending block number |
| `BufferCache.DeleteKeepsHash` | Coherent/sys.r12/coh.386/bio.c:1366-1405 | unlinking a buffer leaves every other buffer in the chain of its stored hash value and in no other |
| `BufferCache.InsertKeepsHash` | Coherent/sys.r12/coh.386/bio.c:180-188 | linking it at the head of its chain likewise |
| `BufferCache.MoveKeepsLru` | Coherent/sys.r12/coh.386/bio.c:1339-1359 | the moved buffer comes first and the others keep their order, in both directions of the list |
| `BufferCache.ViewIsDetermined` | Coherent/sys.r12/coh.386/bio.c:1234-1300 | buffers and disk together determine the contents of every block |
| `BufferCache.BufferMoved` | Coherent/sys.r12/coh.386/bio.c:1601-1623 | giving a clean buffer to a block no buffer holds loses nothing |
| `BufferCache.AllClean` | Coherent/sys.r12/coh.386/bio.c:1088-1100 | when no buffer is modified, the disk alone is the contents |
| `BufferCache.Cache.HashDelete` | Coherent/sys.r12/coh.386/bio.c:1366-1405 | the linear search finds the buffer; it leaves its chain and nothing else changes |
| `BufferCache.Cache.LruUpdate` | Coherent/sys.r12/coh.386/bio.c:1339-1359 | the pointer assignments move the buffer to the front of the list |
| `BufferCache.Cache.BufferFind` | Coherent/sys.r12/coh.386/bio.c:647-678 | a buffer is found exactly when one holds the block |
| `BufferCache.Cache.BuildSyncList` | Coherent/sys.r12/coh.386/bio.c:739-822 | containers for all modified buffers, linked |
| `BufferCache.Cache.GeneralSync` | Coherent/sys.r12/coh.386/bio.c:946-1086 | every modified buffer, and no other, is written, in ascending block order; clean buffers stay as they are, and with waiting all are clean |
| `BufferCache.Cache.TakeOver` | Coherent/sys.r12/coh.386/bio.c:1596-1623 | taking a clean buffer over keeps the cache valid when no other buffer holds the block, and makes two live buffers for it otherwise |
| `BufferCache.Cache.BClaim` | Coherent/sys.r12/coh.386/bio.c:1530-1640 | the caller gets the block's only buffer, locked and most recent, with data exactly when it was resident; no modification is lost; if a clean idle buffer is there, none of these was used less recently than the one taken over; if nothing waits to be written and a buffer is free, nothing else changes |
| `BufferCache.Cache.SleepForBuffer` | Coherent/sys.r12/coh.386/bio.c:1627-1634 | the sleep of bclaim is ended exactly when a transfer is in flight as it begins |
| `BufferCache.Cache.BRead` | Coherent/sys.r12/coh.386/bio.c:1234-1300 | the buffer holds the block's current contents |
| `BufferCache.Cache.BWrite` | Coherent/sys.r12/coh.386/bio.c:1312-1327 | a synchronous write puts the buffer's contents on the disk |
| `BufferCache.Cache.BRelease` | Coherent/sys.r12/coh.386/bio.c:1187-1206 | the cache stays right exactly when the buffer was read or filled, or holds the right contents by chance |
| `BufferCache.Cache.BSync` | Coherent/sys.r12/coh.386/bio.c:1088-1100 | afterwards all buffers are clean and the disk alone holds everything |
| `CacheHistory.Session` | Coherent/sys.r12/coh.386/bio.c:1234-1640 | any sequence of reads, updates, replacements, read-aheads, syncs and I/O completions answers like direct access to the disks, and a final sync leaves the disks so |
| `CacheHistory.TwoClaims` | Coherent/sys.r12/coh.386/bio.c:1562-1640 | 32 read-aheads, a claim that sleeps, and another claim of the same block: both get a buffer for it |
| `CacheHistory.SleepThroughAll` | Coherent/sys.r12/coh.386/bio.c:1627-1634 | 32 read-aheads, a claim, and all the reads end before it sleeps: nothing wakes it, with 32 buffers free |
| `CacheHistory.ReleaseUnfilled` | Coherent/sys.r12/coh.386/bio.c:1187-1206 | a block claimed and released without having been filled: the buffer claims to have data it has not |
| `Pipe.WrappedDrop` | Coherent/sys.r12/coh.386/pipe.c:440-462 | reading from the front of the ring leaves the rest |
| `Pipe.WrappedStore` | Coherent/sys.r12/coh.386/pipe.c:525-562 | storing behind the contents appends to them |
| `Pipe.PipeNode.OpenRead` | Coherent/sys.r12/coh.386/pipe.c:275-306 | popen for reading sleeps exactly without writers and without O_NDELAY, and otherwise wakes the sleeping writers |
| `Pipe.PipeNode.ReopenRead` | Coherent/sys.r12/coh.386/pipe.c:288-303 | after the sleep of popen for reading; a signalled one strands sleeping writers exactly if it was the last reader |
| `Pipe.PipeNode.OpenWrite` | Coherent/sys.r12/coh.386/pipe.c:306-324 | popen for writing opens, sleeps or fails with ENXIO by the readers and the mode |
| `Pipe.PipeNode.ReopenWrite` | Coherent/sys.r12/coh.386/pipe.c:314-324 | the same for the other side |
| `Pipe.PipeNode.Close` | Coherent/sys.r12/coh.386/pipe.c:337-372 | everybody asleep is woken; the pipe is cleared exactly when nobody is left |
| `Pipe.PipeNode.Read` | Coherent/sys.r12/coh.386/pipe.c:393-468 | all that is there up to the count, in order; the empty cases by mode and writers; sleeping writers are woken |
| `Pipe.PipeNode.Write` | Coherent/sys.r12/coh.386/pipe.c:497-572 | a write of at most PIPE_MAX bytes enters whole or not at all, by an exact condition; of a longer one there enters, in every mode, all there is room for, except that a rest of at most PIPE_MAX bytes behind the ring's end waits; it stops only where pwrite cannot go on; readers are woken; a sleeping writer's write comes to fit, unnoticed, exactly when this one goes past the ring's end |
| `Pipe.PipeNode.FitsExactly` | Coherent/sys.r12/coh.386/pipe.c:527-533 | a write fits unless there is not the room or the room is split by the ring's end; an empty pipe takes any of at most PIPE_MAX bytes |
| `Pipe.PipeNode.Step` | Coherent/sys.r12/coh.386/pipe.c:145-570 | every step keeps ring, counters and sleepers right, strands sleepers exactly when an open is given up by the last of a kind, and leaves a writer asleep whose write fits exactly after a write past the ring's end |
| `Pipe.Run` | Coherent/sys.r12/coh.386/pipe.c:145-570 | over any interleaving: bytes delivered followed by the contents are the bytes accepted, i_pwx is (i_prx + i_pnc) mod PIPE_MAX, no reader and writer sleep at once in pread and pwrite |
| `Pipe.StrandWriter` | Coherent/sys.r12/coh.386/pipe.c:288-303 | six steps after which a writer sleeps in pwrite with no reader left |
| `Pipe.StrandReader` | Coherent/sys.r12/coh.386/pipe.c:314-324 | five steps after which a reader sleeps in pread with no writer left |
| `Pipe.OverlookWriter` | Coherent/sys.r12/coh.386/pipe.c:525-562 | with 1000 to 4999 in use, a write of 500 sleeps, a write of 120 goes in, and the 500 sleep on though they fit |
| `Pipe.LongWrite` | Coherent/sys.r12/coh.386/pipe.c:497-572 | a long write with its sleeps, and other processes in between: its bytes go into the pipe, and so come out, in their order |
| `Gates.UnlinkRing` | Coherent/sys.r12/coh.386/proc.c:770-773 | unlinking a node leaves a ring of the others in order |
| `Gates.AppendRing` | Coherent/sys.r12/coh.386/proc.c:680-688 | x_sleep's linking puts the process behind the last |
| `Gates.Kernel.Wakeup` | Coherent/sys.r12/coh.386/proc.c:716-787 | exactly the sleepers on the event move to the run queue, in order, although the scan restarts after each |
| `Gates.Kernel.GetNextProcess` | Coherent/sys.r12/coh.386/proc.c:310-352 | the idle process exactly when the run queue is empty; otherwise the last process of the queue unless another weighs more than its unmasked sum, and then the last of those that weigh most; its ageing counter is cleared, and the others' go up by one, but for the process that gives up and those that led on the way |
| `Gates.Kernel.Dispatch` | Coherent/sys.r12/coh.386/proc.c:365-408 | the process get_next_process chooses leaves the run queue and is the current one; every other list stays |
| `Gates.Kernel.Sleep` | Coherent/sys.r12/coh.386/proc.c:632-694 | the process is queued last on its event, the other events' lists stay, and another process runs |
| `Gates.Kernel.GateLock` | Coherent/sys.r12/coh.386/proc.c:794-828 | the gate is taken exactly when it is free; otherwise the process sleeps with the wanted flag set |
| `Gates.Kernel.GateUnlock` | Coherent/sys.r12/coh.386/proc.c:833-856 | nobody sleeps on the gate any more, and other sleepers stay |
| `Gates.Kernel.OnePlace` | Coherent/sys.r12/coh.386/proc.c:632-787 | every process is the current one or in exactly one list |
| `Gates.Run` | Coherent/sys.r12/coh.386/proc.c:632-856 | after any steps: whoever sleeps on a gate sleeps on a held one with its wanted flag set, no gate has two holders, every other process is in exactly one list |
| `Timers.UnlinkKeepsWheel` | Coherent/sys.r12/coh.386/timeout.c:86-92 | taking a timer off its list leaves every armed timer in the list of its tick |
| `Timers.LinkKeepsWheel` | Coherent/sys.r12/coh.386/timeout.c:109-122 | putting one on likewise |
| `Timers.Wheel.Timeout` | Coherent/sys.r12/coh.386/timeout.c:73-125 | the timer is armed for lbolt + n or cancelled, the others untouched |
| `Timers.Wheel.Timeout2` | Coherent/sys.r12/coh.386/timeout.c:127-186 | the same with n = 0 cancelling |
| `Timers.AllOnce` | Coherent/sys.r12/coh.386/clock.c:335-372 | the list of a tick has each due timer once, so it fires once, and no other |
| `Timers.Wheel.Tick` | Coherent/sys.r12/coh.386/clock.c:313-378 | the scan fires exactly the timers due at that tick and leaves the rest, stale ones included, though fired functions re-arm their own with any delay |
| `Timers.Wheel.CheckClock` | Coherent/sys.r12/coh.386/clock.c:313-378 | over an accumulated backlog each timer due in it has fired exactly once, at its tick, and the others, stale ones included, not at all |
| `Timers.ArmAndRun` | Coherent/sys.r12/coh.386/timeout.c:73-186 | a timer armed for n ticks, whatever happens to other timers: once lbolt has got there it has fired exactly once, at arming lbolt + n, if and only if n >= 1; with n = 0 it never fires; lbolt and the backlogs count every tick |
| `HexFile.TextByte` | SBC386/tools/hex2bin.c:137-163 | a byte written as two hexadecimal digits is read back |
| `HexFile.NibbleExactly` | SBC386/tools/hex2bin.c:137-153 | capital and small digits count alike, and nothing else is a digit |
| `HexFile.Reader.ScanLine` | SBC386/tools/hex2bin.c:457-508 | one line has the effect and the messages of the model, illegal digits and bad checksums included |
| `HexFile.RecordRead` | SBC386/tools/hex2bin.c:457-508 | a record with its length, type and zero sum draws no message |
| `HexFile.MessageExactly` | SBC386/tools/hex2bin.c:457-508 | a record inside the ROM draws a message exactly when its type is unknown, a digit in it is illegal or missing, or its bytes do not sum to zero |
| `HexFile.WrongSumReported` | SBC386/tools/hex2bin.c:504-507 | a record spelled in digits whose sum is not zero is reported |
| `HexFile.DataRead` | SBC386/tools/hex2bin.c:473-480 | a data record stores its bytes where address record and offset say, without overwriting |
| `HexFile.AddressRead` | SBC386/tools/hex2bin.c:484-495 | a linear or segment address record sets the upper address it was written for |
| `HexFile.SegmentRead` | SBC386/tools/hex2bin.c:484-489 | a segment record of any segment, on a 64K boundary or not, makes addresses count from 16 times its word |
| `HexFile.DataPlaces` | SBC386/tools/hex2bin.c:473-480 | each byte of a data record goes to its place, wrapping within 64K of a segment and going on in linear mode; everything else stays |
| `HexFile.PutLimits` | SBC386/tools/hex2bin.c:191-200 | data for addresses from 16 megabytes on is dropped; below that it must fit the ROM |
| `HexFile.Writer.EndRecord` | SBC386/tools/hex2bin.c:250-270 | the record ends with the byte that makes its sum zero |
| `HexFile.Writer.AddressRecord` | SBC386/tools/hex2bin.c:278-288 | the address record is by segment when that is asked for and the ROM has at most 0x100000 bytes, linear otherwise |
| `HexFile.Writer.WriteLba` | SBC386/tools/hex2bin.c:272-290 | an address record of that type is written exactly when the upper address changes |
| `HexFile.Writer.WriteData` | SBC386/tools/hex2bin.c:292-310 | a piece without the padding at its ends, read back, gives the piece; the record neither begins nor ends with padding, and there is none for padding alone |
| `HexFile.Writer.WriteHexFile` | SBC386/tools/hex2bin.c:312-334 | read into a buffer of the same padding, the file rebuilds the ROM with no message; every record sums to zero, none crosses 64K, and address records are of the one type |
| `HexFile.RoundTrip` | SBC386/tools/hex2bin.c:312-334 | bin2hex then hex2bin gives the ROM back for every image of 256 bytes to 16 megabytes, padding and addressing mode |
| `Copt.MatchIsSound` | SBC386/tools/copt.c:706-854 | after a successful match, subst of the pattern with the bindings left behind is the line |
| `Copt.MatchExtends` | SBC386/tools/copt.c:706-854 | match never changes a binding, in failed attempts neither |
| `Copt.SubstKept` | SBC386/tools/copt.c:865-896 | later bindings do not change what a matched pattern stands for |
| `Copt.RunStops` | SBC386/tools/copt.c:1053-1066 | where the scan has stopped no other way of passing over comments gets further |
| `CoptLines.Fails` | SBC386/tools/copt.c:728-732 | a failed attempt leaves nothing bound, or every variable as the next place that fits needs it, or there is no such place |
| `CoptLines.Finds` | SBC386/tools/copt.c:728-732 | the search finds the first place that fits, and exactly the texts of that place, whatever failed attempts have bound before |
| `CoptLines.MatchesExactly` | SBC386/tools/copt.c:706-854 | a pattern that meets the conditions on runs matches exactly the lines that some texts for its variables give, a variable at its end not empty |
| `CoptLines.CompleteExactly` | SBC386/tools/copt.c:706-854 | for every pattern and all texts, empty ones included: match finds every line the pattern stands for if and only if the pattern does not end in a variable, each run of adjacent variables has one that is used once, and one follows in the same run after the last use of a repeated variable |
| `CoptLines.CompleteButLastEmptyExactly` | SBC386/tools/copt.c:706-854 | the same for the lines in which a variable at the end of the pattern has some text: the two conditions on runs alone |
| `CoptLines.MissedBare` | SBC386/tools/copt.c:718-719 | a pattern that ends in a variable misses the line of its bare characters |
| `CoptLines.MissingTail` | SBC386/tools/copt.c:718-719 | a%1 misses the line a, and no other line |
| `CoptLines.MissedLast` | SBC386/tools/copt.c:728-740 | a line that is missed when a variable is repeated and after its last use none that is used once follows in the run |
| `CoptLines.MissedRun` | SBC386/tools/copt.c:728-740 | a line that is missed when a run has only repeated variables |
| `CoptLines.NoRepeats` | SBC386/tools/copt.c:706-854 | patterns without repeated variables meet the conditions on runs |
| `CoptLines.HarmlessRepeat` | SBC386/tools/copt.c:706-854 | %1%1%2; repeats a variable and misses no line, the shortest one included |
| `Copt.MatchIsIncomplete` | SBC386/tools/copt.c:728-740 | %1%1 stands for aa, which match misses, leaving the variable bound to the whole line |
| `Copt.Matcher.MatchLine` | SBC386/tools/copt.c:706-854 | the loops and the recursion compute that match, terminate, and count uses at the outermost level only |
| `Copt.Matcher.MatchRule` | SBC386/tools/copt.c:1053-1083 | the scan goes on until all old lines of the rule have matched, the source ends, or a line that is no comment does not match; a comment is passed over exactly when its first character differs or it does not match; the rule applies exactly when its old lines match in turn what is left, and then subst with the final bindings reproduces every matched line |

## Left out

- `rlock.c`: the RLOCK and prlock records are values in a sequence in list order; the `rl_next` links and the free list as a list of nodes are not modelled, only the number of free records.
- `LockTable.LockTable.RLock`: `getlock` and `freelock` are the counter of free records; copying the flock structure from and to user memory is left out.
- `KernelFs.FileSystem.VMap`: one run of neighbouring entries for each call, as with `t_groupmode` off, its default.
- `fs1.c`, `fs2.c`, `fs3.c`: inode times, device files and pipes as inodes, directories, `ialloc` and `ifree`, mount handling, I/O errors and faults in user memory. The buffer cache is seen through as a disk; `BufferCache` says why that is right.
- `KernelFs.FileSystem.BFree`: requires that the block is not already free; the duplicate-block path, which returns with the list still locked, is not modelled.
- `KernelFs.FileSystem.FWrite`: a claimed buffer holds arbitrary bytes until it is filled; partial transfers after a fault are left out.
- `cohfsw.py`: directories (`put` by name, `mkdir`, `rm`, `mknod`), `ialloc` and its inode cache, the labels and time in the superblock, a base offset other than 0, a number of inodes given to `mkfs`.
- `Superblock.PackSuper`: the inode cache, the volume names and the time of the superblock are not part of the model.
- `ImageWriter.FSW.Save`: likewise; writing the file always succeeds.
- `ImageWriter.FSW.Truncate`: starts from a non-empty free list, like `SetData` and `StoreFile`; what `bfree` does to an empty one is `ImageSession.FreeIntoEmptyExactly`.
- `ImageWriter.FSW.SetData`: starts from a non-empty free list.
- `ImageWriter.FSW.StoreFile`: starts from a non-empty free list.
- `ImageSession.Cat`: the file has no empty indirect slot before its end; what happens otherwise is `CohFs.ListIsMapExactly`.
- `CohFs.ListIsMapExactly`: about the list of blocks; the bytes may come out right by chance, when the blocks mixed up hold the same.
- `ImageSession.PutThenCat`: starts from a non-empty free list, because `bfree` into an empty one does not keep the chain.
- `Mkfs.MkFs`: the inode cache, the volume names and the times of superblock and inodes are not part of the model.
- `bio.c`: I/O errors, `getrbuf` and `freerbuf`, raw I/O, `bflush`, several processes in `bclaim` at once (`BufferCache.Cache.TakeOver` says what happens then).
- `BufferCache.Cache.SleepForBuffer`: a process whose sleep no transfer ends goes on only when some other process unlocks a buffer; for `BClaim` nothing has changed then.
- `BufferCache.Cache.BClaim`: the caller and everybody else hold no other buffer; the hash value is computed without 32-bit overflow.
- `BufferCache.Cache.BuildSyncList`: buffers locked by other processes, which it would wait for; likewise `GeneralSync`, `BRead` and `BSync`.
- `BufferCache.Cache.GeneralSync`: no buffer is held by a process.
- `BufferCache.Cache.BRead`: nobody holds another buffer.
- `BufferCache.Cache.BSync`: nobody holds a buffer.
- `CacheHistory.Session`: one caller at a time; two claims at once are `CacheHistory.TwoClaims`.
- `Pipe.PipeNode.Write`: the ring's blocks are there; a write cut short by a full volume is left out.
- `pipe.c`: polling, `pclean` (no buffer is seen), faults during the transfer, and `sendsig`.
- `Gates.Kernel.Wakeup`: one atomic step; the code enables interrupts for a moment each time it restarts the scan, and an interrupt may wake other processes there.
- `Gates.Kernel.Sleep`: signals taken before or after the sleep.
- `proc.c`: process creation and exit, signals taken in `x_sleep`, gates handed to interrupts, the parking of the idle loop. `process_set_runnable` is not part of this model's sources; it is taken to append to the run queue. Fairness of `get_next_process` is left out: the ageing counter wraps.
- `timeout.c`, `clock.c`: functions that touch other timers than their own, and the wrap of `lbolt`.
- `Timers.Wheel.CheckClock`: no clock interrupt comes while it runs; `Timers.ArmAndRun` takes its turns one by one, with interrupts between them but not inside a turn.
- `HexFile.Reader.ScanLine`: a line that is too short reads illegal digits; what the C code finds behind the line's end is not modelled.
- `hex2bin.c`: the S-record reader, relocation options, the CRC words.
- `copt.c`: the other percent forms, label counting, the line length limit, and what a rule does after it has matched.
- Device drivers, system-call wrappers and user interfaces are left out altogether.
