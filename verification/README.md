# Verified models of the xv6 storage stack, memory, processes, shell and map-reduce

A Dafny model of the algorithms at the heart of this repository, with proofs of what they promise
over every input, every interleaving and every crash point. `dafny verify dfyconfig.toml` checks the
whole project.

Each part has value-level modules (states, steps, lemmas over runs) and, where the source updates
things in place, classes whose methods carry the source's loops and are proved against those values.

- **Crash-safe storage.** `RedoLog` gives the disk after every single write of a commit or a recovery
  and proves crash atomicity; `LogLayer` proves the log's loops against it, crash point by crash
  point; `LogAdmission` interleaves file-system calls competing for log space; `BufferCache` and
  `BufferRing` are the MRU cache. `FsLayout`, `FsOwnership`, `FsTracking`, `FsMapping`, `FsContents`,
  `FsTruncate` and `FileSystem` are the block allocator, the blocks a change logs, block maps,
  byte-level reads and writes, truncation, and the chunking loop of `filewrite`; `FsBound` shows that
  a larger chunk would not fit a transaction. `FsImage` is the layout of blocks on the disk, and
  `FsCrash` joins the file system to the log: whatever crash hits a transaction of `filewrite`, the
  disk that recovery leaves mounts to the file before the chunk or after it. `Params`, `Options` and `Sets` hold
  kernel parameters, integer limits and a lemma on sets.
- **Memory.** `HeapBlocks` and `Heap` are the user heap with its circular free list; `PageFrames`,
  `Encryption` and `VirtualMemory` are the page allocator, two-level page tables and encrypted pages.
- **Processes.** `Processes` and `ProcTable` are fork, exit, wait, sleep, wakeup and kill; `Lottery`
  and `LotteryScheduler` are the lottery scheduler; `Pipe.dfy` (module `Pipes`) is the bounded pipe.
- **User programs.** `ShellTokens`, `ShellParser` and `ShellBuffer` are the shell's parser;
  `ShellSyntax` writes its command language down as derivations, `ShellLayout` says how a line spells
  tokens, and `ShellLanguage` proves that the parser accepts exactly that language; `KeyLists`, `MapReduce`, `Grouping`, `SequentialMapReduce` and `Submission` are the two
  map-reduce libraries; `HashMap` is the open-addressing map; `Grep` is the pattern matcher.

Some promises turn out not to hold of the code in general. For each the project keeps the code as it
is, gives a concrete failing case, and proves exactly when the promise does hold:

- The log can leave its region when two calls pass the guard of `log_write` before either stores
  (`UncheckedOverrun`); it stays inside in every run if and only if the region has more than LOGSIZE
  blocks, or none beside the header (`RegionSafeIff`). `mkfs` makes a region of exactly LOGSIZE.
- A commit may find as many blocks pinned as the cache has buffers (`AllBuffersPinned`), and then
  `bread` of a log block panics: in a cache no one uses, `bget` finds a buffer for a new block if and
  only if fewer than NBUF are pinned (`BufferFoundIff`).
- A killed writer that fills an empty pipe returns without waking the sleeping reader
  (`LostWakeup`); readers always sleep rightly if and only if no write section does that
  (`ReadersWokenIff`).
- `kill(0)` marks a free process slot, and the next process is born killed (`BornKilled`); free slots
  stay unmarked if and only if no `kill` hits one and no fork fails after its child was killed
  (`UnmarkedIff`).
- An encrypted page that begins with the byte 0xFF is lost by `mdecrypt`, which returns -1 after it
  has changed the flags; every other encrypted page comes back whole (`DecryptKeepsViewsIff`).
- The lottery's ticket total is right if and only if it fits an `int` (`TallyExact`,
  `TallyOverflows`). Live processes hold a ticket in every run (`RunsKeepTickets`), but a process
  asleep through 2^31 lotteries has a negative boost count (`BoostsOverflow`); boost counts stay
  non-negative throughout a run if and only if no lottery, and no wakeup before its time, meets a
  sleeper that holds 2^31 - 1 boosts (`BoostsKeptIff`).
- `malloc` returns a block that is memory of the process and holds the request if and only if the
  request is at most 2^32 - 8 bytes and either the free list has room for it or the bytes to ask
  `sbrk` for fit an `int` (`Malloc`), that is, a request of at most 2^31 - 16 bytes (`AskedFor`). From
  2^31 - 15 bytes on `sbrk` is asked to give memory back, and for 2^32 - 8 bytes it is asked for
  nothing (`AskedForNothing`).
- `mencrypt` encrypts all pages or fails, as promised, if and only if its check finds a page that is
  not a user page or every page of the range has a page table (`Mencrypt`). Past a missing table the
  code takes the word at user address 0 for a page-table entry, and can accept it
  (`PassesWithoutTable`).

## Model

| member | source | states |
|---|---|---|
| RedoLog.RecoverPrefix | p4/log.c:115-122 | a recovery stopped after any number of its writes leaves a disk that recovers to the same contents, and a whole one settles them |
| RedoLog.HeadCommits | p4/log.c:192-202 | once the first header write is done, the disk recovers to the new contents |
| RedoLog.CommitPrefix | p4/log.c:177-202 | a commit stopped anywhere recovers to the old contents before its first header write and to the new ones from then on |
| RedoLog.RebootsReach | p4/log.c:115-122 | however often recovery is interrupted and restarted, the one that completes reaches the same contents |
| RedoLog.CrashAtomicity | p4/log.c:69-122 | a commit stopped after any write, then any number of interrupted recoveries: the home blocks are all old or all new, decided by the first header write |
| RedoLog.CommitWhole | p4/log.c:192-202 | an uninterrupted commit installs exactly the new contents and empties the log |
| RedoLog.HistoryIsAtomic | p4/log.c:177-202 | over every history of transactions, crashes and reboots the home blocks are those of the surviving transactions, whole and in order |
| LogLayer.Log.constructor | p4/log.c:53-66 | booting from any disk a crash may leave gives the recovered disk and an empty log, through the crash points of a recovery |
| LogLayer.Log.WriteLog | p4/log.c:176-190 | the cached contents of all logged blocks end up in the log region, one crash point per write |
| LogLayer.Log.WriteHead | p4/log.c:98-113 | one write puts the in-memory header on the disk |
| LogLayer.Log.InstallTrans | p4/log.c:68-82 | log blocks are copied to their home blocks in order, one crash point per write |
| LogLayer.Log.Commit | p4/log.c:192-202 | the writes of commit are exactly the stages of the crash model, and the cache view is on the disk afterwards |
| LogLayer.Log.EndOp | p4/log.c:143-174 | the last operation out commits: the home blocks then hold the pinned contents, or else what the disk held, and every crash point on the way is a stage of a commit |
| LogLayer.Log.LogWrite | p4/log.c:213-233 | the block is logged once (absorption), pinned, and refused with the source's two panics |
| LogLayer.Log.ReadHead | p4/log.c:84-96 | the in-memory header becomes the one on the disk |
| LogLayer.Log.RecoverFromLog | p4/log.c:115-122 | recovery's writes are exactly the stages of the crash model and leave nothing pending |
| LogLayer.AbsorbKeeps | p4/log.c:223-230 | absorption keeps the logged blocks distinct and adds at most the one block |
| LogLayer.CommitInstallsCache | p4/log.c:177-202 | a complete commit moves exactly the cached view of every home block onto the disk |
| LogAdmission.BeginKeeps | p4/log.c:124-141 | an admitted operation has its whole budget free in the log beside those of all others, and a refused one sleeps while an operation or a commit is there to wake it |
| LogAdmission.EndKeeps | p4/log.c:143-174 | the end of an operation gives back its budget and wakes the sleepers, so that none is left asleep without an operation or a commit |
| LogAdmission.StepKeeps | p4/log.c:124-174 | every step of begin_op, log_write, end_op and commit keeps log entries plus unused budgets within LOGSIZE |
| LogAdmission.RunsKeepInv | p4/log.c:124-233 | every interleaving of those steps keeps log entries plus unused budgets within LOGSIZE |
| LogAdmission.AdmissionSafety | p4/log.c:126-174 | in every run each slot index is in range, committing excludes outstanding operations, and a sleeper in begin_op is never alone |
| LogAdmission.NoLostWakeup | p4/log.c:124-174 | in every run begin_op's test fails for as long as a process sleeps in it; after an end_op a process still sleeps only if the commit has begun, and after a commit none does |
| LogAdmission.FreshWriteAccepted | p4/log.c:214-221 | a new block within its operation's budget is refused only by a log region of at most LOGSIZE blocks |
| LogAdmission.UncheckedOverrun | p4/log.c:218-230 | with a region of at most LOGSIZE blocks two operations that both pass the guard push the log past its region |
| LogAdmission.RegionSafeIff | p4/log.c:214-233 | the log stays inside its region in every run if and only if the region has more than LOGSIZE blocks or only its header |
| LogAdmission.AllBuffersPinned | p4/log.c:143-233 | with a region of at least LOGSIZE blocks some run commits a log of NBUF blocks, all buffers of the cache |
| LogAdmission.FullLogRefusesAbsorption | p4/log.c:218-219 | a full log panics even on a block it already holds |
| BufferCache.StepKeepsInv | p4/bio.c:61-141 | every step keeps one buffer per block, clean buffers equal to the disk, and the list a permutation of all buffers |
| BufferCache.StepKeepsView | p4/bio.c:61-141 | only the holder of a buffer's lock changes what a block reads as |
| BufferCache.StepKeepsPin | p4/bio.c:81-91 | a pinned buffer keeps its block and data until bwrite |
| BufferCache.CacheIsTransparent | p4/bio.c:58-141 | over every interleaving a block reads as what was last stored through its buffer |
| BufferCache.PinnedUntilWritten | p4/log.c:223-232 | a block pinned by log_write stays in its buffer, and no other block can get that buffer, until it is written |
| BufferCache.StepWrites | p4/bio.c:108-116 | the disk changes only by bwrite, which puts there what the block reads as |
| BufferCache.WriteIsDurable | p4/bio.c:108-116 | over every interleaving, once bwrite has returned the disk holds what was last stored in the block, and keeps it until a holder of the buffer stores something else |
| BufferCache.OldestRecycled | p4/bio.c:78-141 | over every run no free clean buffer was given up before the one bget recycles |
| BufferCache.BufferFoundIff | p4/bio.c:78-92 | while no process uses a buffer, bget finds one for a block not cached if and only if fewer than NBUF blocks are pinned |
| BufferRing.InsertRing | p4/bio.c:49-55 | inserting behind the head keeps the prev/next ring |
| BufferRing.RemoveRing | p4/bio.c:132-133 | unlinking keeps the ring of the others |
| BufferRing.MoveRing | p4/bio.c:130-138 | unlinking and relinking at the front is moving to the front |
| BufferRing.Bcache.constructor | p4/bio.c:38-56 | binit links all buffers into one ring |
| BufferRing.Bcache.FindCached | p4/bio.c:68-76 | the scan finds the buffer of the block if there is one |
| BufferRing.Bcache.FindVictim | p4/bio.c:78-91 | the backward scan finds the least recently used free clean buffer |
| BufferRing.Bcache.Bget | p4/bio.c:58-93 | looks up the block's buffer or recycles the last free clean one of the ring, changing that buffer alone, or panics when none is free |
| BufferRing.Bcache.Bread | p4/bio.c:95-106 | the buffer then holds the block as the cache model reads it |
| BufferRing.Bcache.Bwrite | p4/bio.c:108-116 | the disk block becomes the buffer's data, every other block stays, and the buffer is clean |
| BufferRing.Bcache.Brelse | p4/bio.c:118-141 | the lock and one reference are given up; with the last reference the buffer moves to the front, the others keep their order, ring intact |
| FsLayout.TestWithBit | p4/fs.c:66-69 | setting or clearing one bit of the free map changes that bit alone |
| FsLayout.WordLittleEndian | p4/fs.c:386-397 | an entry of an indirect block is the little-endian value of its four bytes |
| FsOwnership.OneOwner | p4/fs.c:373-400 | two slots never hold the same block |
| FsOwnership.AttachOwned | p4/fs.c:57-78 | a newly allocated block put into an empty slot keeps the ownership invariant |
| FsOwnership.PutOwned | p4/fs.c:495-504 | overwriting a data block changes no slot and no bit |
| FsMapping.MappedThroughNew | p4/fs.c:386-397 | allocating the indirect block and then an entry maps the block and disturbs no other file |
| FsTracking.AttachLogs | p4/fs.c:54-78 | every block that allocating into a slot changes on the disk is logged, and only data, bitmap and inode blocks are |
| FsContents.SpliceStep | p4/fs.c:495-504 | one turn of writei's loop puts its bytes in place and changes no others |
| FsContents.SplicedContents | p4/fs.c:482-511 | after the loop the file is the old byte sequence with the data spliced in |
| FsContents.OthersKept | p4/fs.c:482-511 | every other file keeps every byte |
| FsContents.ContentsOnDisk | p4/fs.c:370-400 | byte p of a file stands at p % 512 of direct block p / 512, or of the block named by word p / 512 - 12 of the indirect block |
| FsContents.FinishLogs | p4/fs.c:482-511 | one writei on a file without holes logs at most LogBound blocks |
| FsContents.FinishedLogs | p4/fs.c:482-511 | whatever differs on the disk after a writei is in its transaction |
| FsContents.ChunkFitsTransaction | p4/file.c:127-145 | at every offset a filewrite chunk logs at most MAXOPBLOCKS blocks |
| FsContents.ChunkIsLargest | p4/file.c:133-138 | filewrite's chunk size is the largest for which the bound LogBound stays within MAXOPBLOCKS at every offset |
| FsBound.WideOwned | p4/fs.c:54-95 | a disk with one free block under each of five bitmap blocks meets the ownership invariant |
| FsBound.BoundReached | p4/fs.c:495-509 | on that disk every finished write of one byte more than a chunk after the direct blocks logs at least LogBound blocks, more than MAXOPBLOCKS |
| FsBound.ChunkTooLarge | p4/file.c:133-138 | such a write exists: a chunk of one byte more can overflow its transaction |
| FsContents.ReadSlice | p4/fs.c:470-474 | a chunk read from one block is a slice of the file |
| FsContents.SpliceTwice | p4/file.c:135-152 | two adjacent writes are one |
| FsContents.AcceptedExact | p4/file.c:126-153 | from an offset inside the file filewrite gets all n bytes in if they fit the largest file, and otherwise exactly the whole chunks that do |
| FsTruncate.StillMarked | p4/fs.c:81-95 | the block in a slot not yet freed is still marked, so bfree does not panic on it |
| FsTruncate.FreedAll | p4/fs.c:408-435 | after all frees exactly the inode's blocks are free, each freed once; the inode has no address and size 0, its other fields, all block contents and other files are untouched |
| FileSystem.FileSystem.FindFree | p4/fs.c:57-78 | the scan finds the first clear bit, or all are set |
| FileSystem.FileSystem.Balloc | p4/fs.c:54-78 | takes the first free block, marks it and zeroes it; fails only on a full disk |
| FileSystem.FileSystem.Bmap | p4/fs.c:370-400 | the address of block bn, allocated if missing, ownership and all file bytes kept |
| FileSystem.FileSystem.Writei | p4/fs.c:479-511 | rejected calls change nothing; otherwise the file is the spliced byte sequence, size the maximum, on-disk inode up to date, other files untouched, log use bounded |
| FileSystem.FileSystem.Readi | p4/fs.c:450-476 | returns exactly the clamped slice of the file and changes nothing |
| FileSystem.FileSystem.Bfree | p4/fs.c:80-95 | clears the bit of a block in use; panics exactly on a free one |
| FileSystem.FileSystem.Itrunc | p4/fs.c:402-435 | never panics; the inode is empty, its blocks free, everything else as before, and every block that changed on the disk is logged |
| FileSystem.FileSystem.WriteTransaction | p4/file.c:140-145 | one chunk in one transaction of at most MAXOPBLOCKS blocks, which holds every block that changed |
| FileSystem.FileSystem.Filewrite | p4/file.c:126-153 | the accepted prefix of the data is spliced in, the result is n or -1 accordingly, every transaction fits |
| FsCrash.TransactionAtomic | p4/log.c:177-202 | a transaction of up to LOGSIZE blocks cut after any write of its commit, with any interrupted recoveries, leaves a disk with the file system from before it or from after it |
| FsImage.RawLossless | p4/fs.h:29-36 | blocks of data, bitmap blocks and blocks of inodes can each be read back from the bytes on the disk |
| FsCrash.MountedOwned | p4/fs.c:54-95 | a mounted disk has a consistent free map: every block in use is marked and belongs to one slot |
| FsCrash.MountedFile | p4/fs.c:373-400 | a mounted disk has exactly the files of the file system it shows |
| FsCrash.FilewriteAtomic | p4/file.c:126-153 | after a crash anywhere in the transaction of a filewrite chunk the recovered disk mounts, and to nothing but the file with the bytes before the chunk or with the chunk as well, every other file as it was, and a consistent free map |
| FsContents.SmallOwned | p4/fs.c:54-95 | a two-block disk with one small file meets the ownership invariant and has no holes |
| HeapBlocks.FreedGapped | p4/umalloc.c:25-44 | freeing keeps the list in address order with no two adjacent blocks |
| HeapBlocks.FreedCovers | p4/umalloc.c:33-42 | the free memory grows by exactly the freed block |
| HeapBlocks.TakenGapped | p4/umalloc.c:75-82 | taking a block keeps the list in order with no two adjacent blocks, and what is taken overlaps nothing that is left |
| HeapBlocks.TakenCovers | p4/umalloc.c:75-82 | taking splits the free memory into what is left and the block |
| HeapBlocks.FreeUndoesTake | p4/umalloc.c:25-90 | freeing the block just taken restores the free list exactly |
| Heap.FreedLinked | p4/umalloc.c:33-43 | free's header writes link exactly the merged list into one cycle |
| Heap.TakenLinked | p4/umalloc.c:75-84 | malloc's header writes link exactly the remaining list |
| Heap.StopsAt | p4/umalloc.c:30-32 | free's search condition holds at exactly one node of the cycle |
| Heap.FreedReady | p4/umalloc.c:25-44 | free keeps headers, order, exclusive blocks and the exact tiling of the heap |
| Heap.TakenReady | p4/umalloc.c:75-84 | taking a block keeps headers, order, exclusive blocks and the exact tiling of the heap |
| Heap.GrownReady | p4/umalloc.c:52-59 | memory from sbrk extends the tiled heap as one held block until it is freed in |
| Heap.WalkStep | p4/umalloc.c:74-86 | a turn of malloc's walk either ends the cycle with no fit or moves one node on |
| Heap.UnitsHoldRequest | p4/umalloc.c:69-69 | the units malloc looks for hold the request, and less than 8 bytes more, if and only if it is at most 2^32 - 8 bytes |
| Heap.AskedFor | p4/umalloc.c:52-54 | which requests make morecore ask sbrk for memory, for none, or give memory back, by the wrapped int it passes |
| Heap.AskedForNothing | p4/umalloc.c:52-54 | for 2^32 - 8 bytes sbrk is asked for 0 bytes, for 2^31 bytes it is asked to give memory back |
| Heap.UsableIff | p4/umalloc.c:46-90 | a served block is memory of the process and holds the request if and only if the request does not wrap and came from the list or was asked of sbrk in full |
| Heap.Heap.FindPrev | p4/umalloc.c:29-32 | free's search terminates at the node before the block's place |
| Heap.Heap.Free | p4/umalloc.c:24-44 | the block leaves the allocated set and is merged into the list, all else kept |
| Heap.Heap.Morecore | p4/umalloc.c:46-61 | frees at least 4096 units into the list so that the request fits, or changes nothing; the process has gained what the wrapped int asked for |
| Heap.Heap.Locate | p4/umalloc.c:70-89 | the walk ends at the first fit from freep, growing the heap once, or fails exactly when nothing fits and sbrk fails |
| Heap.Heap.Malloc | p4/umalloc.c:63-90 | terminates; takes the first fit from freep; fails exactly when nothing fits and sbrk fails; blocks stay exclusive and tile the heap; and exactly when the block is usable memory |
| PageFrames.AllReturned | p4/vm.c:291-306 | when a space is gone every frame it owned is on the free list exactly once |
| PageFrames.TakeKeeps | p4/kalloc.c:82-96 | kalloc keeps one owner per frame |
| PageFrames.GiveKeeps | p4/kalloc.c:59-77 | kfree keeps one owner per frame |
| Encryption.RecodedViews | p4/vm.c:425-507 | changing flags and flipping bytes preserves every plaintext if and only if bytes are flipped exactly when PTE_E changes |
| Encryption.TabledCheck | p4/vm.c:358-369 | where every page has a table the check succeeds exactly on user pages, whatever stands at address 0 |
| Encryption.PassesWithoutTable | p4/vm.c:466-476 | in a process of 4MB whose first word is 0x405 the check accepts a page without a page table |
| VirtualMemory.SkipTable | p4/vm.c:274-276 | a missing table maps no page, so the 4MB skip frees what going page by page would |
| VirtualMemory.DecryptKeepsViewsIff | p4/vm.c:425-455 | mdecrypt of an encrypted page succeeds and keeps its plaintext if and only if the first byte is not 0xFF |
| VirtualMemory.DecryptPlainPage | p4/vm.c:425-455 | mdecrypt of a plain page does harm exactly when it is a user page whose first byte is not 0 |
| VirtualMemory.CopiedViews | p4/vm.c:333-347 | parent and child see the same plaintext |
| VirtualMemory.KernelTableIff | p4/vm.c:114-144 | setupkvm makes a table for a directory entry exactly if kmap maps an address under it |
| VirtualMemory.PageStart | p4/vm.c:234-241 | PGROUNDUP: a page lies past those that hold sz bytes exactly when it starts at or past sz |
| VirtualMemory.Vm.Freerange | p4/kalloc.c:46-53 | the new frames, and only they, join the free list |
| VirtualMemory.Vm.Kalloc | p4/kalloc.c:79-96 | takes the head of the free list and nothing else, or fails exactly when it is empty |
| VirtualMemory.Vm.Kfree | p4/kalloc.c:55-77 | the frame goes to the head of the free list, every byte of it 1; no user page is touched |
| VirtualMemory.Vm.WalkAlloc | p4/vm.c:35-57 | the directory entry has a table afterwards, or nothing changed |
| VirtualMemory.Vm.MapPage | p4/vm.c:59-88 | the page is mapped with exactly one of PTE_P and PTE_E, or nothing changed |
| VirtualMemory.Vm.Deallocuvm | p4/vm.c:259-287 | a page is unmapped and its frame freed exactly if it starts at or past the new size and before the old one; all other pages and bytes are kept |
| VirtualMemory.Vm.Allocuvm | p4/vm.c:227-257 | on success exactly the pages that start at or past the old size and before the new one are added, each with its own zeroed frame, so that every address below the new size has a page; otherwise the user mappings are restored exactly |
| VirtualMemory.Vm.Freevm | p4/vm.c:289-306 | the space is gone, no frame lost, other spaces untouched |
| VirtualMemory.Vm.Setupkvm | p4/vm.c:125-144 | a new directory with the kernel's tables and no user page, or nothing changed |
| VirtualMemory.Vm.Copyuvm | p4/vm.c:321-353 | for every address below the size the child has a page with the parent's flags and the parent's byte in a frame of its own, or nothing is left behind |
| VirtualMemory.Vm.Mencrypt | p4/vm.c:457-507 | it succeeds with every page encrypted or fails with nothing touched, if and only if the check fails on a page or every page of the range has a table; each byte of a page not encrypted before is then inverted; unless it faults no plaintext changes |
| VirtualMemory.Vm.Mdecrypt | p4/vm.c:425-455 | flags, result and bytes for every page, and exactly when the plaintext survives |
| Processes.ForkKeeps | p4/proc.c:73-92 | allocating a slot keeps family, waiting and pid invariants |
| Processes.ExitKeeps | p4/proc.c:250-266 | exit keeps family, waiting and pid invariants: the parent is woken, orphans go to init, init is told of dead ones |
| Processes.WaitKeeps | p4/proc.c:279-311 | a scan of wait, reaping or sleeping, keeps family, waiting and pid invariants |
| Processes.WaitFindsZombie | p4/proc.c:282-301 | wait never sleeps or fails while a child is a zombie |
| Processes.StepKeeps | p4/proc.c:181-312 | every step keeps the invariant |
| Processes.NoLostExit | p4/proc.c:227-312 | in every reachable table zombies have live parents, nobody sleeps in wait beside a zombie child, every exit is reaped or waiting to be, no pid is reaped twice |
| Processes.StepMarks | p4/proc.c:479-497 | a step marks a free slot killed exactly when kill finds it first or a killed fork fails |
| Processes.UnmarkedIff | p4/proc.c:479-497 | free slots stay unmarked throughout a run if and only if no step does that |
| Processes.BornKilled | p4/proc.c:479-497 | kill(0) makes the next forked process start out killed |
| ProcTable.ProcTable.constructor | p4/proc.c:119-154 | the table after userinit satisfies the invariant |
| ProcTable.ProcTable.Wakeup1 | p4/proc.c:457-465 | exactly the sleepers on the channel become runnable |
| ProcTable.ProcTable.Allocproc | p4/proc.c:73-92 | takes the first unused slot, with the next pid, and no other; fails exactly when no slot is unused |
| ProcTable.ProcTable.AbandonChildren | p4/proc.c:255-262 | children go to init, which is woken exactly if one is a zombie |
| ProcTable.ProcTable.Exit | p4/proc.c:250-266 | the process becomes a zombie, its children go to init, its parent is woken if asleep in wait, and init if it got a zombie; every other field is kept |
| ProcTable.ProcTable.Wait | p4/proc.c:279-311 | reaps a zombie child, clearing its slot, exactly when there is one; otherwise sleeps, or fails exactly when it has no child or is killed |
| ProcTable.ProcTable.Sleep | p4/proc.c:438-442 | the process, and no other, sleeps on the channel |
| ProcTable.ProcTable.Kill | p4/proc.c:476-497 | the first process with the pid is marked killed and, if asleep, made runnable, no other process and no other field changed; 0 exactly when the pid is in the table |
| Lottery.OneWinner | p2A/xv6-public/proc.c:34-45 | each draw below the total picks exactly one RUNNABLE process |
| Lottery.ExactShare | p2A/xv6-public/proc.c:30-45 | a RUNNABLE process wins exactly as many draws as it has tickets, twice as many while boosted, and any other process none |
| Lottery.SharesAddUp | p2A/xv6-public/proc.c:380-393 | the total is the sum of all shares: a draw for every ticket and no other |
| Lottery.NoTickets | p2A/xv6-public/proc.c:380-393 | the total is zero exactly when nothing is RUNNABLE |
| Lottery.TallyExact | p2A/xv6-public/proc.c:382-392 | the wrapped sum is the ticket total if and only if the total fits an int |
| Lottery.TallyOverflows | p2A/xv6-public/proc.c:382-394 | a boosted process with 2^30 tickets makes the sum negative |
| Lottery.StepKeeps | p2A/xv6-public/proc.c:131-138 | each step keeps tickets of live processes at least 1 |
| Lottery.RunsKeepTickets | p2A/xv6-public/proc.c:260-266 | in every run live processes hold between 1 and 2^31 - 1 tickets |
| Lottery.TicketsFlow | p2A/xv6-public/proc.c:131-138 | tickets change only by allocation (one), the end of fork (the parent's) and settickets |
| Lottery.BoostsFlow | p2A/xv6-public/proc.c:46-53 | a lottery takes one boost from each RUNNABLE process that has any and gives one to each sleeper; a wakeup before its time gives one; nothing else changes boosts |
| Lottery.StepKeepsBoosts | p2A/xv6-public/proc.c:46-53 | a step keeps boost counts non-negative exactly when it gives no boost to a sleeper that holds 2^31 - 1 |
| Lottery.BoostsKeptIff | p2A/xv6-public/proc.c:514-530 | boost counts stay non-negative throughout a run if and only if no step does that |
| Lottery.BoostsOverflow | p2A/xv6-public/proc.c:46-53 | a process asleep through 2^31 lotteries has a negative boost count |
| LotteryScheduler.Scheduler.SumTickets | p2A/xv6-public/proc.c:380-392 | the loop computes the wrapped sum |
| LotteryScheduler.Scheduler.FindWinner | p2A/xv6-public/proc.c:30-45 | the walk finds the process among whose tickets the draw falls |
| LotteryScheduler.Scheduler.UpdateBoosts | p2A/xv6-public/proc.c:46-53 | RUNNABLE processes use up a boost, SLEEPING ones earn one |
| LotteryScheduler.Scheduler.Round | p2A/xv6-public/proc.c:380-411 | one scheduler round picks the process its draw falls on and updates every boost; with a sum that is not positive it does nothing |
| LotteryScheduler.Scheduler.SetTickets | p2A/xv6-public/sysfile.c:495-518 | sets the tickets of the pid, refusing negative pids and non-positive counts |
| LotteryScheduler.Scheduler.Wakeup1 | p2A/xv6-public/proc.c:514-530 | sleepers whose time is up by an unsigned comparison wake, the others earn a boost |
| LotteryScheduler.Scheduler.Allocproc | p2A/xv6-public/proc.c:131-138 | takes the first unused slot, with one ticket and no boost; no other process changes; fails exactly when no slot is unused |
| Pipes.Pipe.constructor | p4/pipe.c:31-37 | an empty pipe with both ends open |
| Pipes.Pipe.WriteSection | p4/pipe.c:78-98 | accepts exactly the bytes that fit, in order; is done if and only if all fit, and otherwise leaves the pipe full and fails if and only if the reader is gone or the writer killed, for wrapped counters too |
| Pipes.Pipe.ReadSection | p4/pipe.c:100-121 | returns the oldest bytes in flight, n of them or all there are; sleeps or fails exactly when there are none and the write end is open |
| Pipes.FullTest | p4/pipe.c:85-85 | the wrapped counters compare as full exactly when PIPESIZE bytes are in flight |
| Pipes.SlotOf | p4/pipe.c:93-93 | the ring slot is not disturbed when the counter wraps |
| Pipes.StepKeeps | p4/pipe.c:59-121 | every section keeps the invariant; histories only grow |
| Pipes.RunsKeepInv | p4/pipe.c:59-121 | over every interleaving delivered bytes are a prefix of accepted ones, at most PIPESIZE in flight, each writer's bytes enter in order once, sleeping writers face a full pipe |
| Pipes.StepWakesReaders | p4/pipe.c:84-95 | a section leaves readers asleep wrongly exactly when it fills the pipe and then fails beside a sleeping reader |
| Pipes.ReadersWokenIff | p4/pipe.c:78-121 | readers sleep rightly throughout a run if and only if no section does that |
| Pipes.NeverBothAsleep | p4/pipe.c:78-121 | in such runs readers and writers are never asleep together |
| Pipes.LostWakeup | p4/pipe.c:85-89 | a killed writer of more than PIPESIZE bytes leaves a reader asleep beside a full pipe |
| ShellTokens.GetToken | p4/sh.c:265-308 | the scanning loops compute the token and the next position |
| ShellTokens.Peek | p4/sh.c:310-320 | says whether the next token starts with one of the symbols, losing no token |
| ShellParser.ParseRedirs | p4/sh.c:374-397 | the loop returns the redirections the grammar gives, or fails where it panics |
| ShellParser.ParseArgs | p4/sh.c:429-446 | the words and redirections of a simple command, fewer than MAXARGS words |
| ShellParser.ParseBlock | p4/sh.c:399-413 | a parenthesised line and its redirections |
| ShellParser.ParseExec | p4/sh.c:415-446 | returns the simple command or block the grammar gives, or fails where it panics |
| ShellParser.ParsePipe | p4/sh.c:361-372 | returns the right-nested pipeline the grammar gives, or fails where it panics |
| ShellParser.ParseLine | p4/sh.c:344-359 | returns the list of background and plain pipelines the grammar gives, or fails where it panics |
| ShellParser.ParseCmd | p4/sh.c:327-342 | terminates on every line; succeeds exactly on the lines of the grammar, with every word a word of the line |
| ShellSyntax.ParseComplete | p4/sh.c:344-446 | the parser accepts the tokens of every derivation of the command language, with the derivation's command: `<` redirects input, `>` and `>>` output, the first redirection innermost, pipes and lists to the right |
| ShellSyntax.ParseSound | p4/sh.c:344-446 | whatever it accepts is such a derivation of the command it returns |
| ShellLayout.ScanLayout | p4/sh.c:265-308 | tokens written with any white space between them, or none where they cannot run together, scan to those tokens |
| ShellLayout.LayoutOf | p4/sh.c:265-308 | every line is such a writing of the tokens scanned from it |
| ShellLanguage.WrittenParses | p4/sh.c:265-446 | every way to write a derivation, with any spacing and `>` or `>>` for any redirection of output, parses to its command |
| ShellLanguage.ParserExact | p4/sh.c:327-446 | a line parses to a command if and only if the rules of the language say that it stands for it |
| ShellLanguage.CommandsExact | p4/sh.c:327-446 | exactly the commands with legal words, fewer than MAXARGS per simple command, can be written as a line and come back when it is parsed |
| ShellBuffer.NulTerminate | p4/sh.c:448-493 | writes NULs at exactly the ends of the tree's words |
| ShellBuffer.WordReads | p4/sh.c:463-472 | a terminated word reads from the buffer as exactly its token |
| ShellBuffer.ParseBuffer | p4/sh.c:327-342 | the tree whose strings stand in the buffer afterwards is the one the grammar gives |
| KeyLists.AddValueKeeps | p3a/mapreduce.c:137-141 | a further value joins its key's group and changes no other |
| KeyLists.AddNodeKeeps | p3a/mapreduce.c:142-154 | a new key gets a group of its own |
| KeyLists.DropValueKeeps | p3a/mapreduce.c:177-180 | taking one of several values shrinks its group by that value |
| KeyLists.UnlinkKeeps | p3a/mapreduce.c:182-188 | taking the last value removes the key and no other |
| KeyLists.LessIff | p3a/mapreduce.c:202-215 | the order of keys is decided at their first difference, where one ends or has the smaller character |
| KeyLists.InsertSorted | p3a/mapreduce.c:202-215 | inserting before the first larger key keeps the list strictly increasing |
| KeyLists.ResortedHolds | p3a/mapreduce.c:217-228 | sorting loses no key and no value |
| MapReduce.Partition.Search | p3a/mapreduce.c:115-128 | finds the key's node if it has one |
| MapReduce.Partition.Add | p3a/mapreduce.c:130-155 | the value is added to the key's group |
| MapReduce.Partition.FindPrev | p3a/mapreduce.c:157-168 | on a sorted list, the node before the key's |
| MapReduce.Partition.Get | p3a/mapreduce.c:170-192 | takes one value of the key, none exactly when it has none; order and other keys kept |
| MapReduce.Partition.InsertHelper | p3a/mapreduce.c:202-215 | links the node in at its place |
| MapReduce.Partition.InsertionSort | p3a/mapreduce.c:217-228 | the list is strictly increasing and the groups unchanged |
| MapReduce.Partition.Drain | p3a/mapreduce.c:170-192 | draining a key yields exactly the multiset of its values and disturbs no other key |
| MapReduce.Partition.EmitAll | p3a/mapreduce.c:299-305 | any series of emits gives the groups of those pairs |
| Grouping.GroupAnyOrder | p3a/mapreduce.c:130-155 | the groups do not depend on the order of emits |
| Grouping.PartitionGroup | p3a/mapreduce.c:299-305 | a key's group is whole in its own partition and absent from the others |
| SequentialMapReduce.Library.MrEmit | p3a/sequential_mapreduce.c:28-34 | exactly the one value of the one key is counted once more; no other key's values change |
| SequentialMapReduce.Library.Draw | p3a/sequential_mapreduce.c:36-46 | drawing until the getter gives nothing yields all values of the key and stops at the next key |
| SequentialMapReduce.Library.MrRun | p3a/sequential_mapreduce.c:72-89 | reduces each key once, in increasing order, with exactly its values |
| Submission.StepKeeps | p3a/mapreduce.c:271-283 | submissions, moves of the walk and gets keep the walk's place in the list |
| Submission.EachKeyOnce | p3a/mapreduce.c:271-283 | a finished walk has submitted every key once, in order, however reducers unlinked nodes meanwhile |
| Submission.SameValues | p3a/sequential_mapreduce.c:72-89 | every key's group in its partition is what the sequential library's reducer draws |
| Submission.SameKeysReduced | p3a/sequential_mapreduce.c:72-89 | no partition holds a key the sequential library does not reduce |
| Submission.RunsConserve | p3a/mapreduce.c:170-192 | throughout a run the values still in the list and those taken make up exactly the groups at the start |
| Submission.ReducersTakeGroups | p3a/mapreduce.c:170-192 | in a finished run the reducer of each key has taken exactly the values of that key |
| Submission.SameReductions | p3a/mapreduce.c:252-295 | in any finished interleaving the keys reduced in a partition are those of the sequential library's calls that belong to it, each once, with the values of those calls |
| HashMap.Missing | p3a/hashmap.c:63-72 | a probe that reaches an empty slot has missed nothing |
| HashMap.PutKeeps | p3a/hashmap.c:41-56 | filling the slot a probe ended at updates the map |
| HashMap.FreeSlot | p3a/hashmap.c:41-52 | a table with fewer keys than slots has an empty slot |
| HashMap.HashMap.constructor | p3a/hashmap.c:13-21 | the empty map with capacity 11 |
| HashMap.HashMap.Get | p3a/hashmap.c:60-73 | agrees with the mathematical map |
| HashMap.HashMap.Put | p3a/hashmap.c:23-58 | updates the mathematical map; size is its cardinality and at most capacity/2 + 1 |
| HashMap.HashMap.Resize | p3a/hashmap.c:80-116 | twice the capacity, the same map |
| HashMap.HashMap.Size | p3a/hashmap.c:75-78 | the cardinality of the map |
| Grep.BeginsCons | p4/grep.c:85-106 | a piece for an item followed by a match of the rest is a match |
| Grep.BeginsSplit | p4/grep.c:85-106 | every match splits that way |
| Grep.ShowParse | p4/grep.c:84-106 | every pattern string is its parsed items written out |
| Grep.ParseShow | p4/grep.c:84-106 | items written out parse back to themselves, unless a character would take a star that is not its own or a last $ be an anchor |
| Grep.SubstringSearch | p4/grep.c:72-96 | a pattern of characters and dots matches exactly where it is a substring, a dot standing for any character, and after ^ only at the beginning |
| Grep.StarWhole | p4/grep.c:98-106 | ^c*$ matches exactly the texts of nothing but c, or every text if c is a dot |
| Grep.MatchHere | p4/grep.c:84-96 | true exactly when the text begins with a string of the pattern's language |
| Grep.MatchStar | p4/grep.c:98-106 | the same for a starred item and the rest |
| Grep.Match | p4/grep.c:72-82 | true exactly when some position (only the start for ^) begins a match |

## Left out

- LogLayer.Log.WriteLog: takes it that `bread` finds a buffer for each log block, which BufferCache.BufferFoundIff says of fewer than NBUF pinned blocks; the panic at NBUF is not modelled.
- LogLayer.Log.Commit: takes the same for write_log and install_trans.
- FileSystem.FileSystem.Writei: hands device inodes back as ToDevice; the device switch itself is not modelled.
- FileSystem.FileSystem.Readi: hands device inodes back as ToDevice in the same way.
- FileSystem.FileSystem.Filewrite: on inodes only; the dispatch to pipes and the file table's reference counts are not modelled, nor another writer that takes the inode lock between two chunks.
- Heap.Heap.Malloc: starts from a heap all of whose memory exists; once a block without memory has been handed out nothing more is promised. Addresses count headers and do not wrap, and a failing sbrk is taken to change nothing (asked to give back all of memory, the source frees it and then fails).
- VirtualMemory.Vm.Mencrypt: Fault stands for a kernel trap in the middle of the call, after which the source panics or has decrypted page 0; what it leaves in memory is not modelled.
- VirtualMemory.Vm.Deallocuvm: shrinks from at most KERNBASE; from above it the source runs into the kernel's own pages and panics at the one with physical address 0.
- Processes.NoLostExit: pids are unbounded integers; their reuse after the 32-bit counter wraps is not modelled.
- VirtualMemory.Vm.Setupkvm: counts the kernel's tables, not the kernel entries in them.
- VirtualMemory.Vm.Kfree: frames are valid by construction, so the range panic is not modelled; bytes of page-table frames are kept as tables, not as bytes, and the link in the first word of a free page is kept as the list.
- Submission.EachKeyOnce: gets are atomic steps; the data race on the search cursors that threads share is not modelled.
- HashMap.HashMap.Put: allocation always succeeds; the source exits the program when it does not.
- MapReduce.Partition.Add: one partition at a time, since emits and gets touch only their own; Grouping.PartitionGroup puts the partitions together.
- The disk keeps its superblock, inode, bitmap and data regions as separate fields; that mkfs lays them out without overlap is taken as given.
- The file system and the log meet in `FsCrash` as values, not as one program.
- The inode cache (iget, ilock, iput), directories and path lookup: they would add members of the kind already proved.
- Hardware drivers, boot code, traps, spinlocks, interrupt nesting and context switches; critical sections are atomic steps.
- The worker threads and queues of the map-reduce library; emits, gets and submissions are atomic steps.
- The hash function and the random-number generator are any function and any sequence of draws.
- exec, ELF loading, system-call argument fetching, user utilities and test programs.
- The copies of the same kernel sources in the other project directories, the ext2 scanner and the second shell.
