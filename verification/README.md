# Models and proofs for the xv6 labs and simplefs

This project models the parts of the repository whose correctness is hard to see
from one function alone, and proves what they are for. Each module follows one
source file or one protocol of it. Code that updates state is a class with
methods and loops, proved against predicates and functions on values; the
properties of those values are lemmas.

- `UMalloc` — the storage allocator of umalloc.c: a circular, sorted, fully
  joined free list in two header words, and what malloc() and free() keep.
- `BufferCache` — the buffer cache of bio.c over the memory disk of memide.c: the
  linked ring, the least recently used victim, one copy of each block.
- `Recovery`, `Log` — the redo log of log.c: group commit, reservations, and
  recovery after crashes at any disk write, of recovery too. Operations are
  atomic: every crash leaves whole operations.
- `Blocks`, `Dinodes`, `Inodes`, `Files` — fs.c and file.c: a file is a sequence of
  bytes over direct and indirect blocks, every block has one owner, inodes are packed
  into their table, and filewrite() works in transactions that fit the log.
- `Storage` — all of these together: filewrite() from the inode layer through log,
  cache and disk. After any crash the disk holds a sound file system, the one after
  whole transactions.
- `PageFrames`, `PageTables`, `Vm` — kalloc.c and vm.c: page tables are maps from
  pages to frames and flags, and every frame is free, lent, or used exactly once,
  also after a failed allocation.
- `Processes`, `Scheduler` — proc.c of the priority-scheduling lab: the
  exit/wait protocol, and how long a process can be passed over.
- `Pipes`, `Semaphores` — pipe.c, and the semaphores of ulib.c on the channels of
  proc.c, as sections and steps that interleave in any order.
- `Grep` — the matcher of grep.c against the language of its patterns, and how
  patterns are written.
- `Shell`, `ShellSyntax` — the parser of sh.c. It accepts exactly the spellings of the
  lines of a grammar, with redirections anywhere among the words and white space
  anywhere between tokens, and builds what the line stands for; printing and parsing
  are inverse; every word ends up NUL-terminated in place.
- `SimpleFs` — simplefs: writing, reading and block allocation.

Sizes such as the number of buffers, of log blocks, of direct blocks, of processes, of
table slots and of page frames are parameters; the block and page sizes and the layout
of words and bits are the source's.

## Where the code does not do what it promises

- The block that malloc() cuts is too small exactly if `nbytes + 7` wraps around
  (`UMalloc.PayloadHoldsRequestIff`).
- malloc() passes sizes of 2^31 bytes and more to sbrk() as negative numbers: the
  process loses memory, and malloc() goes on with a block beyond it
  (`UMalloc.WildBlock`); exactly for which requests, says `UMalloc.Allocator.Malloc`.
- log_write() tests the size of the transaction before it looks whether the block
  is in it already, so that a write that needs no room can panic
  (`Log.AbsorbedWriteCanPanic`), and with the shipped sizes a new block too
  (`Log.NewBlockCanPanic`); exactly when, says `Log.LogState.TooBigIff`.
- A process can be born killed: exactly if kill() has found its slot since wait()
  last freed it (`Processes.BornKilledIff`). kill() looks at the pid alone and finds
  unused slots, by pid 0 or that of a fork() that failed (`Processes.KillZero`), and
  embryos whose fork() then fails (`Processes.KillEmbryo`).
- A process of negative priority never runs (`Scheduler.NegativeNeverRuns`).
- pipewrite() that fails after having written bytes leaves readers asleep: exactly
  when, says `Pipes.Pipe.Write`, and `Pipes.KilledWriter` is such a run.
- semInit() with a negative value breaks the bound on semDown() calls
  (`Semaphores.NegativeInitVal`).
- A thread can sleep on although a unit is free (`Semaphores.LostWakeup`). It happens
  exactly through a signal that comes while a thread is between releaseLock() and
  sleepChan() and none is asleep (`Semaphores.Semaphore.UpSignal`, `Semaphores.Semaphore.SleepsOnIff`).
- simplefs_write() that runs out of blocks keeps the block it took for a full
  file: exactly the case in `SimpleFs.Disk.Write`, and `SimpleFs.LostBlock` is such a run.
- uva2ka() does not test whether walkpgdir() found a page table, so that copyout()
  to an address without one reads through a null pointer: exactly when, says
  `Vm.Machine.Copyout`, and `Vm.NullCopy` is such a run.

## How the modules model the code

- A section under a lock is one step, and sleep() gives up the lock and sleeps in one
  step. The panics of the source are preconditions, results, or shown not to be
  reached; each contract says which.
- The disk changes by whole blocks, one at a time; its history is what a crash can leave.
- The log works on the blocks the cache calls the last contents (`view`); the inode
  layer works on the blocks that bread() returns. `Storage` joins them: the words of a
  home block are its bytes.
- Ghost fields (owners of blocks and frames, snapshots, counts of failed calls of
  kalloc()) record what the contracts speak about; the code does not read them.
- Physical pages are numbered; a kernel pointer is KERNBASE plus the page's address.


## Model

| member | source | states |
|---|---|---|
| UMalloc.UnitsFor | CS236-Spring-2025-Labs/xv6-threads/umalloc.c:69 | One unit for the header and the fewest that hold the request, unless nbytes + 7 wraps around |
| UMalloc.PayloadHoldsRequestIff | CS236-Spring-2025-Labs/xv6-threads/umalloc.c:69 | The block malloc() cuts holds the requested bytes exactly if nbytes + 7 does not wrap around in 32 bits |
| UMalloc.SbrkArgumentPositiveIff | CS236-Spring-2025-Labs/xv6-threads/umalloc.c:52-54 | Exactly which requests give sbrk() a positive int argument |
| UMalloc.SpacedDetermined | CS236-Spring-2025-Labs/xv6-threads/umalloc.c:33-42 | A free list without overlapping or adjacent blocks is determined by the set of its units: coalescing is complete and canonical |
| UMalloc.InsertSpaced | CS236-Spring-2025-Labs/xv6-threads/umalloc.c:33-42 | Linking a freed block in, joined with the neighbours it touches, leaves no two blocks overlapping or adjacent |
| UMalloc.InsertUnits | CS236-Spring-2025-Labs/xv6-threads/umalloc.c:33-42 | Linking a block in adds exactly its units to the free list |
| UMalloc.FreeHeap | CS236-Spring-2025-Labs/xv6-threads/umalloc.c:29-43 | The pointer and size writes of free() give the heap without the freed block: ring, live blocks and unit partition all hold again |
| UMalloc.TakeHeap | CS236-Spring-2025-Labs/xv6-threads/umalloc.c:75-84 | Cutting units off the end of a block, or unlinking it, gives the heap with the new block live and disjoint from everything else |
| UMalloc.GrowHeap | CS236-Spring-2025-Labs/xv6-threads/umalloc.c:54-58 | Units that sbrk() gives above the old end are disjoint from every block |
| UMalloc.LiveClear | CS236-Spring-2025-Labs/xv6-threads/umalloc.c:30-31 | No live block overlaps a free one |
| UMalloc.Allocator.FindPlace | CS236-Spring-2025-Labs/xv6-threads/umalloc.c:30-32 | The search of free() ends, at the free block after which the freed one belongs |
| UMalloc.Allocator.LinkAfter | CS236-Spring-2025-Labs/xv6-threads/umalloc.c:33-43 | The writes of free() change only the two headers, and leave the cells of the joined list |
| UMalloc.Allocator.Free | CS236-Spring-2025-Labs/xv6-threads/umalloc.c:24-44 | The block leaves the live ones; all others and the owned units stay; the free list is again the fully joined sorted ring of all other units |
| UMalloc.Allocator.Shrink | CS236-Spring-2025-Labs/xv6-threads/proc.c:163-180 | sbrk() of 2^31 bytes or more takes units away, or fails when all are gone, or does nothing |
| UMalloc.Allocator.Extend | CS236-Spring-2025-Labs/xv6-threads/umalloc.c:52-60 | 0 exactly if sbrk() failed, and then nothing changes; else all units that sbrk() gave, 4096 at least, join the heap, and freep or its successor is large enough |
| UMalloc.Allocator.Morecore | CS236-Spring-2025-Labs/xv6-threads/umalloc.c:46-61 | The same; but for 2^31 bytes or more it goes on with a block at the end of memory or beyond, or finds all memory gone, exactly when each |
| UMalloc.Allocator.Scan | CS236-Spring-2025-Labs/xv6-threads/umalloc.c:74-88 | One turn around the ring ends with the first large enough block after freep, or at freep with none in the list |
| UMalloc.Allocator.Take | CS236-Spring-2025-Labs/xv6-threads/umalloc.c:75-84 | The returned block has exactly the units asked for, at the high end of the free block, and was not live |
| UMalloc.Allocator.Fit | CS236-Spring-2025-Labs/xv6-threads/umalloc.c:74-85 | The units come off the high end of the first large enough block after freep; 0 exactly if there is none, and nothing changes |
| UMalloc.Allocator.FitMore | CS236-Spring-2025-Labs/xv6-threads/umalloc.c:85-88 | When no block is large enough: a block of the right size from the units that sbrk() gave, or 0 exactly if it failed |
| UMalloc.Allocator.Malloc | CS236-Spring-2025-Labs/xv6-threads/umalloc.c:63-90 | A block of the right size that no live block overlaps, cut from the first free block that is large enough, or from new units; 0 exactly if one sbrk() failed and no free block was large enough, with memory as before; units that sbrk() gave join the heap; live blocks and units are kept; and exactly for which requests, heaps and memory sizes it goes wrong instead |
| UMalloc.WildBlock | CS236-Spring-2025-Labs/xv6-threads/umalloc.c:52-58 | A first request that makes malloc() go on with a block beyond the process's memory |
| BufferCache.RingUnlink | CS236-Spring-2025-Labs/xv6-threads/bio.c:132-133 | Unlinking a buffer leaves a consistent ring of the others |
| BufferCache.RingInsert | CS236-Spring-2025-Labs/xv6-threads/bio.c:134-137 | A buffer linked in behind the head gives a consistent ring with it in front |
| BufferCache.RingMove | CS236-Spring-2025-Labs/xv6-threads/bio.c:132-137 | The six pointer writes of brelse() move the buffer to the front of the ring |
| BufferCache.LaterIsOlder | CS236-Spring-2025-Labs/xv6-threads/bio.c:78-92 | Along the ring, buffers were released longer and longer ago |
| BufferCache.OthersNewer | CS236-Spring-2025-Labs/xv6-threads/bio.c:81-83 | Scanning from the back, every idle buffer not yet met was released no earlier |
| BufferCache.ReadCoherent | CS236-Spring-2025-Labs/xv6-threads/memide.c:57-59 | Reading a block into the one buffer for it keeps every block's last contents |
| BufferCache.SetCoherent | CS236-Spring-2025-Labs/xv6-threads/bio.c:95-106 | Changing a locked buffer changes the last contents of its block alone |
| BufferCache.WriteCoherent | CS236-Spring-2025-Labs/xv6-threads/memide.c:54-56 | Writing a buffer out keeps every block's last contents |
| BufferCache.RecycleCoherent | CS236-Spring-2025-Labs/xv6-threads/bio.c:83-86 | Recycling an idle clean buffer loses no contents, and no block is cached twice |
| BufferCache.Cache.constructor | CS236-Spring-2025-Labs/xv6-threads/bio.c:38-56 | binit() gives a consistent ring of all buffers, the last one in front |
| BufferCache.Cache.Bget | CS236-Spring-2025-Labs/xv6-threads/bio.c:61-93 | The buffer that caches the block, else the last idle clean one of the ring, which was released longest ago; the panic exactly if there is neither |
| BufferCache.Cache.Recycle | CS236-Spring-2025-Labs/xv6-threads/bio.c:81-92 | The last idle clean buffer of the ring, which was released longest ago, if there is one |
| BufferCache.Cache.OldestIdle | CS236-Spring-2025-Labs/xv6-threads/bio.c:81-83 | The scan from the back of the ring ends at the last idle clean buffer, or at the head exactly if there is none |
| BufferCache.Cache.Iderw | CS236-Spring-2025-Labs/xv6-threads/memide.c:38-60 | A dirty buffer goes to its disk block, an invalid one gets the block's last contents |
| BufferCache.Cache.Bread | CS236-Spring-2025-Labs/xv6-threads/bio.c:96-106 | A locked buffer with the last contents of the block, from the cache or the disk |
| BufferCache.Cache.Relock | CS236-Spring-2025-Labs/xv6-threads/bio.c:101-105 | A process that had to wait in bread() gets the locked buffer with the block's last contents, once nobody has it |
| BufferCache.Cache.Bwrite | CS236-Spring-2025-Labs/xv6-threads/bio.c:109-116 | The disk block holds the buffer's data; one write is added to the disk history |
| BufferCache.Cache.Pin | CS236-Spring-2025-Labs/xv6-threads/log.c:231 | A dirty buffer is kept until it is written |
| BufferCache.Cache.Brelse | CS236-Spring-2025-Labs/xv6-threads/bio.c:120-141 | The last release moves the buffer to the front of the ring, with the others in the same order |
| BufferCache.Cache.MoveToFront | CS236-Spring-2025-Labs/xv6-threads/bio.c:131-137 | The buffer is in front and the others are in the same order, by release |
| Recovery.InstallAt | CS236-Spring-2025-Labs/xv6-threads/log.c:69-82 | After installing t entries each home block holds its last logged contents, or its own |
| Recovery.RecoveredAt | CS236-Spring-2025-Labs/xv6-threads/log.c:69-82 | A home block gets the log block of the last place of the header block that names it; one that is not named stays |
| Recovery.Redo | CS236-Spring-2025-Labs/xv6-threads/log.c:69-82 | Installing the log over a partly installed one gives the same disk, even if a block is logged twice |
| Recovery.CutOffKeeps | CS236-Spring-2025-Labs/xv6-threads/log.c:115-122 | A recovery cut off after any number of writes, the header's included, leaves a disk that recovers to the same home blocks |
| Recovery.RebootsKeep | CS236-Spring-2025-Labs/xv6-threads/log.c:115-122 | Any number of interrupted recoveries changes nothing about the final home blocks |
| Recovery.CrashRecovery | CS236-Spring-2025-Labs/xv6-threads/log.c:115-122 | A disk that recovers to an image still does so after any number of interrupted recoveries |
| Log.IdleExists | CS236-Spring-2025-Labs/xv6-threads/log.c:125-141 | With the log's room bound, some buffer is neither referenced nor pinned, so bget() does not panic in a commit |
| Log.PutSettled | CS236-Spring-2025-Labs/xv6-threads/log.c:204-206 | A logged change keeps it so that disk and last contents differ only in pinned blocks |
| Log.HeldClean | CS236-Spring-2025-Labs/xv6-threads/bio.c:120-123 | A held buffer that is unchanged, or whose change was logged, may be released: nothing is lost |
| Log.FoundSecond | CS236-Spring-2025-Labs/xv6-threads/log.c:73-74 | With the log's room bound, bget() finds a buffer for the second block of a copy too, although the first one and those of readers are held |
| Log.FilledRecovers | CS236-Spring-2025-Labs/xv6-threads/log.c:176-190 | While write_log() fills the log the disk recovers to the old snapshot |
| Log.HeaderCommits | CS236-Spring-2025-Labs/xv6-threads/log.c:98-113 | Writing the header makes the disk recover to the new contents of every logged block |
| Log.UnusedBound | CS236-Spring-2025-Labs/xv6-threads/log.c:132 | Operations in flight have at most MAXOPBLOCKS unused blocks each |
| Log.BeginReserved | CS236-Spring-2025-Labs/xv6-threads/log.c:132-136 | begin_op()'s test reserves room for a whole operation |
| Log.WriteReserved | CS236-Spring-2025-Labs/xv6-threads/log.c:224-230 | A new block comes out of its operation's allowance; reservations stay within the log |
| Log.HistoryAt | CS236-Spring-2025-Labs/xv6-threads/log.c:192-202 | Every disk of a run recovers to a snapshot, and later ones never to an earlier snapshot |
| Log.WholeWrite | CS236-Spring-2025-Labs/xv6-threads/log.c:214-233 | A logged write of an operation in flight leaves every snapshot free of half operations |
| Log.ReplayAt | CS236-Spring-2025-Labs/xv6-threads/log.c:204-206 | Replaying writes leaves in each block what was last written to it |
| Log.CrashAtomicity | CS236-Spring-2025-Labs/xv6-threads/log.c:115-122 | From any disk of a run, recoveries that may crash give the replay of whole operations, up to a point that later crashes never undo |
| Log.LogState.Hold | CS236-Spring-2025-Labs/xv6-threads/bio.c:96-106 | A process takes the buffer of a block, with its last contents, between its logged writes; the panic of bget() and waiting exactly when there is no buffer, or another process holds it |
| Log.LogState.Resume | CS236-Spring-2025-Labs/xv6-threads/bio.c:101-105 | A process that had to wait for a buffer takes it; nothing else changes |
| Log.LogState.Release | CS236-Spring-2025-Labs/xv6-threads/bio.c:120-141 | A held buffer is released; nothing else changes |
| Log.LogState.InitLog | CS236-Spring-2025-Labs/xv6-threads/log.c:53-66 | Recovery at boot installs the log and clears it; every disk on the way recovers to the same image |
| Log.LogState.RecoverFromLog | CS236-Spring-2025-Labs/xv6-threads/log.c:115-122 | All writes of recovery are those of a cut-off recovery |
| Log.LogState.ReadHead | CS236-Spring-2025-Labs/xv6-threads/log.c:84-96 | The in-memory log is the header's |
| Log.LogState.InstallTrans | CS236-Spring-2025-Labs/xv6-threads/log.c:68-82 | One disk write per logged block, each a prefix of the installation |
| Log.LogState.WriteLog | CS236-Spring-2025-Labs/xv6-threads/log.c:176-190 | The log blocks get the cached contents, in order, and no home block changes |
| Log.LogState.Publish | CS236-Spring-2025-Labs/xv6-threads/log.c:195-197 | Up to the header's write the disk recovers to the old snapshot, from it on to the new contents |
| Log.LogState.Finish | CS236-Spring-2025-Labs/xv6-threads/log.c:198-200 | Installing and clearing keeps every disk recovering to the new snapshot; disk and cache agree at the end |
| Log.LogState.CommitLog | CS236-Spring-2025-Labs/xv6-threads/log.c:192-202 | commit() makes the last contents durable and empties the log |
| Log.LogState.Commit | CS236-Spring-2025-Labs/xv6-threads/log.c:165-173 | A commit runs with no operation in flight, so that its snapshot splits no operation; buffers that readers hold of blocks it does not touch stay as they are |
| Log.LogState.BeginOp | CS236-Spring-2025-Labs/xv6-threads/log.c:125-141 | An operation begins exactly if no commit is under way and there is room for it |
| Log.LogState.EndOp | CS236-Spring-2025-Labs/xv6-threads/log.c:145-163 | The last operation commits; the panic "log.committing" is not reached |
| Log.LogState.LogWrite | CS236-Spring-2025-Labs/xv6-threads/log.c:213-233 | The change of a held buffer changes the block's last contents alone, is absorbed exactly if the block is in the transaction, and keeps logged blocks distinct; the panic "too big a transaction" exactly for a full one, and then the disk still recovers to the last snapshot |
| Log.LogState.TooBigIff | CS236-Spring-2025-Labs/xv6-threads/log.c:218-219 | Exactly when log_write() panics for an operation within its allowance: with room for the header and LOGSIZE blocks, for a full transaction, and then only for a block that it would absorb; with less, as in mkfs.c, one block earlier |
| Log.LogState.CrashKeepsWholeOperations | CS236-Spring-2025-Labs/xv6-threads/log.c:30-31 | In every reachable state, a crash at any past write followed by any interrupted recoveries gives a disk of whole operations |
| Log.LogState.CrashConsistent | CS236-Spring-2025-Labs/xv6-threads/log.c:30-31 | A property of the home blocks that holds whenever no operation is split holds after every crash and recovery |
| Log.NewBlockCanPanic | CS236-Spring-2025-Labs/xv6-threads/mkfs.c:25 | With nlog == LOGSIZE log_write() can panic for a new block of an operation within its allowance |
| Log.AbsorbedWriteCanPanic | CS236-Spring-2025-Labs/xv6-threads/log.c:218-227 | log_write() can panic for a block that it would absorb: the size test comes before the search |
| Blocks.WithBitBits | CS236-Spring-2025-Labs/xv6-threads/fs.c:66-68 | Setting or clearing one bit of a byte changes that bit alone |
| Blocks.SetBitAtBits | CS236-Spring-2025-Labs/xv6-threads/fs.c:66-92 | Marking a block in a bitmap block changes its bit alone |
| Blocks.BitIsDigit | CS236-Spring-2025-Labs/xv6-threads/fs.c:66-68 | Testing bit k of a byte is testing a binary digit of it |
| Blocks.EntryBits | CS236-Spring-2025-Labs/xv6-threads/fs.c:386-392 | Bit k of word j is bit k % 8 of byte 4 * j + k / 8 |
| Inodes.UsedDigit | CS236-Spring-2025-Labs/xv6-threads/fs.h:44-48 | The bit of block b is digit b % 8 of byte b % 4096 / 8 of bitmap block b / 4096 |
| Blocks.WithEntryEntries | CS236-Spring-2025-Labs/xv6-threads/fs.c:390-392 | Writing one word of an indirect block changes that entry alone |
| Dinodes.PackUnpack | CS236-Spring-2025-Labs/xv6-threads/fs.c:225-241 | An inode packed into its block is read back as it was, and the other inodes of the block too |
| Inodes.InodesFit | CS236-Spring-2025-Labs/xv6-threads/fs.h:38-39 | A block of the inode table holds as many inodes as fit |
| Inodes.StoredBytes | CS236-Spring-2025-Labs/xv6-threads/fs.h:29-42 | Inode j is in block j / IPB of the table, its size at byte 8 and address k at byte 12 + 4 * k of its place there |
| Inodes.StoredUpdate | CS236-Spring-2025-Labs/xv6-threads/fs.c:225-241 | After iupdate() the inode table holds the inodes with the new one |
| Inodes.TableOwned | CS236-Spring-2025-Labs/xv6-threads/fs.c:225-241 | Writing a block of the inode table changes no owner and no file |
| Inodes.FileSystem.Iupdate | CS236-Spring-2025-Labs/xv6-threads/fs.c:219-241 | The inode goes to its place in the inode table, and its block is logged |
| Inodes.SlotsDistinct | CS236-Spring-2025-Labs/xv6-threads/fs.c:365-368 | No block is in two slots, of one inode or of two |
| Inodes.WriteOwned | CS236-Spring-2025-Labs/xv6-threads/fs.c:498 | Writing a data block changes no slot and no other file |
| Inodes.AllocOwned | CS236-Spring-2025-Labs/xv6-threads/fs.c:67-72 | A block that balloc() marks was in no slot; bitmap and slots agree again |
| Inodes.FreeOwned | CS236-Spring-2025-Labs/xv6-threads/fs.c:88-93 | A block taken out of its slot has its bit set; clearing it keeps bitmap and slots in agreement |
| Inodes.RecordAddr | CS236-Spring-2025-Labs/xv6-threads/fs.c:379-388 | Putting the new block into an empty address keeps ownership, and all other slots |
| Inodes.RecordEntry | CS236-Spring-2025-Labs/xv6-threads/fs.c:391-394 | Putting the new block into an empty entry of the indirect block keeps ownership, and all other slots and files |
| Inodes.DetachIndirect | CS236-Spring-2025-Labs/xv6-threads/fs.c:421-430 | Taking the indirect block out detaches exactly it and its entries |
| Inodes.WriteStep | CS236-Spring-2025-Labs/xv6-threads/fs.c:494-500 | One turn of writei()'s loop puts its bytes at their place and leaves all other bytes |
| Inodes.WrittenEnd | CS236-Spring-2025-Labs/xv6-threads/fs.c:503-508 | After the loop and the new size the file is the old one overwritten at off |
| Inodes.ContentsByte | CS236-Spring-2025-Labs/xv6-threads/fs.c:372-397 | Byte k of a file is in the block that address k / BSIZE of its inode names, or from NDIRECT on, that word k / BSIZE - NDIRECT of the indirect block names |
| Inodes.MappedAddrs | CS236-Spring-2025-Labs/xv6-threads/fs.c:372-397 | Exactly the addresses of the inode and words of the indirect block below the file's size name blocks |
| Inodes.OverwriteByte | CS236-Spring-2025-Labs/xv6-threads/fs.c:494-500 | Overwriting changes exactly the bytes from off on, and lengthens the file by what goes past its end |
| Inodes.ReadStep | CS236-Spring-2025-Labs/xv6-threads/fs.c:472-476 | The bytes readi() copies from one block are those of the file |
| Inodes.FileSystem.Balloc | CS236-Spring-2025-Labs/xv6-threads/fs.c:56-78 | The first free block, marked and zeroed; the panic exactly if every block is in use |
| Inodes.FullDigits | CS236-Spring-2025-Labs/xv6-threads/fs.c:61-78 | The panic of balloc(), out of blocks, means that the bit of every block is set |
| Inodes.FileSystem.Bfree | CS236-Spring-2025-Labs/xv6-threads/fs.c:81-95 | The block's bit is cleared; the panic "freeing free block" is not reached |
| Inodes.FileSystem.Bmap | CS236-Spring-2025-Labs/xv6-threads/fs.c:372-400 | The block that address bn of the inode names, or word bn - NDIRECT of the indirect block; a zeroed one, recorded there, if there was none; nothing changes if there was; other files are as before, also when balloc() panics, which is only when every block is in use |
| Inodes.FileSystem.BmapIndirect | CS236-Spring-2025-Labs/xv6-threads/fs.c:383-397 | The same for a block behind the indirect block, which is allocated first if need be |
| Inodes.FileSystem.Itrunc | CS236-Spring-2025-Labs/xv6-threads/fs.c:407-435 | The inode loses all its blocks and exactly they are freed; every block that has changed is logged; other files are as before |
| Inodes.FileSystem.TruncDirect | CS236-Spring-2025-Labs/xv6-threads/fs.c:414-419 | Exactly the direct blocks are freed |
| Inodes.FileSystem.TruncIndirect | CS236-Spring-2025-Labs/xv6-threads/fs.c:421-431 | Exactly the indirect block and its entries are freed |
| Inodes.FileSystem.Readi | CS236-Spring-2025-Labs/xv6-threads/fs.c:452-477 | -1 exactly for a start past the end or a range that wraps; else exactly the bytes of the file, and nothing changes |
| Inodes.FileSystem.Writei | CS236-Spring-2025-Labs/xv6-threads/fs.c:482-511 | -1 exactly for a gap or a file too large, and nothing changes; else the file is overwritten at off, the inode table holds the inode, every block that has changed is logged, and only the named blocks are logged; other files are as before, and blocks have one owner, also when balloc() panics with every block in use |
| Inodes.FileSystem.WriteLoop | CS236-Spring-2025-Labs/xv6-threads/fs.c:494-501 | All bytes are written, in blocks that are mapped and owned |
| Inodes.ChunkBound | CS236-Spring-2025-Labs/xv6-threads/file.c:126-133 | A chunk of filewrite() logs at most seven blocks if the bitmap is one block, hence at most MAXOPBLOCKS |
| Files.OverwriteTwice | CS236-Spring-2025-Labs/xv6-threads/file.c:133-149 | Two writes one after the other are one write of both |
| Files.ReadBack | CS236-Spring-2025-Labs/xv6-threads/fs.c:452-511 | readi() after a successful writei() at the same offset gives back exactly the bytes written |
| Files.File.WriteChunk | CS236-Spring-2025-Labs/xv6-threads/file.c:134-143 | One transaction: the chunk is written and the offset moves past it, or nothing changes; at most seven blocks are logged |
| Files.File.WriteChunks | CS236-Spring-2025-Labs/xv6-threads/file.c:135-150 | Whole chunks are written in order until all are, or one is refused; "short filewrite" is not reached |
| Files.File.Write | CS236-Spring-2025-Labs/xv6-threads/file.c:116-154 | n exactly if all bytes fit at the offset, and then they are there; else -1 and exactly the whole chunks before the refused one are; every transaction fits the log |
| Files.File.Read | CS236-Spring-2025-Labs/xv6-threads/file.c:92-112 | The bytes of the file from the offset, which moves past them |
| Storage.MixedStep | CS236-Spring-2025-Labs/xv6-threads/log.c:213-233 | One more block of a transaction is brought into the buffers through the log |
| Storage.MarkEnds | CS236-Spring-2025-Labs/xv6-threads/log.c:165-173 | A point of the log that splits no operation is the end of a transaction of the file system |
| Storage.Machine.Use | CS236-Spring-2025-Labs/xv6-threads/log.c:213-233 | bread(), log_write() and brelse() of a block reach no panic |
| Storage.Machine.Work | CS236-Spring-2025-Labs/xv6-threads/file.c:133-143 | begin_op() and writei() of a chunk: what has changed is logged and fits the log |
| Storage.Machine.PushAll | CS236-Spring-2025-Labs/xv6-threads/log.c:213-233 | All blocks of the transaction go into the log; its last contents are those of the file system |
| Storage.Machine.Finish | CS236-Spring-2025-Labs/xv6-threads/log.c:145-173 | end_op() and commit() leave the disk with the file system's blocks and the log empty |
| Storage.Machine.Transact | CS236-Spring-2025-Labs/xv6-threads/file.c:133-143 | One transaction of filewrite() through inode layer, log, cache and disk: it is wholly there, or balloc() has panicked and the disk is as before |
| Storage.Machine.FileWrite | CS236-Spring-2025-Labs/xv6-threads/file.c:123-150 | Every state on the way has whole chunks written and all other files as before; at the end all bytes are in the file exactly if they leave no gap and fit |
| Storage.Machine.CrashConsistency | CS236-Spring-2025-Labs/xv6-threads/log.c:30-31 | After a crash at any disk write, and any crashes of recovery, the disk holds a sound file system: inodes, bitmap and blocks agree, and it is the one after whole transactions |
| Storage.Machine.Durability | CS236-Spring-2025-Labs/xv6-threads/log.c:193-201 | A later crash keeps all the transactions that an earlier one would have kept |
| Storage.Machine.LastDisk | CS236-Spring-2025-Labs/xv6-threads/log.c:193-201 | After end_op() returns, a crash keeps everything |
| Storage.Restart | CS236-Spring-2025-Labs/xv6-threads/log.c:53-66 | Switching on again after a crash gives a running system with the file system that survived |
| Storage.NewMachine | CS236-Spring-2025-Labs/xv6-threads/mkfs.c:20-21 | A small formatted disk, with log, inodes, bitmap and data in the order of the layout, is a sound file system that the system starts on |
| PageFrames.ChainPush | CS236-Spring-2025-Labs/xv6-threads/kalloc.c:72-74 | A freed page goes in front of the free list |
| PageFrames.FreedBytes | CS236-Spring-2025-Labs/xv6-threads/kalloc.c:69-74 | A freed page is all ones but for the link at its start |
| PageFrames.ChainUnique | CS236-Spring-2025-Labs/xv6-threads/kalloc.c:85-94 | The links through the pages determine the free list |
| PageTables.UsesDistinct | CS236-Spring-2025-Labs/xv6-threads/vm.c:35-55 | No frame has two uses: directory, page table or user page |
| PageTables.ProcessorWalk | CS236-Spring-2025-Labs/xv6-threads/mmu.h:70-77 | The entry of a page is the word that the processor's walk through the bytes of directory and page table finds |
| PageTables.OwnersDetermined | CS236-Spring-2025-Labs/xv6-threads/vm.c:35-80 | The page tables determine the owner of every frame |
| PageTables.TablesOpen | CS236-Spring-2025-Labs/xv6-threads/vm.c:44-53 | In every sound state the directory entries let the user read and write, so that the page's own entry decides |
| PageTables.AddTable | CS236-Spring-2025-Labs/xv6-threads/vm.c:44-53 | A zeroed page as a new page table changes no mapping of any address space |
| PageTables.SetPte | CS236-Spring-2025-Labs/xv6-threads/vm.c:73 | Writing one page table entry changes that entry of that address space alone |
| PageTables.MapUser | CS236-Spring-2025-Labs/xv6-threads/vm.c:73 | A frame the caller holds becomes the frame of the page; frames stay a partition |
| PageTables.UnmapUser | CS236-Spring-2025-Labs/xv6-threads/vm.c:286-292 | Clearing an entry gives its frame back, and only it |
| PageTables.DropDirectory | CS236-Spring-2025-Labs/xv6-threads/vm.c:308-314 | A directory without user pages owns exactly itself and its page tables |
| Vm.SkipTable | CS236-Spring-2025-Labs/xv6-threads/vm.c:283-285 | deallocuvm()'s jump over an absent page table misses no mapped page |
| Vm.UnmapFreed | CS236-Spring-2025-Labs/xv6-threads/vm.c:286-292 | kfree() of a user frame before its entry is cleared: afterwards frames and mappings agree again |
| Vm.UndoMap | CS236-Spring-2025-Labs/xv6-threads/vm.c:237-246 | Allocating pages and deallocating them restores which pages are mapped, to which frames, with which flags |
| Vm.UndoOwn | CS236-Spring-2025-Labs/xv6-threads/vm.c:237-246 | Allocating pages and deallocating them restores the user frames of every address space |
| Vm.KernelSpaceAt | CS236-Spring-2025-Labs/xv6-threads/vm.c:105-115 | Each kernel page is mapped as its row of kmap says, and no user page is |
| Vm.KernelTranslates | CS236-Spring-2025-Labs/xv6-threads/vm.c:105-131 | Every address from virt on, as many as the row has up to phys_end or 2^32, goes to the physical address as far behind phys_start, with the row's permissions |
| Vm.KernelMappedIff | CS236-Spring-2025-Labs/xv6-threads/vm.c:105-131 | A page is mapped exactly if one of its addresses is in such a range |
| Vm.ShippedKmapOk | CS236-Spring-2025-Labs/xv6-threads/vm.c:105-115 | The shipped kmap is as setupkvm() needs it exactly if the kernel's data begin a page; else two rows have a page in common |
| Vm.ProcessorReads | CS236-Spring-2025-Labs/xv6-threads/vm.c:382-404 | The byte at a user address is the one that the processor's walk ends at |
| Vm.WithoutUBits | CS236-Spring-2025-Labs/xv6-threads/vm.c:327 | Clearing PTE_U changes that bit alone |
| Vm.Machine.Kalloc | CS236-Spring-2025-Labs/xv6-threads/kalloc.c:82-95 | The first free page; 0 exactly if there is none |
| Vm.Machine.Kfree | CS236-Spring-2025-Labs/xv6-threads/kalloc.c:59-77 | A page that was handed out is on the front of the list; no address space and no other page changes |
| Vm.Machine.Push | CS236-Spring-2025-Labs/xv6-threads/kalloc.c:67-76 | The page holds junk and the link to the old list |
| Vm.Machine.Freerange | CS236-Spring-2025-Labs/xv6-threads/kalloc.c:46-53 | Exactly the pages wholly between the addresses are freed |
| Vm.Machine.Walkpgdir | CS236-Spring-2025-Labs/xv6-threads/vm.c:35-55 | The page table for the address, new and empty if need be; 0 exactly if there is none and none is wanted or no page is free; no mapping changes |
| Vm.Machine.MapPage | CS236-Spring-2025-Labs/xv6-threads/vm.c:69-73 | One page mapped, or nothing changed and no page free; "remap" is not reached |
| Vm.Machine.Mappages | CS236-Spring-2025-Labs/xv6-threads/vm.c:59-80 | Exactly the pages of the range are mapped to consecutive frames; on -1 exactly the first k, and no page is free |
| Vm.Machine.Setupkvm | CS236-Spring-2025-Labs/xv6-threads/vm.c:117-136 | A directory with exactly the kernel pages that `Vm.KernelTranslates` and `Vm.KernelMappedIff` describe; or 0 because kalloc() failed and every frame is back |
| Vm.Machine.Allocuvm | CS236-Spring-2025-Labs/xv6-threads/vm.c:221-249 | The new pages are mapped to distinct zeroed frames that were free; or 0 because kalloc() failed, the same pages are mapped as before and no user frame is lost |
| Vm.NewPagesRead | CS236-Spring-2025-Labs/xv6-threads/vm.c:222-249 | After allocuvm(), pages from oldsz up to newsz read as zeros and are the user's to write; the entries of all others are as before |
| Vm.Machine.AllocPages | CS236-Spring-2025-Labs/xv6-threads/vm.c:232-247 | Page after page is mapped, until all are or kalloc() fails |
| Vm.Machine.UndoAlloc | CS236-Spring-2025-Labs/xv6-threads/vm.c:235-246 | What was allocated before the failure is undone, the unmapped page included |
| Vm.Machine.Deallocuvm | CS236-Spring-2025-Labs/xv6-threads/vm.c:272-296 | Exactly the mapped pages of the range are unmapped and exactly their frames freed; the panic "kfree" is not reached |
| Vm.ClearedRead | CS236-Spring-2025-Labs/xv6-threads/vm.c:273-296 | After deallocuvm(), pages from newsz up to oldsz are absent; the entries of all others are as before |
| Vm.Machine.FreePage | CS236-Spring-2025-Labs/xv6-threads/vm.c:286-292 | The page's frame is on the free list and its entry is 0; nothing else changes |
| Vm.Machine.Freevm | CS236-Spring-2025-Labs/xv6-threads/vm.c:300-315 | The directory is gone and exactly its frames are free; other address spaces are as before |
| Vm.Machine.Clearpteu | CS236-Spring-2025-Labs/xv6-threads/vm.c:319-328 | Only the user bit of the page changes |
| Vm.Machine.Copyuvm | CS236-Spring-2025-Labs/xv6-threads/vm.c:332-362 | A new address space with the same contents and flags on frames that were free; or 0 because kalloc() failed, and every frame taken is free again |
| Vm.CopiedRead | CS236-Spring-2025-Labs/xv6-threads/vm.c:333-362 | After copyuvm(), every address up to sz reads as in the original, with the same flags, from a page that was free; user pages above are absent |
| Vm.Machine.CopyTurn | CS236-Spring-2025-Labs/xv6-threads/vm.c:343-355 | One page copied, or the copy is left for freevm(); the panics are not reached |
| Vm.Machine.Abandon | CS236-Spring-2025-Labs/xv6-threads/vm.c:359-361 | Everything is as before the call, but for the order of the free list |
| Vm.Machine.Uva2ka | CS236-Spring-2025-Labs/xv6-threads/vm.c:366-377 | 0 exactly for a page that is absent or closed to the user; a null pointer is read exactly if it has no page table |
| Vm.Machine.Copyout | CS236-Spring-2025-Labs/xv6-threads/vm.c:382-404 | 0 and exactly the bytes from va on are those of buf, in no other user page; or -1 at the first page that is not the user's; a null pointer is read exactly if that page has no page table |
| Vm.StopsAt | CS236-Spring-2025-Labs/xv6-threads/vm.c:392-396 | copyout() stops at the first page that is not the user's, and reads through a null pointer exactly if that one has no page table |
| Vm.NullCopy | CS236-Spring-2025-Labs/xv6-threads/vm.c:366-372 | copyout() into an address space without page tables reads through a null pointer |
| Vm.OutStep | CS236-Spring-2025-Labs/xv6-threads/vm.c:394-403 | Copying into one page changes those bytes of that address space alone |
| Processes.NoLostChild | labs/Process-management-in-xv6-main/proc.c:266-276 | A zombie has a live parent that does not sleep in wait(), and that forked it or is init |
| Processes.WokenInv | labs/Process-management-in-xv6-main/proc.c:480-487 | wakeup1() keeps the protocol's invariant |
| Processes.WokenAt | labs/Process-management-in-xv6-main/proc.c:480-487 | Exactly the processes that sleep on the channel become runnable, whatever the channel |
| Processes.ExitedInv | labs/Process-management-in-xv6-main/proc.c:264-280 | exit() keeps it: the parent is woken, children go to init, and init is woken for zombies among them |
| Processes.ExitedSlots | labs/Process-management-in-xv6-main/proc.c:242-282 | exit(), slot by slot: who is a zombie, who is woken, and whose parent becomes init |
| Processes.ScanStep | labs/Process-management-in-xv6-main/proc.c:270-276 | One turn of exit()'s loop |
| Processes.ReapInv | labs/Process-management-in-xv6-main/proc.c:301-313 | Reaping keeps it, and the pid was never reaped before |
| Processes.StepInv | labs/Process-management-in-xv6-main/proc.c:408-474 | sleep(), wakeups, yield() and dispatch keep it, for a sleeper in wait() only without a zombie child |
| Processes.AllocInv | labs/Process-management-in-xv6-main/proc.c:83-100 | A new pid, and a slot that belongs to the forking process |
| Processes.FailInv | labs/Process-management-in-xv6-main/proc.c:201-206 | A failed fork() gives the slot back |
| Processes.AdoptInv | labs/Process-management-in-xv6-main/proc.c:208 | The child's parent is the process that forked it |
| Processes.StartInv | labs/Process-management-in-xv6-main/proc.c:229-233 | The child has a live parent when it starts, and the protocol's invariant is kept |
| Processes.StateStep | labs/Process-management-in-xv6-main/proc.c:14-17 | Which section can change the state of a slot, and how; and which ones have to |
| Processes.StartedRuns | labs/Process-management-in-xv6-main/proc.c:229-233 | In every run a child that fork() has started is runnable until a section dispatches it, and keeps its pid |
| Processes.Ptable.Allocproc | labs/Process-management-in-xv6-main/proc.c:75-100 | The first unused slot, an embryo with the next pid and priority 500, or failure exactly if there is none; other slots are as before |
| Processes.Ptable.ForkFails | labs/Process-management-in-xv6-main/proc.c:201-206 | The embryo is unused again, and no other slot changes but the caller's place in fork() |
| Processes.Ptable.ForkAdopts | labs/Process-management-in-xv6-main/proc.c:208 | The embryo's parent is set, and no other slot changes |
| Processes.Ptable.ForkEnds | labs/Process-management-in-xv6-main/proc.c:227-235 | The child is runnable, its pid is returned, and no other slot changes but the caller's place in fork() |
| Processes.Ptable.Wakeup1 | labs/Process-management-in-xv6-main/proc.c:479-487 | Exactly the sleepers on the channel are runnable |
| Processes.Ptable.Exit | labs/Process-management-in-xv6-main/proc.c:242-282 | The table after exit(), slot by slot, and the invariant |
| Processes.Ptable.HandChildren | labs/Process-management-in-xv6-main/proc.c:269-276 | Exactly the children go to init, which is woken exactly if one of them is a zombie |
| Processes.Ptable.Wait | labs/Process-management-in-xv6-main/proc.c:287-326 | The first zombie child is reaped, for the first time, and its slot is unused, without pid, parent and mark; -1 only without children or when killed; else it sleeps, with no zombie child |
| Processes.Ptable.FindZombie | labs/Process-management-in-xv6-main/proc.c:296-315 | The first zombie child, and whether there are children |
| Processes.Ptable.Sleep | labs/Process-management-in-xv6-main/proc.c:440-474 | The process sleeps on the channel |
| Processes.Ptable.Dispatch | labs/Process-management-in-xv6-main/proc.c:357-363 | The process runs, out of sleep() if it was in it |
| Processes.Ptable.Kill | labs/Process-management-in-xv6-main/proc.c:502-519 | -1 exactly if no slot has the pid; else the first one that has it is marked, and made runnable if it sleeps, and no other changes |
| Processes.KilledOne | labs/Process-management-in-xv6-main/proc.c:507-518 | kill() returns 0 exactly if some slot has the pid, and marks one such slot alone |
| Processes.KillMarks | labs/Process-management-in-xv6-main/proc.c:507-515 | The process with the pid, if there is one, is the slot that is marked |
| Processes.KillClean | labs/Process-management-in-xv6-main/proc.c:507-515 | kill() leaves no unused slot marked exactly if the first slot with the pid is in use: it does not look at the state |
| Processes.FailClean | labs/Process-management-in-xv6-main/proc.c:201-206 | A failed fork() leaves its slot unmarked exactly if nobody has killed the embryo |
| Processes.SectionClean | labs/Process-management-in-xv6-main/proc.c:67-519 | Of all sections under the table lock exactly kill() of a free slot and a failed fork() of a killed embryo leave a free slot marked |
| Processes.RunClean | labs/Process-management-in-xv6-main/proc.c:67-519 | Throughout a run free slots are unmarked exactly if no section of it marks one |
| Processes.BornKilledIff | labs/Process-management-in-xv6-main/proc.c:88-98 | In every run a process is born killed exactly if kill() has found its slot since wait() last freed it |
| Processes.KillEmbryo | labs/Process-management-in-xv6-main/proc.c:201-206 | A run: an embryo is killed, its fork() fails, and the next process in the slot is born killed |
| Processes.KillZero | labs/Process-management-in-xv6-main/proc.c:91-98 | kill(0) succeeds with an unused slot, and the next process forked there is born killed |
| Scheduler.ThresholdKept | labs/Process-management-in-xv6-main/proc.c:372-375 | prio_threshold is 0, 10, ..., or 1000 in every run |
| Scheduler.ScansExact | labs/Process-management-in-xv6-main/proc.c:350-375 | How many scans in a row have a threshold above a priority |
| Scheduler.WaitStep | labs/Process-management-in-xv6-main/proc.c:349-375 | Each step that does not run the process uses up what it can still wait for |
| Scheduler.BoundedBypass | labs/Process-management-in-xv6-main/proc.c:343-377 | A runnable process of priority 0 or more is passed over by at most 101 scans, and at most 101 * (NPROC - 1) runs of others |
| Scheduler.CrowdedRun | labs/Process-management-in-xv6-main/proc.c:343-377 | From every state of a table in which all others are always eligible, the process waits exactly as long as it can wait at most |
| Scheduler.BypassAttained | labs/Process-management-in-xv6-main/proc.c:343-377 | The bounds of 101 scans and 101 * (NPROC - 1) runs are attained, for any number of processes |
| Scheduler.NegativeNeverRuns | labs/Process-management-in-xv6-main/proc.c:350-352 | A process of negative priority never runs |
| Scheduler.Scan | labs/Process-management-in-xv6-main/proc.c:347-376 | One scan is a run of the step system in which the process of each slot runs exactly if it is runnable and not below the threshold; then the threshold falls by 10, or from below 10 to 1000 |
| Pipes.WrapIndex | CS236-Spring-2025-Labs/xv6-threads/pipe.c:93 | The wrapped counter gives the right place in the ring because PIPESIZE divides 2^32 |
| Pipes.FullTest | CS236-Spring-2025-Labs/xv6-threads/pipe.c:85-106 | The tests for full and empty are exact with wrapped counters |
| Pipes.RingPut | CS236-Spring-2025-Labs/xv6-threads/pipe.c:93 | A byte put into a ring that is not full overwrites none that is pending |
| Pipes.Pipe.Write | CS236-Spring-2025-Labs/xv6-threads/pipe.c:78-98 | In every run the bytes go behind all written before; readers are left asleep with bytes to read exactly if some sleep, the call cannot go on, and the bytes do not fit |
| Pipes.Pipe.Read | CS236-Spring-2025-Labs/xv6-threads/pipe.c:100-121 | In every run the bytes read are the next ones written; 0 only at the end; nobody comes to sleep who could go on |
| Pipes.Pipe.Close | CS236-Spring-2025-Labs/xv6-threads/pipe.c:59-75 | Nobody is left asleep for want of the closed end; the pipe is freed exactly if both ends are closed |
| Pipes.KilledWriter | CS236-Spring-2025-Labs/xv6-threads/pipe.c:86-88 | A killed writer can fill the pipe and leave a reader asleep |
| Pipes.Pipe.Rouse | labs/Process-management-in-xv6-main/proc.c:508-512 | Waking a killed process keeps both sleeping conditions |
| Semaphores.CountUpdate | CS236-Spring-2025-Labs/xv6-threads/ulib.c:178-196 | One step of one thread changes the numbers of waiting and passing threads by that thread alone |
| Semaphores.Semaphore.Safety | CS236-Spring-2025-Labs/xv6-threads/ulib.c:178-196 | No more semDown() calls have returned than initVal plus semUp() calls |
| Semaphores.Semaphore.Xchg | CS236-Spring-2025-Labs/xv6-threads/ulib.c:114-121 | The lock is taken exactly if it was free |
| Semaphores.Semaphore.DownCount | CS236-Spring-2025-Labs/xv6-threads/ulib.c:190-192 | The thread waits exactly if the count falls below zero |
| Semaphores.Semaphore.WaitRelease | CS236-Spring-2025-Labs/xv6-threads/ulib.c:150 | The lock is released before the thread sleeps |
| Semaphores.Semaphore.WaitSleep | CS236-Spring-2025-Labs/xv6-threads/proc.c:486-503 | sleepChan() keeps the count of threads that have not been woken |
| Semaphores.Semaphore.UpCount | CS236-Spring-2025-Labs/xv6-threads/ulib.c:181 | The unit is counted with the lock held |
| Semaphores.Semaphore.UpSignal | CS236-Spring-2025-Labs/xv6-threads/proc.c:526-544 | Exactly the first sleeper is woken, or none if nobody sleeps; a signal is lost exactly if a thread is owed it and none has gone to sleep yet |
| Semaphores.Semaphore.DownReturn | CS236-Spring-2025-Labs/xv6-threads/ulib.c:194 | The lock is held at releaseLock() |
| Semaphores.Semaphore.SleepsOnIff | CS236-Spring-2025-Labs/xv6-threads/ulib.c:178-196 | While the lock is free and no unit is owed, a thread waits exactly if a signal was lost; every other step keeps the number of lost signals |
| Semaphores.NegativeInitVal | CS236-Spring-2025-Labs/xv6-threads/ulib.c:171-176 | With a negative initVal the bound fails |
| Semaphores.LostWakeup | CS236-Spring-2025-Labs/xv6-threads/ulib.c:150-152 | A run in which a signal between releaseLock() and sleepChan() is lost |
| Grep.OneMatches | CS236-Spring-2025-Labs/xv6-threads/grep.c:93-94 | A pattern that begins with a plain character matches as its language says |
| Grep.StarMatches | CS236-Spring-2025-Labs/xv6-threads/grep.c:89-90 | A pattern that begins with a star matches as its language says |
| Grep.ShowParse | CS236-Spring-2025-Labs/xv6-threads/grep.c:84-97 | Every string is how the pattern it is read as is written |
| Grep.ParseShow | CS236-Spring-2025-Labs/xv6-threads/grep.c:84-97 | A pattern is read back from how it is written exactly if no plain character is before a `*` or a final `$` |
| Grep.LangOne | CS236-Spring-2025-Labs/xv6-threads/grep.c:93-104 | A plain character stands for itself and `.` for any; a star stands for any number of them |
| Grep.LangConcat | CS236-Spring-2025-Labs/xv6-threads/grep.c:84-97 | Items one after the other stand for exactly the strings that can be cut into their pieces |
| Grep.MatchesSubstring | CS236-Spring-2025-Labs/xv6-threads/grep.c:72-82 | A text is matched exactly if some stretch of it is in the language, from its start for `^` and to its end for `$` |
| Grep.Match | CS236-Spring-2025-Labs/xv6-threads/grep.c:72-82 | 1 exactly if some substring of the text is in the pattern's language, at the start for `^` |
| Grep.MatchHere | CS236-Spring-2025-Labs/xv6-threads/grep.c:85-96 | 1 exactly if the pattern matches at the beginning of the text |
| Grep.MatchStar | CS236-Spring-2025-Labs/xv6-threads/grep.c:99-106 | 1 exactly if the starred character matches some prefix and the rest matches after it |
| SimpleFs.FreeUnreferenced | CS236-Spring-2025-Labs/file-system/simplefs-disk.c:129-145 | A block that is free is in no file |
| SimpleFs.FilesKept | CS236-Spring-2025-Labs/file-system/simplefs-disk.c:129-145 | Taking free blocks and writing them changes no file |
| SimpleFs.GrowOne | CS236-Spring-2025-Labs/file-system/simplefs-ops.c:217-219 | A new zeroed block at the end of a file adds no byte to it and shares no block |
| SimpleFs.WriteStep | CS236-Spring-2025-Labs/file-system/simplefs-ops.c:221-237 | The bytes of one block are written, all other bytes of the file stay |
| SimpleFs.WriteEnd | CS236-Spring-2025-Labs/file-system/simplefs-ops.c:238-239 | The file is the old one overwritten, with zeros in a gap; bytes past its end are zero; other files are as before |
| SimpleFs.NeedExact | CS236-Spring-2025-Labs/file-system/simplefs-ops.c:187-191 | Exactly the missing blocks are asked for, the fewest that hold the bytes, and the assert on their number does not fail |
| SimpleFs.ContentsByte | CS236-Spring-2025-Labs/file-system/simplefs-ops.c:116-139 | Byte k of a file is in block k / BLOCKSIZE of those that its inode names |
| SimpleFs.Disk.AllocDataBlock | CS236-Spring-2025-Labs/file-system/simplefs-disk.c:129-145 | The first free block; -1 exactly if there is none |
| SimpleFs.Disk.FreeDataBlock | CS236-Spring-2025-Labs/file-system/simplefs-disk.c:147-157 | The block is free |
| SimpleFs.Disk.AllocBlocks | CS236-Spring-2025-Labs/file-system/simplefs-ops.c:192-208 | All blocks asked for, distinct and free before, or none exactly if there are too few |
| SimpleFs.Disk.EdgeBlock | CS236-Spring-2025-Labs/file-system/simplefs-ops.c:172-185 | A new block exactly for a write at the end of a file that fills its blocks |
| SimpleFs.Disk.Write | CS236-Spring-2025-Labs/file-system/simplefs-ops.c:145-241 | 0 exactly if nothing is written or the bytes fit and blocks suffice; then they are in the file; exactly the missing blocks are taken; else no file changes, and a block is lost exactly in the case named |
| SimpleFs.Disk.TakeBlocks | CS236-Spring-2025-Labs/file-system/simplefs-ops.c:164-219 | All the missing blocks are taken and go to the file, or none but for one at the edge, which is then in no file |
| SimpleFs.LostNotInFiles | CS236-Spring-2025-Labs/file-system/simplefs-ops.c:177-206 | If every used block is in a file, a block taken for no file ends that, and only that does |
| SimpleFs.GainsInFiles | CS236-Spring-2025-Labs/file-system/simplefs-ops.c:177-219 | If the file gets every block taken, every used block stays in a file |
| SimpleFs.LostBlock | CS236-Spring-2025-Labs/file-system/simplefs-ops.c:177-206 | A disk of one block loses it to a failed write |
| SimpleFs.Disk.WriteFile | CS236-Spring-2025-Labs/file-system/simplefs-ops.c:164-241 | The same after the tests of handle, inode and size |
| SimpleFs.Disk.WriteData | CS236-Spring-2025-Labs/file-system/simplefs-ops.c:220-237 | All bytes are written, into blocks of the file alone |
| SimpleFs.Disk.Read | CS236-Spring-2025-Labs/file-system/simplefs-ops.c:101-142 | 0 exactly for a positive count within the file, and exactly those bytes |
| SimpleFs.Disk.ReadData | CS236-Spring-2025-Labs/file-system/simplefs-ops.c:121-139 | The loop collects the bytes block by block |
| SimpleFs.Disk.Create | CS236-Spring-2025-Labs/file-system/simplefs-ops.c:4-34 | An empty file in the first free inode; -1 exactly if the name is taken or no inode is free; used blocks stay in files |
| SimpleFs.Disk.Delete | CS236-Spring-2025-Labs/file-system/simplefs-ops.c:37-57 | The first file with the name is gone and exactly its blocks are free; other files are as before, and used blocks stay in files |
| SimpleFs.Disk.Open | CS236-Spring-2025-Labs/file-system/simplefs-ops.c:59-91 | The first free handle, at the start of the first file with the name; -1 exactly if there is no such file or no free handle |
| SimpleFs.Disk.Seek | CS236-Spring-2025-Labs/file-system/simplefs-ops.c:244-260 | The offset moves exactly if it stays in the file |
| Shell.GetToken | CS236-Spring-2025-Labs/xv6-threads/sh.c:266-309 | The cursor moves forward over a token, not past the end |
| Shell.ParseLine | CS236-Spring-2025-Labs/xv6-threads/sh.c:345-360 | The cursor does not move back nor past the end |
| Shell.RoundTrip | CS236-Spring-2025-Labs/xv6-threads/sh.c:328-343 | Parsing the printed form of any command tree gives back that tree |
| Shell.Reparse | CS236-Spring-2025-Labs/xv6-threads/sh.c:328-343 | Every tree the parser builds can be printed, and is parsed back |
| Shell.LineTrip | CS236-Spring-2025-Labs/xv6-threads/sh.c:345-360 | The same for a command in a block, wherever it is in the input |
| Shell.GroupTrip | CS236-Spring-2025-Labs/xv6-threads/sh.c:400-414 | A parenthesized command parses to the command, with the redirections after it |
| Shell.RedirTrip | CS236-Spring-2025-Labs/xv6-threads/sh.c:375-398 | A redirected command parses back |
| Shell.PipeTrip | CS236-Spring-2025-Labs/xv6-threads/sh.c:362-373 | A pipeline parses back |
| Shell.ListTrip | CS236-Spring-2025-Labs/xv6-threads/sh.c:355-358 | A list parses back |
| Shell.BackTrip | CS236-Spring-2025-Labs/xv6-threads/sh.c:351-354 | A background command parses back |
| Shell.ArgsTrip | CS236-Spring-2025-Labs/xv6-threads/sh.c:432-443 | The arguments of a command parse back, in order |
| Shell.LineOk | CS236-Spring-2025-Labs/xv6-threads/sh.c:345-360 | Every word of a parsed command is a whole word of the input, and no command has too many |
| Shell.NextToken | CS236-Spring-2025-Labs/xv6-threads/sh.c:266-309 | gettoken()'s loops find the token |
| Shell.ParseRedirections | CS236-Spring-2025-Labs/xv6-threads/sh.c:375-398 | parseredirs() wraps the command in the redirections |
| Shell.ParseArguments | CS236-Spring-2025-Labs/xv6-threads/sh.c:432-443 | The loop of parseexec() computes Args, the words and redirections that `ShellSyntax.ParsesIff` speaks about |
| Shell.ParseSimple | CS236-Spring-2025-Labs/xv6-threads/sh.c:416-447 | parseexec(): a block, or a command with its redirections |
| Shell.ParseGroup | CS236-Spring-2025-Labs/xv6-threads/sh.c:400-414 | parseblock(): a line in parentheses and redirections |
| Shell.ParsePipeline | CS236-Spring-2025-Labs/xv6-threads/sh.c:362-373 | parsepipe() |
| Shell.ParseLines | CS236-Spring-2025-Labs/xv6-threads/sh.c:345-360 | parseline() |
| Shell.Nulterminate | CS236-Spring-2025-Labs/xv6-threads/sh.c:450-494 | A NUL at the end of every word of the tree, and nowhere else |
| Shell.WordsTerminated | CS236-Spring-2025-Labs/xv6-threads/sh.c:449-494 | After that each word is a string equal to its slice of the input: no NUL falls into a word |
| Shell.ParseCommand | CS236-Spring-2025-Labs/xv6-threads/sh.c:328-343 | parsecmd(): the tree that `ShellSyntax.ParsesIff` describes, or a panic; afterwards every word is a string in the buffer, and no character of a word was overwritten |
| ShellSyntax.ParsesIff | CS236-Spring-2025-Labs/xv6-threads/sh.c:328-447 | The parser accepts exactly the spellings of the lines of the grammar, with any white space between tokens, and gives the command the line stands for |
| ShellSyntax.ParsesWritten | CS236-Spring-2025-Labs/xv6-threads/sh.c:328-447 | Every spelling of every line is parsed to what the line stands for: words in order, redirections before, between and behind them in order, pipelines, `;`, `&` and blocks |
| ShellSyntax.Unambiguous | CS236-Spring-2025-Labs/xv6-threads/sh.c:328-447 | No input is a spelling of lines that stand for different commands |
| ShellSyntax.LexTrip | CS236-Spring-2025-Labs/xv6-threads/sh.c:263-309 | Tokens with white space between them, at the start and at the end are read as these tokens |
| ShellSyntax.LexSound | CS236-Spring-2025-Labs/xv6-threads/sh.c:263-309 | Every input is tokens with white space between them |
| ShellSyntax.PeekIs | CS236-Spring-2025-Labs/xv6-threads/sh.c:311-322 | What peek() sees is the first character of the next token |
| ShellSyntax.FileStep | CS236-Spring-2025-Labs/xv6-threads/sh.c:375-398 | A redirection is taken with its file name, and wraps the command |
| ShellSyntax.ArgStep | CS236-Spring-2025-Labs/xv6-threads/sh.c:432-443 | A word is taken as the next argument of the command inside the redirections |
| ShellSyntax.ItemsTrip | CS236-Spring-2025-Labs/xv6-threads/sh.c:416-447 | Words and redirections in any order give all words in order, in all redirections in order |
| ShellSyntax.FilesTrip | CS236-Spring-2025-Labs/xv6-threads/sh.c:375-398 | The redirections behind a block wrap it in order |
| ShellSyntax.ElemTrip | CS236-Spring-2025-Labs/xv6-threads/sh.c:400-447 | A simple command or a block is parsed to what it stands for |
| ShellSyntax.PipeTrip | CS236-Spring-2025-Labs/xv6-threads/sh.c:362-373 | A pipeline without parentheses is parsed to what it stands for |
| ShellSyntax.BacksTrip | CS236-Spring-2025-Labs/xv6-threads/sh.c:351-354 | Each `&` puts what is before it into the background |
| ShellSyntax.LineTrip | CS236-Spring-2025-Labs/xv6-threads/sh.c:345-360 | A line without parentheses is parsed to what it stands for |
| ShellSyntax.ItemsSound | CS236-Spring-2025-Labs/xv6-threads/sh.c:416-447 | What parseexec()'s loop accepts are words and redirections, fewer than MAXARGS words |
| ShellSyntax.ElemSound | CS236-Spring-2025-Labs/xv6-threads/sh.c:400-447 | What parseexec() accepts is a simple command or a block |
| ShellSyntax.PipeSound | CS236-Spring-2025-Labs/xv6-threads/sh.c:362-373 | What parsepipe() accepts is a pipeline |
| ShellSyntax.LineSound | CS236-Spring-2025-Labs/xv6-threads/sh.c:345-360 | What parseline() accepts is a line |

## Left out

- UMalloc.Allocator.Malloc: after going on with a block beyond the memory, or after losing all of it, nothing more is said; memory ends on a unit of eight bytes.
- UMalloc.Allocator.Sbrk: the system call is any extension at or above the old end of the data segment, or a failure; its own code is not modelled.
- BufferCache.Cache.Bread: waiting for another holder of a buffer is a result, not a schedule; the sleep lock's queue is not modelled.
- BufferCache.Cache.Bget: device 0, block 0 is not asked for; binit() leaves every buffer with that name.
- BufferCache.Cache.Brelse: the holder has written or logged what it changed; the source relies on that and does not test it.
- Log.LogState.Commit: a commit is one step for the readers, which hold the same buffers throughout, of blocks that it neither logs nor installs, and leave it one more than it has logged (`Log.LogState.Readers`); in the source it waits for a reader of a block that it needs. The same holds for Publish, Finish, CommitLog, WriteLog and InstallTrans.
- Log.LogState.LogWrite: an operation logs new blocks within its allowance of MAXOPBLOCKS only; begin_op() relies on that. The change of the buffer and log_write() are one step.
- Storage.Machine.Transact: one operation at a time, of one process, with a bitmap of one block; `Log` has operations that interleave. The blocks of a transaction go into the log after writei() has changed them, each once, instead of at each change.
- Inodes.FileSystem.Writei: devices (T_DEV) are not modelled.
- Inodes.FileSystem.Iupdate: type, major, minor and nlink of an inode are not modelled; their words in the table do not change.
- Inodes.ChunkBound: stated for a bitmap of one block; with more bitmap blocks a chunk can log more.
- Files.File.Write: begin_op() and end_op() are the moments at which the set of logged blocks is emptied and recorded; the log itself is the module Log.
- Vm.Machine.Copyout: addresses are below KERNBASE; what a read through a null pointer gives is not modelled.
- Vm.Machine.Mappages: the range does not wrap around the address space.
- Vm.Machine.Deallocuvm: old sizes up to KERNBASE.
- Processes.Ptable.Allocproc: pids are unbounded; nextpid's overflow is not modelled.
- Processes.Ptable.Exit: closing files and the current directory happen before the modelled section.
- Scheduler.BoundedBypass: one CPU; the process's own priority does not change while it waits.
- Pipes.Pipe.Write: a pipe end is not closed while a process is inside a call on it, as the file's reference count sees to.
- Semaphores.Semaphore.UpSignal: the unlocked scan of sigOneChan() is one step; kill() and broadcast() are not in the runs; ctr does not overflow.
- SimpleFs.Disk.Write: counts are not negative and sums with the offset do not overflow; names fit their field; the superblock and inode blocks are fields instead of bytes on disk.
- Shell.ParseArguments: argv is a sequence that grows; the source fills the array of the command in place, inside redirections already built around it, which the added argument of the nested command mirrors.
- Shell.RoundTrip: the printer parenthesizes every part of a command; all other spellings are the subject of `ShellSyntax.ParsesIff`.
- Directories, path names, the inode cache and its reference counts, and links: fs.c above the inode layer.
- Liveness of the log, pipes and semaphores; fairness of wakeups.
- exec(), loading of programs, create_thread_stack(), system call argument checks, traps, interrupts, spin locks and memory ordering.
- grep()'s buffer over read(), and the rest of the shell: running commands.
- The other copies of the same files in the repository's labs, and its small example programs.
