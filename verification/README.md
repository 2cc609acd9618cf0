# nunix in Dafny

nunix is a small Unix in C: a teaching kernel with its shell, allocator and tools. This project models the
parts of it whose correctness is not plain from any one function, and proves what they promise:

- the write-ahead log and the buffer cache under it, with crashes at every disk write, also during recovery;
- block allocation, file contents, truncation, the disk that mkfs builds, and any calls on any of its files;
- link counts and the directory tree, path lookup and the inode cache;
- pipes, with sleep, wakeup and kill spelled out step by step;
- the process table: fork, exit, wait, and the tree of parents;
- page tables, frames, and the memory of one process over its whole life and of many together;
- the user-level allocator, the shell's parser, and grep's matcher.

Code that changes things in place is a class whose methods change its fields, with the loops of the source.
Code that runs concurrently is a state machine over its steps, so that a statement about every run covers
every interleaving. Each method is proved against a function or a machine step, and the properties are lemmas
about those.

`dafny verify dfyconfig.toml` checks everything.

## How the modules fit together

| part | modules |
|---|---|
| blocks and words | `Blocks`, `Bitmap` |
| log | `WriteAhead` (what sequences of block writes do to a disk), `LogMachine`, `LogSafety`, `LogTheorems` (all runs, all crashes), `LogCalls` (the same from the calls alone), `Log` (the code on the buffer cache), `LogRun` (its callers) |
| buffer cache | `BufferCache` (ring and coherence), `Bcache` (the code) |
| files | `FsLayout` (the format of fs.h), `FsFormat` (the same byte by byte), `FsExact` and `FsSteps` (a volume without its encoding), `FsView` (how a disk shows a volume), `FsFiles` (a volume as byte strings), `Fs` (the code), `Mkfs`, `FsRun` (whole runs) |
| names | `Directories`, `Links`, `LinkSafety`, `LinkOps` (link counts), `Path`, `Icache` (lookup), `LinkLookup` (lookup in the trees that link operations leave) |
| pipes | `Pipe` (the ring), `PipeMachine`, `PipeSafety`, `PipeCalls` (what single calls do), `PipeKilled` (a lost wakeup) |
| processes | `ProcMachine`, `ProcSafety`, `ProcTable` (the loops), `ProcLaws` (single steps), `ProcKilled` (marks on free entries) |
| memory | `PageTable`, `Vm`, `VmLife` (growproc), `VmShare` (many processes) |
| user programs | `FreeList`, `Umalloc`; `ShellSyntax`, `ShellLaws`, `ShellRoundTrip`, `Shell`; `Grep` |
| shared | `Options`, `Params`, `Sequences` |

## What the code does not meet

Some expected properties fail in the code as it is. Each is kept as it is in the model, with the exact condition.

- `log_write` can panic within every operation's allowance. New blocks never meet the panic if and only if the
  log area is larger than LOGSIZE (`LogTheorems.NewWritesNeverPanicIff`); mkfs makes it exactly LOGSIZE
  (mkfs.c:17). With a larger area a full list still panics on a block that is already on it
  (`LogTheorems.FullListPanics`).
- A commit panics in `bget` if and only if its list pins all NBUF buffers (`Log.Journal.Commit`, `Log.NoVictim`),
  which is possible because NBUF is LOGSIZE (param.h:11-12). Everything open can always be brought to an end if and
  only if the log area is not larger than LOGSIZE (`LogTheorems.AlwaysDrainsIff`). So no size of the log area avoids
  both panics (`LogTheorems.NoSizeAvoidsBoth`).
- Making an entry in a directory that has been removed but is still in use breaks link counts, and is the only
  thing that does (`LinkSafety.KeepsIff`, example `LinkSafety.UnlinkedParent`).
- A lookup that starts in such a directory can come to an inode that has been freed, and `ilock` panics there
  (example `LinkLookup.RemovedParent`). Where no allocated inode on the way is without links and references, it does
  so if and only if an inode on the way is not allocated (`Icache.WalkMeans`), which no lookup from an inode with links
  meets (`LinkLookup.LookupInTree`).
- mkfs gives the root directory a block too many in its size if and only if its entries fill a whole number of
  blocks: `Mkfs.Builder.FixRootSize`.
- `readi` of such a missing block allocates one; it changes nothing if and only if none is missing
  (`Fs.Volume.Readi`). The address of the new block may stay in memory. Then the disk has a block marked that no dinode
  refers to: the bitmap is exact on disk if and only if the inode in memory has no address that its dinode lacks
  (`FsFiles.DiskExactIff`). A `readi` leaves it exact if and only if the inode had all the addresses for it, and a
  `writei` if and only if it had or the file gets longer (`FsRun.DoRead`, `FsRun.DoWrite`). Every run of calls does if
  and only if every inode has the addresses for its whole file (`FsFiles.AlwaysGoodIff`). On the disk that mkfs makes
  that is so if and only if the entries of the root directory do not fill a whole number of blocks, or need the
  indirect block (`FsRun.MakeAndRun`, example `FsRun.ThirtyItems`).
- `allocuvm` loses a frame if and only if the last free frame goes to a page that is the first one of a missing table.
  The free frames and the tables at the start settle at which page that is, if at all (`Vm.Memory.AllocUvm`,
  `Vm.LosesOnce`). If more pages are asked for, it fails (example `Vm.LostFrame`). If it is the last page, it returns
  the new size although that page is not mapped (example `Vm.HoleBelowSize`).
- `setupkvm` fails if and only if there are fewer than 65 free frames, and then takes all of them for good
  (`Vm.Memory.SetupKvm`). `copyuvm` that fails for want of others loses a frame if and only if the last free frame goes
  to the first page of a table (`Vm.Memory.CopyUvm`).
- `growproc` keeps the old size when a process gives up all its memory, and raises the size over such a missing page.
  Its pages are no longer those below its size in these two cases, and in no others (`VmLife.Growproc`). A fork of a
  process with a page missing below its size panics in `copyuvm` if and only if there are frames for the pages before
  it (`Vm.Memory.CopyUvm`). Memory is conserved all the same, but for frames lost (`VmLife.Life`).
- `deallocuvm` that starts in the middle of a missing table goes on at the same place of the next one, and leaves the
  pages before it mapped (`Vm.Memory.DeallocUvm`, `Vm.ResumeSkips`, example `VmLife.PassesBy`). `growproc` leaves pages
  mapped above the size if and only if it shrinks in this way (`VmLife.Growproc`); `freevm` never does
  (`Vm.Memory.FreeVm`).
- A killed writer that finds a pipe full returns without a wakeup for readers (pipe.c:85-88). A run loses no reader's
  wakeup if and only if no killed writer does so while a reader sleeps (`PipeSafety.ReadersIff`, example
  `PipeKilled.LostWakeup`). No writer's wakeup is ever lost (`PipeSafety.NoLostWakeup`).
- A process that is killed between its test for that and its sleep goes to sleep all the same. No killed process ever
  sleeps in a pipe if and only if no kill comes there (`PipeSafety.HeardIff`).
- `kill(0)` marks a free entry of the process table, and `allocproc` keeps the mark, so that the next child there is
  killed from the start (example `ProcKilled.KillZero`). A child is so if and only if `kill` has hit the entry while it
  was free or a fork was filling it in, since it was last reaped (`ProcKilled.BornKilled`).
- `malloc` of more than 0xFFFFFFF8 bytes hands out a block without room, and only then (`Umalloc.Heap.Malloc`,
  example `Umalloc.NoRoom`). From 0x7FFFFFF1 up to 0xFFFFFFF8 bytes, the `int` argument of `sbrk` is not positive;
  unless a free block was large enough, malloc then hands out memory that the process does not have, and only then
  (`Umalloc.Heap.Malloc`, example `Umalloc.NoMemory`). The model goes on where the process would have been stopped
  before: the header that morecore writes there (umalloc.c:57) is a page fault.

## Hypotheses

- A block write to disk is atomic. Writes reach the disk in the order in which they are issued.
- An operation logs at most MAXOPBLOCKS distinct blocks (param.h:10), all of them below the log area. Nothing in
  the code enforces the number. The bitmap that mkfs writes does not mark the log area, so a file system with no free
  block left of it would break the latter.
- `log_write` runs without interference although it takes no lock (log.c:210-228).
- The methods of `Log.Journal`, and the calls of `LogRun`, run one after another, with no buffer in use in between;
  `LogMachine` is the part about concurrency, in which a commit finds a buffer exactly if its list leaves one.
- `sbrk` returns addresses above all it returned before, as long as it is asked for memory; the allocator's `base`
  header lies below them. The break of a process is a whole number of units of 8 bytes.
- An end of a pipe is closed only by the last user of that end, as file.c sees to by reference counts.
- `pid`s do not run over, and the table lock is the only lock in the process table model. Between taking and
  giving back that lock a process takes one step per table entry, and the writes of fork that are made without it
  fall anywhere in between.
- Path lookup and the link operations other than link are taken to run one after another.

## Model

| member | source | states |
|---|---|---|
| `WriteAhead.HeaderRoundTrip` | log.c:83-112 | a header block written by write_head reads back as the same list of sectors |
| `WriteAhead.RecoveredIs` | log.c:67-81 | recovery puts every logged block at its home, touches no other home block, and leaves an empty log |
| `WriteAhead.RecoverCrash` | log.c:114-121 | a crash after any number of recovery's writes, followed by a full recovery, gives the home blocks of an undisturbed recovery |
| `WriteAhead.CommitCrash` | log.c:173-199 | a crash after any number of commit's writes followed by recovery gives all of the transaction or nothing of it, and which of the two is decided by the header write |
| `WriteAhead.CommitDone` | log.c:189-199 | a finished commit leaves the logical disk at home and the log empty |
| `LogSafety.StepKeeps` | log.c:123-228 | every step of the log, of a crash and of recovery keeps the invariant that ties disk, cache, list, reservations and history together |
| `LogSafety.RunKeeps` | log.c:123-228 | so does every run |
| `LogSafety.DiskRecovers` | log.c:67-121 | at any moment, recovering the disk gives exactly the transactions committed so far |
| `LogTheorems.CrashSafety` | log.c:67-121 | after every run with crashes anywhere, also in recovery, recovery gives the initial disk with a whole number of transactions applied: each one whole for every operation in it, and all whose commit returned |
| `LogTheorems.LogicalDisk` | log.c:201-228 | while the system is up, what operations read is the initial disk with all committed transactions and the open one applied |
| `LogTheorems.ReservationSafety` | log.c:123-171 | the list plus all unused reservations never exceeds LOGSIZE, the list has no duplicates, a commit runs with no operation open, and the list is empty when nothing is open and no commit runs |
| `LogTheorems.NeverStuck` | log.c:142-171 | every open operation can end: no commit is under way, so the panic of end_op is out of reach |
| `LogTheorems.SleepOnlyForReason` | log.c:123-140 | a caller sleeps in begin_op only while a commit runs or the list, the operations under way and the caller may need more blocks than the log has, and then there is an open operation or a commit that will wake it |
| `LogTheorems.BeginOrSleep` | log.c:123-140 | in every reachable state a caller of begin_op starts an operation of its own, or sleeps for that reason, and which of the two is decided by it |
| `LogTheorems.CommitRunsOut` | log.c:189-199 | a running commit that leaves a buffer can be run to its end, after which nothing is open and nobody sleeps |
| `LogTheorems.SleepersCanBeWoken` | log.c:123-171 | from a reachable state, ending what is open brings everything to an end and wakes all sleepers, without a crash or help from outside, if and only if the list leaves a buffer |
| `LogTheorems.PanicExactly` | log.c:210-216 | with a log area larger than LOGSIZE, log_write within the allowance panics only on a full list, and then for a block that is already on it |
| `LogTheorems.NewWritesNeverPanicIff` | log.c:210-216 | log_write of a new block within the allowance never panics, in any run, if and only if the log area is larger than LOGSIZE |
| `LogTheorems.FullListPanics` | log.c:210-216 | a run that fills the list, after which logging a listed block again panics although the operation has allowance left |
| `LogTheorems.AlwaysDrainsIff` | log.c:173-187 | that is so in every reachable state if and only if the log area has at most LOGSIZE blocks |
| `LogTheorems.NoSizeAvoidsBoth` | log.c:210-216 | new blocks never make log_write panic if and only if some commit cannot be brought to an end |
| `LogCalls.Survives` | log.c:67-228 | after every run with crashes anywhere, recovery leaves in each home block what the calls of log_write in the run last logged for it, but for the calls of some operations, which are lost as a whole; no operation is lost that logged a block before a commit came to its end without a crash in between, and none at all without a crash once everything has ended |
| `LogCalls.Undisturbed` | log.c:142-228 | without a crash, once everything has ended, the disk itself holds in each home block what was last logged for it |
| `LogCalls.DurableStays` | log.c:142-199 | a block logged before a commit came to its end, without a crash in between, is in a committed transaction for good |
| `LogCalls.ReplayAt` | log.c:67-81 | transactions applied in full leave in each block what was last logged for it |
| `Log.Journal.constructor` | log.c:51-65 | recovery has run: exactly its writes are issued, the list is empty, nothing is pinned or in use |
| `Log.Journal.InstallTrans` | log.c:67-81 | issues exactly the install writes, unpins every listed block, and gives all buffers back; panics, before any write, exactly if the list pins all buffers |
| `Log.Journal.ReadHead` | log.c:83-95 | the list in memory becomes the list of the header on disk |
| `Log.Journal.FillHeader` | log.c:97-112 | the block to write holds the count and the list |
| `Log.Journal.WriteHead` | log.c:97-112 | one disk write, of the header block with the current list |
| `Log.Journal.RecoverFromLog` | log.c:114-121 | issues exactly the writes of a recovery, so that the disk becomes the recovered one |
| `Log.Journal.BeginOp` | log.c:123-140 | admits the caller if and only if no commit runs and n + (outstanding + 1) * 10 <= 30, and counts it |
| `Log.Journal.EndOp` | log.c:142-171 | the last operation out, with no buffer in use, commits with exactly the writes of a commit, or panics in bget exactly if its list pins all buffers; the others change only the count |
| `Log.Journal.WriteLog` | log.c:173-187 | issues exactly one log write per listed block, with the contents that the cache has for it; panics, before any write, exactly if the list pins all buffers |
| `Log.Journal.ReadyToCommit` | log.c:189-199 | with an empty log on disk the cached state meets the conditions under which a commit is crash-safe |
| `Log.Journal.Commit` | log.c:189-199 | goes through if and only if the list is shorter than NBUF: then it issues exactly the writes of a commit of the listed blocks, unpins them and empties the list; otherwise nothing is written |
| `Log.Journal.LogWrite` | log.c:201-228 | the block is on the list exactly once; it joins the pinned blocks, and no other does; nothing is written |
| `Log.CopyToLog` | log.c:179-186 | one round of write_log: the cached contents of a home block go to its log block, and no pin changes; panics exactly if all buffers are pinned |
| `Log.InstallBlock` | log.c:73-80 | one round of install_trans: the log block goes to its home, which is unpinned; panics exactly if all buffers are pinned |
| `Log.VictimExists` | bio.c:82-94 | with fewer pinned blocks than buffers and none in use, bget finds a buffer |
| `Log.NoVictim` | bio.c:82-94 | with as many pinned blocks as buffers, bget of a block that is not pinned finds neither it nor a buffer for it |
| `Log.CommitParts` | log.c:189-199 | the four parts of commit one after the other are the writes of a commit |
| `Log.RecoverParts` | log.c:114-121 | the parts of recover_from_log one after the other are the writes of a recovery |
| `LogRun.Put` | log.c:201-228 | bread, a change, log_write and brelse put the block into the logical disk and on the list, and leave exactly the listed blocks pinned and no buffer in use |
| `LogRun.LastOut` | log.c:142-171 | the commit that the last end_op makes is a run of the machine to the same disk, the same home blocks and an empty list |
| `LogRun.RunCalls` | log.c:123-228 | any sequence of begin_op, block changes and end_op by operations that keep to their allowance, from a recovered log, leads to the log, cache and disk of a state that the machine reaches with the same log_writes; it ends early only with one of the two panics |
| `BufferCache.UnlinkKeeps` | bio.c:129-130 | taking a buffer out of the ring by its two pointer writes leaves a well-linked ring of the others |
| `BufferCache.PushKeeps` | bio.c:131-134 | the four pointer writes behind the head leave a well-linked ring with the buffer in front |
| `BufferCache.ViewWrite` | memide.c:36-58 | writing a dirty buffer out does not change the logical disk |
| `BufferCache.ViewRecycle` | bio.c:82-92 | giving a clean idle buffer to another block does not change the logical disk |
| `Bcache.Cache.constructor` | bio.c:37-56 | binit links all buffers into one ring with nothing cached |
| `Bcache.Cache.Bget` | bio.c:58-95 | a buffer for the block if there is one, the least recently used clean idle one if not; panics exactly when there is none; never two buffers for a block, and the logical disk stays |
| `Bcache.Cache.Bread` | bio.c:97-107 | the buffer holds the block of the logical disk, and succeeds exactly when the block is cached and idle or a clean idle buffer exists |
| `Bcache.Cache.Bwrite` | bio.c:109-117 | the disk gets the buffer's contents, the buffer is clean, the logical disk stays |
| `Bcache.Cache.Brelse` | bio.c:119-140 | the buffer becomes the most recently used one and the order of the others stays |
| `Bcache.Cache.Iderw` | memide.c:33-58 | writes a dirty buffer or fills an invalid one, and the logical disk stays |
| `Bitmap.BitAfter` | fs.c:64-66 | setting or clearing a bit changes that bit and no other |
| `FsLayout.InodeAfterPut` | fs.h:28-37 | a dinode stored in an inode block reads back, and its neighbours stay |
| `FsLayout.Regions` | fs.h:39-46 | inode blocks, bitmap blocks and data blocks do not overlap |
| `FsFormat.DinodeOnDisk` | fs.h:26-40 | byte by byte: inode i is the 64 bytes from 64 * (i % 8) on of block i / 8 + 2, and where its fields are |
| `FsFormat.MarkOnDisk` | fs.h:42-46 | block b is marked by bit b % 8 of byte b % 4096 / 8 of block b / 4096 + ninodes / 8 + 3 |
| `FsFormat.FileByteOnDisk` | fs.c:348-386 | byte k of a file is byte k % 512 of the block that address k / 512 names, or, from block 12 on, the block that number k / 512 - 12 in the indirect block names |
| `FsExact.ExactAdd` | fs.c:51-76 | giving a slot a free block and marking it keeps the bitmap exact: marked means metadata or referred to by exactly one slot of one inode |
| `FsExact.ExactRemove` | fs.c:78-95 | emptying a slot and clearing its block's mark keeps the bitmap exact |
| `FsExact.RefMarked` | fs.c:88-91 | a block in a slot is marked, so "freeing free block" is out of reach |
| `FsExact.GrowKeeps` | fs.c:358-372 | a new direct or indirect block keeps the bitmap exact and no byte of any file changes |
| `FsExact.GrowEntryKeeps` | fs.c:374-383 | so does a new block in the indirect block |
| `FsSteps.AfterFree` | fs.c:400-405 | a freed slot's block was marked, the bitmap stays exact, and other inodes and their blocks stay |
| `FsSteps.AfterFreeEntry` | fs.c:407-415 | so does a freed entry of the indirect block |
| `FsSteps.SplicedChunk` | fs.c:481-487 | one round of writei's loop extends the splice by the bytes it copies |
| `FsSteps.UntouchedBytes` | fs.c:348-421 | where other inodes and the blocks they refer to stay, so do the bytes of other files |
| `FsView.ShowsMark` | fs.c:60-68 | writing a bit of the bitmap on disk is changing one mark of the volume |
| `FsView.MarkedAfter` | fs.c:78-95 | setting or clearing the mark of a block on disk leaves the marks of all other blocks |
| `FsView.ShowsInode` | fs.c:200-217 | writing a dinode on disk is changing that inode of the volume only |
| `FsView.ShowsData` | fs.c:481-486 | writing a data block on disk changes no mark and no dinode |
| `FsView.BytesOnDisk` | fs.c:434-460 | the bytes of a file of the volume are those found through the disk itself |
| `Fs.Volume.Balloc` | fs.c:49-76 | the first free block, marked and zeroed; panics exactly when all are marked |
| `Fs.Volume.Bfree` | fs.c:78-95 | afterwards the block is free and every other block, on disk too, is marked as before |
| `Fs.Volume.Bmap` | fs.c:348-386 | the block of the file, allocated if need be; an allocated block changes nothing, and a new one no byte of any file; fails only when every block is marked |
| `Fs.Volume.Iupdate` | fs.c:200-217 | the dinode becomes the inode in memory; marks, blocks and the other dinodes of the volume stay |
| `Fs.Volume.Readi` | fs.c:434-460 | exactly a slice of the file's bytes up to its end, also where blocks are missing; the volume changes if and only if one is, and the inode if and only if it lacks an address, but no byte of a file does; -1 exactly for a start past the end or an overflow; panics only on a full disk or when it reads past the largest file |
| `Fs.Volume.Writei` | fs.c:462-494 | exactly a splice: every other byte of every file stays, other inodes and their blocks stay, blocks below the size stay mapped; the inode gains exactly the addresses for the bytes written; the dinode is the inode in memory if and only if the file got longer or no address was missing; -1 exactly out of range, and then nothing changes; panics only when every block is marked |
| `Fs.Volume.Itrunc` | fs.c:388-421 | no slot keeps a block, none is freed twice, the bitmap is exact, and other inodes and their blocks stay |
| `Fs.Volume.Select` | fs.c:266-297 | turning to another inode, once the one in memory is on disk, loads it as it is on disk |
| `FsFiles.WriteFiles` | fs.c:462-494 | a splice of a file on the volume is a splice of its byte string, and all other byte strings stay |
| `FsFiles.OtherFiles` | fs.c:348-494 | a change of one inode that leaves the other inodes and their blocks leaves all other byte strings, and their blocks there |
| `FsFiles.DiskExactIff` | fs.c:348-386 | where a dinode lacks at most some addresses of the inode in memory, the bitmap is exact for the dinodes on disk if and only if it lacks none |
| `FsFiles.AlwaysGoodIff` | fs.c:348-494 | every run of readi, writei and itrunc uses only addresses that are there, or makes files longer, if and only if every inode has the addresses for its whole file |
| `FsRun.DoRead` | fs.c:434-460 | readi of a file gives back its bytes; afterwards the bitmap is exact on disk if and only if the inode had all the addresses for them |
| `FsRun.DoWrite` | fs.c:462-494 | writei of a file splices its bytes; afterwards the bitmap is exact on disk if and only if the inode had all the addresses for them or the file got longer |
| `FsRun.Run` | fs.c:348-494 | any readi, writei and itrunc on any files, from any volume whose inodes are on disk: the bitmap is exact on disk afterwards if and only if every call had its addresses or made the file longer, and then the calls read what the same calls on byte strings read and leave the byte strings that those leave; it stops after the first call that did not, and panics only when every block is marked or past the largest file |
| `FsRun.MakeAndRun` | mkfs.c:60-158 | the same from the disk that mkfs makes of any items; all runs keep the bitmap exact on disk if and only if the entries of the root directory do not fill a whole number of blocks, or need the indirect block |
| `FsRun.ThirtyItems` | mkfs.c:148-153 | with 30 items, a read of one entry past the 32 that are there leaves the bitmap wrong on disk, unless the disk is full |
| `Mkfs.FirstBitsMean` | mkfs.c:233-247 | the bitmap block that mkfs builds has exactly the first n bits set |
| `Mkfs.Builder.constructor` | mkfs.c:98-105 | a new disk has only metadata in use and only empty inodes |
| `Mkfs.Builder.Ialloc` | mkfs.c:219-231 | the next inode with one link and no blocks, and no file changes |
| `Mkfs.Builder.Iappend` | mkfs.c:249-298 | the bytes are added at the end of that file, all others stay, the bitmap to be written stays exact and every file has exactly the blocks for its size; fails only for a file that gets too long or when all blocks are handed out |
| `Mkfs.Builder.FixRootSize` | mkfs.c:148-153 | afterwards the root directory has the blocks for its size if and only if its size was not a multiple of the block size |
| `Mkfs.Builder.WriteBitmap` | mkfs.c:233-247 | the disk shows the volume: the bitmap is exact |
| `Mkfs.Builder.MakeFs` | mkfs.c:60-158 | the finished disk has an exact bitmap; inode 1 is a directory and item i is inode i + 2, a file, with one link each and the bytes of the item, and no inode after them is in use; the root directory starts with the entries, and its size is right unless the number of entries is a multiple of 32; fails only when all blocks are handed out, there are too many items, or one is too long |
| `FsFormat.RootLookup` | mkfs.c:107-142 | dirlookup on the bytes of the root directory finds item i, by its name cut to 14 bytes, as inode i + 2, and both dots as inode 1, for items whose names so cut are different, not dots and without zero bytes |
| `FsFormat.DirentEntry` | fs.h:50-53 | an entry is two bytes of inode number, low byte first, and 14 of name, padded with zeros |
| `LinkSafety.EmptyDirectory` | sysfile.c:210-213 | an empty linked directory has exactly one link, the entry in its parent |
| `LinkSafety.RmdirKeeps` | sysfile.c:180-236 | removing a directory keeps counts and tree, for the directory, its parent and all others |
| `LinkSafety.MkdirKeeps` | sysfile.c:238-281 | making a directory keeps counts and tree |
| `LinkSafety.StepKeeps` | sysfile.c:114-281 | every link, unlink, create, mkdir and last release in linked directories keeps counts and tree |
| `LinkSafety.LinkCounts` | sysfile.c:114-281 | after every such run each inode's link count is the number of entries other than "." that name it in linked directories, plus links under way |
| `LinkSafety.TreeKept` | sysfile.c:114-281 | after every such run each linked directory reaches the root through "..", entries name allocated inodes with links, and a directory is named by its parent alone |
| `LinkSafety.UnlinkGoesOn` | sysfile.c:208-209 | unlink in a linked directory never panics and never waits for its own lock |
| `LinkSafety.FailedLink` | sysfile.c:154-161 | a link that fails leaves every inode as it was |
| `LinkSafety.KeepsIff` | sysfile.c:114-281 | a step keeps the counts right if and only if the directory in which it makes an entry, if it makes one, is linked |
| `LinkSafety.UnlinkedParent` | sysfile.c:238-281 | a run in which a file made in a removed directory has one link and no entry |
| `LinkOps.Volume.DirLookup` | fs.c:505-531 | the first entry in use with that name |
| `LinkOps.Volume.DirLink` | fs.c:533-561 | fails if and only if an entry in use has the name; otherwise the entry is in the first free place and no other entry changes, so that the name is found as the inode and all other names as before |
| `LinkOps.FindAfterPut` | fs.c:545-558 | a name that is not there is found after its entry is put into the first free place, and every other name as before |
| `LinkOps.FindAfterClear` | sysfile.c:216-219 | clearing the first entry of a name changes nothing for any other name |
| `LinkOps.Volume.IsDirEmpty` | sysfile.c:164-178 | true exactly if no entry past the dots is in use |
| `LinkOps.Volume.Ialloc` | fs.c:175-198 | the first free inode; panics exactly when there is none |
| `LinkOps.Volume.Link` | sysfile.c:114-162 | takes the steps of a link: it fails, and restores everything, if and only if the inode is a directory, there is no parent on its device, or an entry in use has the name; otherwise the inode has one link more, the name is found as the inode, all other names as before, and nothing else changes |
| `LinkOps.Volume.Unlink` | sysfile.c:180-236 | takes the step of an unlink: it fails if and only if the name is a dot or not there, or names a directory with an entry past the dots in use; otherwise the first entry with the name is cleared, the inode has one link less, the parent one less exactly for a directory, all other names are found as before, and nothing else changes |
| `LinkOps.Volume.Create` | sysfile.c:238-281 | takes the step of a create: a name that is there is found, for a plain file only, and nothing changes; otherwise the first free inode has one link and, for a directory, its dots, the parent has the entry and for a directory one link more, the name is found as the inode, all other names as before, and nothing else changes; panics if and only if no inode is free |
| `Path.SkipElem` | fs.c:566-601 | takes the first element off a path; elements are the non-empty fields between slashes, cut to DIRSIZ |
| `Path.ElementFirst` | fs.c:566-601 | a run without slashes, and the slashes after it, are the first element and what separates it from the rest |
| `Icache.Cache.constructor` | fs.c:158-168 | an empty cache holds no reference |
| `Icache.Cache.Iget` | fs.c:219-253 | one reference more to that inode and to no other, never two slots for an inode; panics exactly when all slots are in use and none has it |
| `Icache.Cache.Idup` | fs.c:255-264 | one reference more to that inode and to no other |
| `Icache.Cache.Ilock` | fs.c:266-297 | the slot is locked and holds the inode on disk; no reference changes; panics exactly on an inode without a type |
| `Icache.Cache.Iunlock` | fs.c:299-310 | the slot is unlocked; no reference changes |
| `Icache.Cache.Iput` | fs.c:312-338 | one reference less; the inode is freed on disk exactly when it was the last one and there are no links |
| `Icache.Cache.DirLookup` | fs.c:505-531 | a new reference to the inode that the directory names, or nothing changes; fails only when all slots are in use |
| `Icache.Cache.Namex` | fs.c:603-640 | does exactly what `Icache.Walk` says on any store, from inode 1 of device 1 for a path with a slash in front and from cwd for any other, including the inodes that are freed when the search leaves them and the panic on an inode without a type; on every other exit the reference counts are as before but for one more to the inode returned, and no slot stays locked; panics for want of a slot only when all are in use |
| `Icache.Cache.Namei` | fs.c:642-647 | finds the left fold of directory lookup over the elements of the path, from inode 1 of device 1 if there is a slash in front, whatever cwd is, and from cwd otherwise, where no allocated inode on the way is without links and references |
| `Icache.Cache.NameiParent` | fs.c:649-653 | so for all elements but the last, which it returns |
| `Icache.WalkMeans` | fs.c:603-640 | where no allocated inode on the way is without links and references, a search changes no inode, panics for want of a type if and only if an inode on the way is not allocated, and otherwise finds the left fold of directory lookup over the elements, or up to the last one for the parent |
| `Icache.TargetNext` | fs.c:616-634 | one round of the loop takes one step of the fold |
| `LinkLookup.LookupInTree` | fs.c:603-640 | after every run of link operations on linked directories, a search from any inode with links changes no inode, never panics for want of a type and finds the target of the path |
| `LinkLookup.RemovedParent` | fs.c:293-295 | a run of mkdir and unlink after which a search from a directory still in use comes to a freed inode |
| `Pipe.Tests` | pipe.c:84-113 | with counters that wrap at 2^32, the tests for full and empty say what the ring holds |
| `Pipe.PutHolds` | pipe.c:92 | storing a byte appends it to what the ring holds |
| `Pipe.DropHolds` | pipe.c:112-116 | taking a byte takes the oldest one |
| `Pipe.Buffer.WriteSome` | pipe.c:83-93 | stores bytes in order until all are stored or the pipe is full |
| `Pipe.Buffer.ReadSome` | pipe.c:112-116 | takes the oldest bytes, as many as asked for or all there are |
| `PipeSafety.StepKeeps` | pipe.c:58-120 | every acquire, release, switch, wakeup, copy and kill keeps the invariant |
| `PipeSafety.Fifo` | pipe.c:76-120 | in every run of any number of processes the bytes taken are a prefix of the bytes stored and the ring holds exactly the rest, at most 512; whose bytes these are is `PipeCalls.StoredIsSent` |
| `PipeCalls.WriteCall` | pipe.c:76-98 | in every run, the bytes that a call of pipewrite has put into the pipe so far are, in order, a prefix of the bytes it was started with; when it is over they are all of them if and only if it has not given up on a full pipe |
| `PipeCalls.ReadCall` | pipe.c:100-120 | in every run, a call of piperead takes at most as many bytes as it was started for; when it is over it has handed back exactly those it has taken, in order: that many, or all there were, and none only if the pipe was empty and closed for writing; or it was killed while it waited and has taken none |
| `PipeCalls.StoredIsSent` | pipe.c:76-98 | in every run, each byte put into the pipe was put there by one process, and the bytes of each process are, in order, what its calls have put there |
| `PipeCalls.CloseCall` | pipe.c:58-74 | when a call of pipeclose has ended, that end is closed |
| `PipeCalls.ClosedByCall` | pipe.c:58-74 | an end is closed only after a call of pipeclose for it |
| `PipeSafety.NoLostWakeup` | proc.c:350-407 | in every run, with kills anywhere, a sleeping writer has its reason to sleep, or the holder of the pipe lock has yet to wake it; with the lock free, no writer sleeps on a pipe with room or no reader; likewise for readers if no killed writer gave up on a full pipe while a reader slept |
| `PipeSafety.ReadersStep` | pipe.c:84-91 | a step loses a reader's wakeup if and only if it is a killed writer that gives up on a full pipe while a reader sleeps |
| `PipeSafety.ReadersIff` | pipe.c:84-91 | a run loses no reader's wakeup, at any time, if and only if no killed writer gives up on a full pipe while a reader sleeps |
| `PipeSafety.HeardIff` | pipe.c:85-107 | in a run no killed process ever sleeps if and only if no kill comes between a test for it and the sleep |
| `PipeKilled.LostWakeup` | pipe.c:84-91 | a run after which a reader sleeps on a full pipe that is open for writing, and nobody has the lock |
| `PipeSafety.MutualExclusion` | spinlock.c:24-64 | in every run at most one process has the pipe lock and at most one the table lock, through sleeps and switches |
| `PipeSafety.NoDeadlock` | proc.c:267-385 | in every run some process can go on, or all are idle or asleep with reason, except for readers after a killed writer gave up on a full pipe while a reader slept |
| `ProcSafety.StepKeeps` | proc.c:34-430 | every step of fork, exit, wait, kill, sleep, wakeup and the scheduler keeps the invariant of the process table |
| `ProcSafety.ParentAlive` | proc.c:130-257 | in every run a process past fork has a parent that is neither unused, nor being made, nor a zombie, and has a smaller pid |
| `ProcSafety.ChainReachesInit` | proc.c:201-208 | in every run following parents from any process leads to init |
| `ProcSafety.PidsDistinct` | proc.c:47-50 | in every run no two table entries have the same pid and entries in use have one |
| `ProcSafety.NoZombieMissed` | proc.c:218-257 | in every run a process asleep in wait has a child and no zombie child |
| `ProcSafety.HolderProceeds` | proc.c:34-257 | whoever has the table lock can always take its next step, which moves on through the table or gives the lock back |
| `ProcSafety.CanExit` | proc.c:196-199 | a running process other than init always has a parent to wake when it exits |
| `ProcTable.Ptable.constructor` | proc.c:78-105 | the table after the first process has been set up |
| `ProcTable.Ptable.Wakeup1` | proc.c:387-398 | entry by entry: a sleeper on that channel becomes runnable and is otherwise as it was, and every other entry stays |
| `ProcTable.Ptable.AllocProc` | proc.c:34-50 | takes the steps of the machine: the first free entry is being filled in and has the next pid, no other entry changes but for the caller, and it fails if and only if there is none |
| `ProcTable.Ptable.Exit` | proc.c:196-214 | takes the steps of the machine; entry by entry: the process is a zombie, its children have init for a parent, and exactly the sleepers on its parent, and on init if a child was a zombie, are runnable |
| `ProcTable.Ptable.FindZombie` | proc.c:226-232 | the first zombie child, and whether there are children at all |
| `ProcTable.Ptable.Wait` | proc.c:216-257 | takes the steps of the machine: frees the first zombie child and returns its pid if and only if there is one, gives up if and only if there is none and the caller has no children or is killed, and sleeps on itself otherwise; no other entry changes |
| `ProcLaws.WakeupLaw` | proc.c:387-407 | after a wakeup nobody sleeps on that channel; exactly its sleepers have become runnable |
| `ProcLaws.SleepThenWakeup` | proc.c:350-407 | a process that sleeps on a channel can be scheduled after the next wakeup of it |
| `ProcLaws.KillLaw` | proc.c:411-430 | kill marks the first entry with that pid, and only that one; a sleeper there becomes runnable |
| `ProcLaws.YieldThenSchedule` | proc.c:267-322 | a process that yields gets the processor back with nothing changed |
| `ProcLaws.ForkEnds` | proc.c:130-168 | at the end of fork the new entry is runnable and a child of the caller, and nothing else has changed |
| `ProcKilled.MarkedIff` | proc.c:411-430 | after every run a free entry is marked as killed if and only if kill has hit it while it was free or being filled in, since it was last reaped |
| `ProcKilled.BornKilled` | proc.c:34-50 | after every run from boot, the child that allocproc makes is killed from the start if and only if kill has hit its entry so |
| `ProcKilled.KillZero` | proc.c:411-430 | a run in which kill(0) marks a free entry and the child that fork makes there is runnable and killed |
| `PageTable.SetEntryMeans` | vm.c:42-65 | writing an entry changes the mapping of one page of one address space |
| `PageTable.AddTableMeans` | vm.c:52-62 | a new empty table maps nothing |
| `PageTable.SpaceStays` | vm.c:42-65 | as long as its frames stay, an address space maps what it did |
| `Vm.Memory.Kalloc` | kalloc.c:79-95 | the first free frame, or none exactly if there is none; every frame stays in exactly one use |
| `Vm.Memory.Kfree` | kalloc.c:54-77 | the frame is free again, and every frame stays in exactly one use |
| `Vm.Memory.WalkPgdir` | vm.c:42-65 | the table for the page; making one changes no mapping of any page, and fails only without a free frame |
| `Vm.Memory.MapPages` | vm.c:67-90 | exactly the pages asked for are mapped, to consecutive frames, and exactly their tables come to be there; or all before a page whose table gets no frame, and then no frame is free; no other mapping changes |
| `Vm.Memory.SetupKvm` | vm.c:113-144 | a new directory from free frames that maps no user pages and, page by page as written out, the low memory, the kernel, its data and the memory above, and the devices, with their permissions; no other address space changes; succeeds if and only if there are 65 free frames, and takes exactly those; otherwise none is free afterwards |
| `Vm.Memory.AllocUvm` | vm.c:218-243 | from a size above which no page is mapped: with n free frames, exactly the pages up to the new size are mapped, the new ones to different frames of 4096 zeros with the flags of a writable user page, if n is at least the pages and missing tables together; otherwise all is as before but for tables, except that a frame is lost if and only if some page, the first one of a missing table, gets the last frame; if that is the last page, the new size is returned, and it is not mapped |
| `Vm.Memory.DeallocUvm` | vm.c:245-273 | exactly the pages from the first table on, found in steps of whole tables, up to the old size go, and their frames are given back |
| `Vm.Memory.FreeVm` | vm.c:275-292 | exactly the directory, its tables and its user frames are given back, each once, whatever tables are missing |
| `Vm.Memory.CopyUvm` | vm.c:307-337 | by the free frames and the first page below the size that is missing, if any: a copy if and only if none is and there are frames for the kernel's tables, the pages and theirs; a panic if and only if one is and there are frames for those before it; the copy holds the same bytes with the same flags in frames that were free and maps the kernel as kmap says, and the old one is as it was; otherwise, with 65 frames or more, all is as before, except that a page is lost if and only if it is the first one of its table and gets the last frame |
| `Vm.LosesOnce` | vm.c:233-241 | the page at which allocuvm loses a frame is the only one, and there are frames enough for the pages before it and too few for those after |
| `Vm.NeedAtMost` | vm.c:233-241 | the frames that allocuvm takes are those for the pages, and at most all that are missing for tables |
| `Vm.NeedOfNew` | vm.c:317-331 | the frames that j pages of a new address space take are j, and one for each table begun |
| `Vm.InKmapIs` | vm.c:113-125 | wherever the kernel's data starts, kmap uses the same 64 directory entries |
| `Vm.ResumeSkips` | vm.c:256-271 | on its way to the first table deallocuvm leaves out no mapped page, except in that table, before the place where it starts |
| `Vm.LostFrame` | vm.c:233-241 | a memory in which allocuvm fails and its frame is neither mapped nor free |
| `Vm.HoleBelowSize` | vm.c:233-242 | a memory in which allocuvm returns the new size and the page below it is not mapped |
| `VmLife.Growproc` | proc.c:107-125 | where the pages were those below the size, they are so afterwards if and only if the process neither shrank to nothing nor grew over a page whose table got no frame; the new size, the result, and whether a frame is lost or an allocation fails, all by the frames and tables before; pages above the size are left if and only if deallocuvm passes by them |
| `VmLife.Life` | proc.c:107-125 | after setupkvm, any growing and shrinking, also to nothing and on from there and also where frames run out, up to a page missing below the size, and freevm, the free frames and all other memory are as before, except for frames lost; none is unless an allocation fails |
| `VmLife.NotPassed` | vm.c:256-271 | deallocuvm passes by no mapped page where all pages below some page have tables and no others are mapped |
| `VmLife.PassesBy` | vm.c:256-271 | tables in which it does |
| `VmShare.ResizeKeeps` | proc.c:107-125 | when one process changes its own frames, all others map what they did in frames of their own, and no frame belongs to two |
| `VmShare.AddKeeps` | vm.c:307-337 | so with a new process made of new frames |
| `VmShare.EndKeeps` | vm.c:275-292 | so when a process has ended |
| `VmShare.Run` | proc.c:107-168 | over any sequence of starts, copies, growing, shrinking and ends of any number of processes, as long as memory lasts and no process with a missing page is copied, no frame belongs to two processes; when all have ended, every frame is back |
| `FreeList.PutBackSorted` | umalloc.c:23-44 | putting a block back, joined to its neighbours where they touch, leaves a list in address order without touching blocks |
| `FreeList.PutBackUnits` | umalloc.c:33-42 | the list then covers exactly what it did and the block |
| `FreeList.TakeFromSorted` | umalloc.c:75-82 | cutting from the tail of a block leaves such a list, and what was cut touches none of it |
| `FreeList.TakeFromUnits` | umalloc.c:75-82 | the list and what was cut cover exactly what the list did |
| `FreeList.Canonical` | umalloc.c:23-44 | such a list is determined by what it covers |
| `Umalloc.AskedExactly` | umalloc.c:46-69 | sbrk is asked for the bytes needed if and only if the request is at most 0x7FFFFFF0 or above 0xFFFFFFF8 bytes, and otherwise for nothing or less; the units hold the bytes if and only if there are at most 0xFFFFFFF8 |
| `Umalloc.OwnedOnce` | umalloc.c:23-90 | every unit is in at most one free or live block |
| `Umalloc.HistoryIndependent` | umalloc.c:23-90 | the free list depends only on what is live and what sbrk gave, not on the order of calls |
| `Umalloc.Heap.FindPlace` | umalloc.c:30-32 | the search ends for every live block, at the place where it belongs |
| `Umalloc.Heap.Free` | umalloc.c:23-44 | the list is a cycle in address order without touching blocks that has gained exactly the block's units; free plus live units stay what sbrk gave |
| `Umalloc.Heap.MoreCore` | umalloc.c:46-61 | null exactly if sbrk refused its argument as an int; otherwise what it returned joins the free list, which can then serve the request, and the memory of the process changes as growproc does it |
| `Umalloc.Heap.Scan` | umalloc.c:74-89 | one tour of the cycle finds a fitting block if there is one |
| `Umalloc.Heap.Malloc` | umalloc.c:63-90 | asks sbrk at most once and only if nothing fits, for at least 4096 units, null exactly if it refused; otherwise a new live block, apart from all others, of a header and the bytes rounded up to units of 8; it has room for the bytes if and only if there are at most 0xFFFFFFF8, and is memory of the process if and only if a free block fitted or sbrk was asked for memory |
| `Umalloc.NoRoom` | umalloc.c:69 | on any heap, malloc of 0xFFFFFFF9 bytes hands out one unit, its header |
| `Umalloc.NoMemory` | sysproc.c:45-57 | on a new heap, malloc of 2 GB hands out a block that the process does not have |
| `ShellRoundTrip.TokensRoundTrip` | sh.c:266-309 | tokens written one after the other with blanks between them are read back |
| `ShellSyntax.BlankSplits` | sh.c:263-309 | each of the five blanks, anywhere in a line, separates tokens and is none |
| `ShellSyntax.NewlineEnds` | sh.c:263-309 | a newline at the end of a line is no token |
| `ShellSyntax.SymbolSplits` | sh.c:266-309 | each of the symbols other than ">", anywhere in a line, is a token with or without blanks around it |
| `ShellSyntax.OneWord` | sh.c:263-309 | a string of other characters is one word |
| `ShellSyntax.Arrows` | sh.c:289-295 | ">" is a token and ">>" another one |
| `ShellLaws.WordLine` | sh.c:416-447 | words alone are a command with these arguments, up to nine of them, and a panic from ten on |
| `ShellLaws.Redirections` | sh.c:375-398 | for any two words, what "a b", "a<b", "a>b", "a>>b" and "a" with a newline parse to |
| `ShellLaws.Compounds` | sh.c:345-373 | for any two words, what a pipe of the two and "a;b" parse to, and that "a&b" is a panic |
| `ShellRoundTrip.RoundTrip` | sh.c:326-447 | every command tree with proper words and at most nine arguments per command is what its printed form parses to |
| `ShellRoundTrip.ParsePrintParse` | sh.c:326-447 | whatever is parsed can be printed, and parses to the same tree again |
| `Shell.Parser.GetToken` | sh.c:266-309 | takes the first token, and a word's span is that whole word |
| `Shell.Parser.Peek` | sh.c:311-321 | looks at the first token without taking it |
| `Shell.Parser.ParseRedirs` | sh.c:375-398 | the redirections that the grammar gives, or a panic exactly where it has none |
| `Shell.Parser.ParseArgs` | sh.c:430-446 | the command that the grammar gives for the argument loop, and a panic on a tenth argument or a stray token |
| `Shell.Parser.ParseExec` | sh.c:416-447 | the command, and what is left, that the grammar gives |
| `Shell.Parser.ParseBlock` | sh.c:400-414 | likewise for a parenthesised block |
| `Shell.Parser.ParsePipe` | sh.c:362-373 | likewise for a pipeline |
| `Shell.Parser.ParseBacks` | sh.c:351-354 | likewise for the loop over "&" |
| `Shell.Parser.ParseLine` | sh.c:345-360 | likewise for a line |
| `Shell.TreeSurvives` | sh.c:449-494 | ending every word of a tree with a NUL in place cuts no word short |
| `Shell.NulTerminate` | sh.c:449-494 | puts a NUL after every word of the command and nowhere else |
| `Shell.ParseCmd` | sh.c:326-343 | succeeds exactly when the grammar accepts the whole line, and then every argument and file name read from its start pointer is its word |
| `Grep.MatchHereMeans` | grep.c:83-95 | matchhere accepts exactly the texts with a prefix in the language of the pattern's items |
| `Grep.MatchStarMeans` | grep.c:97-105 | matchstar tries every number of repetitions |
| `Grep.MatchStarLoop` | grep.c:97-105 | the loop decides the same |
| `Grep.Match` | grep.c:71-81 | true if and only if some suffix, or the whole text after "^", has a prefix in the language of the pattern |

## Left out

- Hardware, boot, traps, interrupts and the assembly of context switches: a switch is a step.
- ide.c: the disk is the synchronous one of memide.c.
- exec.c, console.c, printf.c, file.c, string.c and the small user programs: loading and plumbing with only easy
  claims.
- sys_trace and its counter: its argument is not determined by the code.
- The read loop of grep (grep.c:10-35): it searches a buffer that it does not end with a NUL.
- runcmd of the shell: it only calls the kernel.
- Device files in readi and writei (fs.c:442-446, fs.c:470-474).
- Locks of inodes between processes: ilock and iunlock are modelled for one process at a time.
- The names of processes, open files and saved registers in fork and exit.
- Umalloc.Heap.Malloc: after morecore the search starts again as a new tour; the page fault of a write to memory
  that the process does not have is not modelled.
- Mkfs.Builder.Iappend: reports a full disk or too few inodes, which mkfs does not check, and takes disks with one
  bitmap block, as mkfs makes them.
- Vm.Memory.AllocUvm: takes sizes above which no page is mapped, since mappages panics on a page that is (vm.c:81-82).
- VmShare.Run: stops at the first allocation that fails.
- Log.Journal.EndOp: a last operation that ends while another process holds a buffer is not modelled, because its
  commit may wait for that buffer in bget; `LogMachine` lets commits run beside other callers, and counts only the
  buffers that are pinned.
- Links: counts are unbounded integers, not 16-bit ones.
- Fs.Volume.Readi: a read of a missing block outside a transaction panics in log_write, which is the subject of
  `Log` and not of `Fs`.
