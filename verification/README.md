# Verified models of an operating systems course repository

The repository holds Pintos kernels, a page-replacement simulator and threaded prime
counting.  This project models eight parts of it in Dafny and proves what they promise:

* **File system** (`filesys/`): inodes with one extent each, a free map, a root directory
  and a cache of open inodes.  `DiskModel` and `InodeIO` treat bytes and sectors; `FsSpec`
  gives every call as a function on a state, `FileSystem` carries the calls out in place and
  is proved equal to it; `FsOwnership`, `FsCache`, `FsInvariant`, `FsRuns`, `FsEffects`,
  `FsHistory`, `FsDirectory`, `FsNames` and `FsHandles` prove what holds over whole runs, and
  `FsExamples` shows inputs that fit, and inputs that lose sectors or names.
* **malloc** over the page allocator: `MallocSpec`, `MallocInvariant`, `MallocRoom`,
  `MallocRuns`, and the allocator in place with the bytes of the blocks in `Malloc`.
* **Page replacement**: the policies over all traces in `Policies`, `LruFailure` and `Lfu`,
  the program's linked lists and tables in `PageLists` and `PageReplacement`.
* **Semaphores, locks and condition variables** as step systems with arbitrary
  interleaving: `Semaphores`, `SemaphoreRuns`, `Monitors`, `MonitorSafety`, `MonitorRuns`,
  `MonitorCalls`.
* **ELF segments**, loaded at once or page by page: `ElfSegments`, `ElfLoad`, `ElfLazy`.
* **64-bit division** from a 64/32-bit instruction (`Division`), **heapsort** and binary
  search (`Sorting`).
* **Two-level page tables** (`PageTables`, `PageDir`) and **ustar headers**
  (`OctalFields`, `Ustar`).
* **Dynamic sharing of prime tests** between threads: `PrimeSharing`.

`Sequences` holds what several of them say about sequences.

`dafny verify dfyconfig.toml` checks everything.

A failed ASSERT or PANIC is a result that ends a run (`Panic`, `Fail`), and the theorems say
that it does not occur; in the methods that work in place the assertions are preconditions
or proved assertions.  What a program cannot know is a parameter: whether an allocation of
memory succeeds (`Memory`, `bounceOk`), which page the page allocator returns, and which
thread moves next.

Where the code does something else than its own comments say, the model follows the code:

* `dir_add` takes a short read for the end of the directory, but every entry is read through
  a buffer from `malloc`.  Without it a search stops early, so that a listed name can be added
  again (`FsDirectory.AddIsMap`, `FsNames.RunNamesOnce`, `FsExamples.AddedTwice`) and an entry
  in use can be written over (`FsExamples.WrittenOver`).  The model lets every one of these
  allocations fail.
* A `filesys_create` that fails at the directory keeps the data extent of the file marked in
  the free map, and a file whose entry was written over keeps its sectors
  (`FsHistory.LeaksExactly` gives the exact conditions, `FsExamples` inputs).
* `malloc` serves requests within 11 bytes of 2^32 with a block of one page
  (`MallocRuns.TooSmallExactly`).
* `move_back` loses the head of a one-node list (`LruFailure.TrapsExactlyWhenUnsafe`).
* `ustar_make_header` accepts a negative size, which `ustar_parse_header` then rejects
  (`Ustar.RoundTrip`).
* `validate_segment` does not compare the end of a segment with the length of the file, so
  a short file is noticed at a page fault only (`ElfLazy.AgreeIffCovered`,
  `ElfLazy.ShortFileExample`).
* In `inode_write_at` the branch that clears the bounce buffer is never taken
  (`InodeIO.FillBounce`).

## Model

| member | source | states |
|---|---|---|
| `DiskModel.SectorsLeast` | G/A4/Pintos/src/filesys/inode.c:27-30 | a file takes the least number of sectors whose bytes hold it |
| `DiskModel.LatestWrite` | G/A4/Pintos/src/filesys/inode.c:201-319 | after any history of writes each byte is the one stored by the last write that covers it, or the original one |
| `DiskModel.PatchOwn` | G/A4/Pintos/src/filesys/inode.c:259-319 | storing into a file's range overwrites exactly that range of its contents |
| `DiskModel.PatchOther` | G/A4/Pintos/src/filesys/inode.c:259-319 | and leaves a file on another extent as it was |
| `InodeIO.ReadAt` | G/A4/Pintos/src/filesys/inode.c:202-251 | the sector loop with and without bounce buffer reads exactly the transferred part of the contents, and touches nothing else in the buffer |
| `InodeIO.WriteAt` | G/A4/Pintos/src/filesys/inode.c:259-319 | the sector loop changes exactly the transferred range of the device; nothing if writes are denied; the exact byte count also when the bounce buffer cannot be had |
| `InodeIO.TransferStep` | G/A4/Pintos/src/filesys/inode.c:207-247 | one turn and the rest of a transfer make up the whole transfer |
| `InodeIO.TransferMost` | G/A4/Pintos/src/filesys/inode.c:207-247 | with the bounce buffer a transfer stops at the end of the file only; without it, it takes from a sector boundary all whole sectors |
| `InodeIO.WriteIsApply` | G/A4/Pintos/src/filesys/inode.c:259-319 | with the bounce buffer a write is the update of a flat byte array, clipped at the file's length |
| `InodeIO.WriteLeavesOthers` | G/A4/Pintos/src/filesys/inode.c:259-319 | every other file keeps its contents |
| `Bitmap.Fit` | G/A4/Pintos/src/filesys/free-map.c:28-41 | the lowest run of free sectors, and None only if there is no run |
| `FsOwnership.AddLive` | G/A4/Pintos/src/filesys/inode.c:74-107 | a new inode and its extent taken from free sectors keep all owners apart and every marked sector accounted for |
| `FsOwnership.DropLive` | G/A4/Pintos/src/filesys/inode.c:172-183 | giving back the sectors of one inode keeps the others' sectors marked and accounted for |
| `FsOwnership.AddLeak` | G/A4/Pintos/src/filesys/filesys.c:59-65 | the extent of a create that failed at the directory stays marked without an owner |
| `FsOwnership.LoseLive` | G/A4/Pintos/src/filesys/directory.c:172-175 | a file that loses its entry unopened and unremoved keeps its sectors marked, without an owner |
| `FsCache.OpenStep` | G/A4/Pintos/src/filesys/inode.c:113-143 | opening keeps one faithful in-memory inode per open sector |
| `FsCache.CloseLast` | G/A4/Pintos/src/filesys/inode.c:165-187 | the last close drops exactly that inode from the cache |
| `FsCache.DenyBounds` | G/A4/Pintos/src/filesys/inode.c:324-339 | the assertions on deny_write_cnt hold, since deniers are handles |
| `FsInvariant.CreateGood` | G/A4/Pintos/src/filesys/filesys.c:55-68 | filesys_create meets its assertions and keeps ownership and cache right, whichever allocations fail, those for directory entries included |
| `FsInvariant.OpenGood` | G/A4/Pintos/src/filesys/filesys.c:76-86 | the same for filesys_open |
| `FsInvariant.RemoveGood` | G/A4/Pintos/src/filesys/filesys.c:93-100 | the same for filesys_remove, with dir_remove and inode_close |
| `FsInvariant.CloseGood` | G/A4/Pintos/src/filesys/inode.c:165-187 | inode_close finds its inode open, and both releases of a removed file meet their assertion |
| `FsInvariant.FileCloseGood` | G/A4/Pintos/src/filesys/file.c:46-54 | the same for file_close |
| `FsInvariant.ReopenGood` | G/A4/Pintos/src/filesys/file.c:39-42 | the same for file_reopen |
| `FsInvariant.DenyGood` | G/A4/Pintos/src/filesys/file.c:119-127 | the same for file_deny_write |
| `FsInvariant.AllowGood` | G/A4/Pintos/src/filesys/file.c:133-141 | the same for file_allow_write |
| `FsInvariant.WriteGood` | G/A4/Pintos/src/filesys/file.c:95-100 | the same for file_write |
| `FsInvariant.SeekGood` | G/A4/Pintos/src/filesys/file.c:154-159 | the same for file_seek |
| `FsRuns.FormatGood` | G/A4/Pintos/src/filesys/filesys.c:104-112 | a formatted device satisfies the invariant |
| `FsRuns.ReachableIsGood` | G/A4/Pintos/src/filesys/filesys.c:55-100 | in every state reachable from formatting, with any allocations failing, sectors of listed and open files are pairwise apart, inside the device and marked, the open inodes are a faithful cache, and no possible call fails an assertion |
| `FsHistory.LiveAfter` | G/A4/Pintos/src/filesys/inode.c:165-196 | a file lives until it has neither name nor handle: the live inodes after a call are those before, less the one that lost its last, plus the one created |
| `FsHistory.FreedExactly` | G/A4/Pintos/src/filesys/inode.c:172-183 | a file's sectors stay marked while it has a name or a handle, and are free after exactly the call that takes the last, unless the file was never removed and lost its entry to another file's |
| `FsHistory.LeaksExactly` | G/A4/Pintos/src/filesys/filesys.c:59-65 | sectors are lost by exactly three kinds of calls, each with a condition on the state and the arguments: a create that fails at the directory with a size above zero, a create that writes over the entry of a file nobody has open, and the last close of a file whose entry was written over; what is lost is that extent or that file; this departs from the idea that a failed create changes nothing |
| `FsHistory.RunLosesNothing` | G/A4/Pintos/src/filesys/filesys.c:59-65 | a run loses no sector exactly if no call of those kinds occurs in it |
| `FsHistory.OrphansAfter` | G/A4/Pintos/src/filesys/inode.c:165-196 | an open file is neither listed nor marked removed exactly from the create that writes over its entry until its last close |
| `FsHistory.RunRemovedExactly` | G/A4/Pintos/src/filesys/inode.c:165-196 | while no create writes over an entry in use, the open inodes marked removed are exactly those without an entry |
| `FsHistory.UsedIsOwned` | G/A4/Pintos/src/filesys/free-map.c:28-50 | with nothing lost the marked sectors are exactly those of live files |
| `FsEffects.OpenThenClose` | G/A4/Pintos/src/filesys/inode.c:113-187 | inode_close undoes inode_open, whether the inode was open before or not |
| `FsHistory.ContentsAfter` | G/A4/Pintos/src/filesys/inode.c:259-319 | a call changes the bytes of no file but the one it writes to, and those by exactly the bytes moved; removing, closing and creating leave open files' bytes alone |
| `FsHistory.RunContents` | G/A4/Pintos/src/filesys/inode.c:165-319 | over a whole run a file's bytes are its first ones under the writes made through its handles, in order, also after its name is removed |
| `FsHistory.RunReadsLatestWrite` | G/A4/Pintos/src/filesys/inode.c:202-319 | over a whole run every byte is the one stored by the latest write that covers it |
| `FsNames.CreateNames` | G/A4/Pintos/src/filesys/filesys.c:55-68 | create succeeds exactly with memory, a free sector for the inode and, behind it, free sectors in a row whose bytes hold the file, for a legal name that lookup does not find, when dir_add finds an entry to write; it adds the name for an inode not live before, in place of the entry it writes over, if any |
| `FsNames.RoomExactly` | G/A4/Pintos/src/filesys/filesys.c:59-62 | first fit of the inode's sector and then of the extent finds room exactly if there is a free sector and behind it a long enough run of free ones |
| `FsNames.NamesAfter` | G/A4/Pintos/src/filesys/directory.c:142-179 | a call keeps names unique exactly unless it is a create that adds a listed name: lookup stopped at a short read before its entry, and another entry is written |
| `FsNames.RunNamesOnce` | G/A4/Pintos/src/filesys/directory.c:142-216 | over a whole run names stay unique exactly as long as no such create occurs |
| `FsNames.CreatedIsZero` | G/A4/Pintos/src/filesys/inode.c:86-101 | a new file is live and its bytes are as many zeros as asked for |
| `FsNames.OpenNames` | G/A4/Pintos/src/filesys/filesys.c:76-86 | open succeeds exactly for a listed name that lookup gets to, with memory at hand, and the handle is on the inode the directory gives, at position zero; a failed open changes nothing |
| `FsNames.RemoveNames` | G/A4/Pintos/src/filesys/filesys.c:93-100 | remove succeeds exactly for a listed name that lookup gets to, with memory at hand, and takes out that name only; a failed remove changes nothing |
| `FsHandles.TwoWrites` | G/A4/Pintos/src/filesys/file.c:95-100 | writing one piece and then another is writing both at once: the second goes where the first ended |
| `FsHandles.WriteReadsBack` | G/A4/Pintos/src/filesys/file.c:95-100 | what a write moved stands in the file where the handle was, and the handle behind it |
| `FsHandles.SeekThenWrite` | G/A4/Pintos/src/filesys/file.c:154-159 | after a seek a write goes where it pointed |
| `FsHandles.ReopenMeans` | G/A4/Pintos/src/filesys/file.c:39-42 | reopening succeeds exactly if it gets its struct file, which is on the same inode, at position zero and not denying writes; closing it again restores the whole state |
| `FsHandles.DeniedExactly` | G/A4/Pintos/src/filesys/inode.c:266-267 | a write moves nothing and changes nothing exactly while some handle on the inode denies writes, and otherwise moves what the transfer gives |
| `FsHandles.DenyThenAllow` | G/A4/Pintos/src/filesys/file.c:119-141 | allowing writes undoes denying them |
| `FsHandles.HandleKept` | G/A4/Pintos/src/filesys/file.c:39-159 | calls on other handles and on names leave a handle alone |
| `FsHandles.RunHandle` | G/A4/Pintos/src/filesys/file.c:95-159 | over a run, until it is closed, a handle stays on its inode, denies writes exactly if the last call on it that says so does, and without a seek stands as far on as bytes were written through it |
| `FsHandles.RunDenied` | G/A4/Pintos/src/filesys/inode.c:266-339 | from a deny on, until the same handle allows writes or is closed, a write through any handle on the inode leaves the whole state as it is |
| `FsExamples.FormatSizes` | G/A4/Pintos/src/filesys/filesys.c:104-112 | formatting succeeds exactly on devices of at least four sectors, and marks the first ones only |
| `FsExamples.MapBytesLeast` | G/A4/Pintos/src/lib/kernel/bitmap.c:51-61 | the free map takes the least number of four-byte words with a bit for each sector, and one sector up to 4096 of them |
| `FsExamples.FreshCreate` | G/A4/Pintos/src/filesys/filesys.c:55-68 | on a fresh device a create succeeds exactly if one sector for the inode and the bytes of all others hold the file |
| `FsExamples.EmptyNameLeaks` | G/A4/Pintos/src/filesys/filesys.c:59-65 | on a fresh device the create of a file with data and an empty name loses exactly its data sectors |
| `FsExamples.NoBufferLeaks` | G/A4/Pintos/src/filesys/filesys.c:59-65 | so does the create of a legal new name, with room, whose entry cannot be written |
| `FsExamples.AddedTwice` | G/A4/Pintos/src/filesys/directory.c:101-103 | a lookup that can read no entry lets a name be added twice |
| `FsExamples.WrittenOver` | G/A4/Pintos/src/filesys/directory.c:166-175 | a search for a free entry that can read none lets a successful create write over another file, whose sector is lost |
| `FsDirectory.LookupIsMap` | G/A4/Pintos/src/filesys/directory.c:92-112 | lookup is the map's lookup as far as it can read |
| `FsDirectory.AddIsMap` | G/A4/Pintos/src/filesys/directory.c:142-179 | after a successful dir_add names are unique exactly unless it added a listed name; it is then insertion into the map, in place of the entry written over, if any |
| `FsDirectory.AddSucceeds` | G/A4/Pintos/src/filesys/directory.c:142-179 | dir_add succeeds exactly if its write gets a buffer, the name is legal and not found, and there is a free entry or a short read in its place |
| `FsDirectory.EnoughMemory` | G/A4/Pintos/src/filesys/directory.c:163-165 | when every entry can be read, dir_add writes a free entry and adds no name twice |
| `FsDirectory.RemoveIsMap` | G/A4/Pintos/src/filesys/directory.c:185-216 | with unique names dir_remove is removal from the map |
| `FsDirectory.ListsEachOnce` | G/A4/Pintos/src/filesys/directory.c:222-236 | reading from the start lists every name once |
| `FsDirectory.Directory.ReadDir` | G/A4/Pintos/src/filesys/directory.c:222-236 | returns the next name in slot order; none at the end, or, keeping its place, at a short read |
| `FsDirectory.Directory.ReadAll` | G/A4/Pintos/src/filesys/fsutil.c:25-26 | with memory, repeating it until the end gives each name of the directory once |
| `FileSystem.FileSystem.constructor` | G/A4/Pintos/src/filesys/filesys.c:25-40 | formatting and mounting in place gives the formatted state |
| `FileSystem.FileSystem.Scan` | G/A4/Pintos/src/filesys/free-map.c:31 | the scan loop is first fit |
| `FileSystem.FileSystem.FreeMapAllocate` | G/A4/Pintos/src/filesys/free-map.c:28-41 | marks the first fit, or nothing if the map cannot be written back |
| `FileSystem.FileSystem.FreeMapRelease` | G/A4/Pintos/src/filesys/free-map.c:45-50 | unmarks; its assertion is the precondition |
| `FileSystem.FileSystem.InodeCreate` | G/A4/Pintos/src/filesys/inode.c:74-107 | writes the inode and zeroes its extent, the least number of sectors that hold the bytes (`DiskModel.SectorsLeast`), or changes nothing |
| `FileSystem.FileSystem.InodeOpen` | G/A4/Pintos/src/filesys/inode.c:113-152 | one reference more to the one inode object of the sector |
| `FileSystem.FileSystem.InodeClose` | G/A4/Pintos/src/filesys/inode.c:165-187 | one reference less; the last one drops the object and frees a removed file's sectors |
| `FileSystem.FileSystem.DirAdd` | G/A4/Pintos/src/filesys/directory.c:142-179 | the loops with their short reads: succeeds exactly if the state model can add the name, and then writes the entry it names |
| `FileSystem.FileSystem.Lookup` | G/A4/Pintos/src/filesys/directory.c:92-112 | the loop ends at the name, at a short read or at the end |
| `FileSystem.FileSystem.Create` | G/A4/Pintos/src/filesys/filesys.c:55-68 | in place, equal to the call of the state model |
| `FileSystem.FileSystem.Open` | G/A4/Pintos/src/filesys/filesys.c:76-86 | in place, equal to the call of the state model |
| `FileSystem.FileSystem.Reopen` | G/A4/Pintos/src/filesys/file.c:39-42 | in place, equal to the call of the state model |
| `FileSystem.FileSystem.Close` | G/A4/Pintos/src/filesys/file.c:46-54 | in place, equal to the call of the state model |
| `FileSystem.FileSystem.Remove` | G/A4/Pintos/src/filesys/directory.c:185-216 | in place, equal to the call of the state model |
| `FileSystem.FileSystem.DenyWrite` | G/A4/Pintos/src/filesys/file.c:119-127 | in place, equal to the call of the state model; the assertion holds |
| `FileSystem.FileSystem.AllowWrite` | G/A4/Pintos/src/filesys/file.c:133-141 | in place, equal to the call of the state model; both assertions hold |
| `FileSystem.FileSystem.WriteFile` | G/A4/Pintos/src/filesys/file.c:95-100 | in place, equal to the call of the state model, with the number of bytes written |
| `FileSystem.FileSystem.ReadFile` | G/A4/Pintos/src/filesys/file.c:69-74 | returns the contents from the file's position on and advances it |
| `FileSystem.FileSystem.SeekFile` | G/A4/Pintos/src/filesys/file.c:154-159 | in place, equal to the call of the state model |
| `MallocSpec.BlockInside` | G/A4/Pintos/src/threads/malloc.c:286-294 | every block lies behind the arena header and inside its page |
| `MallocSpec.Aligned` | G/A4/Pintos/src/threads/malloc.c:277-279 | blocks have the alignment that block_to_arena asserts |
| `MallocInvariant.TakeOk` | G/A4/Pintos/src/threads/malloc.c:148-153 | handing out the first free block keeps counters, lists and live blocks right, and the block was not in use |
| `MallocInvariant.NewArenaOk` | G/A4/Pintos/src/threads/malloc.c:119-146 | a new arena's blocks are all free and counted |
| `MallocInvariant.PagesForExact` | G/A4/Pintos/src/threads/malloc.c:109 | the 32-bit page rounding gives enough pages, and not one too many, exactly if adding the header does not pass 2^32 |
| `MallocRoom.PagesForLeast` | G/A4/Pintos/src/threads/malloc.c:109 | unless the rounding wraps, it gives the least number of pages whose bytes hold the request and the header; where it wraps, none or, with the header, one |
| `MallocRoom.ClassTight` | G/A4/Pintos/src/threads/malloc.c:72-104 | exactly the requests up to 1024 bytes have a class, the smallest that holds them: 16 bytes or less than twice what was asked for |
| `MallocRoom.AsManyAsFit` | G/A4/Pintos/src/threads/malloc.c:81 | an arena has as many blocks as fit its page behind the header |
| `MallocRoom.EmptyListExactly` | G/A4/Pintos/src/threads/malloc.c:122-123 | a free list is empty exactly if every block of every arena of its class is in use |
| `MallocRoom.RefusedExactly` | G/A4/Pintos/src/threads/malloc.c:99-134 | what malloc tests, lists and page counts, says exactly that there is no room |
| `MallocInvariant.BigOk` | G/A4/Pintos/src/threads/malloc.c:105-118 | a big request is served by fresh pages or refused without change |
| `MallocInvariant.FreeSmallOk` | G/A4/Pintos/src/threads/malloc.c:228-256 | freeing a small block meets the assertions, and a wholly free arena goes back |
| `MallocInvariant.FreeBigOk` | G/A4/Pintos/src/threads/malloc.c:257-262 | freeing a big block gives back exactly its pages |
| `MallocRuns.MallocOk` | G/A4/Pintos/src/threads/malloc.c:90-154 | malloc returns null and changes nothing exactly for no bytes or no room: no run of free pages whose bytes hold a big request and the header, or for a small one no free block of the smallest class that holds it and no free page (and the two cases in which 32-bit rounding wraps); otherwise a block not in use; no assertion fails |
| `MallocRuns.MallocTight` | G/A4/Pintos/src/threads/malloc.c:90-154 | a block has 16 bytes, or less than twice what was asked for, or, beyond 1024 bytes, less than a page more; a page is taken for a small block only if no block of its class is left |
| `MallocRuns.FreeOk` | G/A4/Pintos/src/threads/malloc.c:219-264 | free of a block in use frees that block only; no assertion fails |
| `MallocRuns.ReallocOk` | G/A4/Pintos/src/threads/malloc.c:195-214 | realloc is malloc then free of the old block; on failure nothing changes |
| `MallocRuns.LiveApart` | G/A4/Pintos/src/threads/malloc.c:90-154 | no two blocks in use share a byte |
| `MallocRuns.OffHeaders` | G/A4/Pintos/src/threads/malloc.c:268-294 | a block in use lies inside the pool and covers no arena's header |
| `MallocRuns.TooSmallExactly` | G/A4/Pintos/src/threads/malloc.c:90-110 | a block is smaller than asked for exactly when the request plus the header passes 2^32 |
| `MallocRuns.TooSmallExample` | G/A4/Pintos/src/threads/malloc.c:105-118 | such a request is served with one page |
| `MallocRuns.FreeUndoesMalloc` | G/A4/Pintos/src/threads/malloc.c:90-264 | freeing what malloc has just handed out restores bitmap, headers, counters, free lists in their order and blocks in use |
| `MallocRuns.ReachableIsValid` | G/A4/Pintos/src/threads/malloc.c:90-264 | after any sequence of malloc, realloc and free each arena's free_cnt is its number of free blocks, free and live blocks partition it, none is wholly free, and no assertion fails |
| `Malloc.Allocator.constructor` | G/A4/Pintos/src/threads/malloc.c:72-85 | the loop builds the seven size classes and stays within the descriptor array |
| `Malloc.Allocator.PallocGetMultiple` | G/A4/Pintos/src/threads/palloc.c:71-101 | first fit of pages |
| `Malloc.Allocator.PallocFreeMultiple` | G/A4/Pintos/src/threads/palloc.c:118-142 | unmarks and clears the pages and nothing else; its assertions are the preconditions |
| `Malloc.Allocator.AddArena` | G/A4/Pintos/src/threads/malloc.c:119-146 | the loop puts all blocks of a new page on the free list in order |
| `Malloc.Allocator.Malloc` | G/A4/Pintos/src/threads/malloc.c:90-154 | in place, equal to the model's malloc |
| `Malloc.Allocator.Free` | G/A4/Pintos/src/threads/malloc.c:219-264 | in place, equal to the model's free, and the bytes of all blocks still in use are kept |
| `Malloc.Allocator.Realloc` | G/A4/Pintos/src/threads/malloc.c:195-214 | in place, equal to the model's realloc, also when adding the header passes 2^32 and the old block fits one page; the new block starts with the old one's bytes |
| `Malloc.Allocator.BlockSize` | G/A4/Pintos/src/threads/malloc.c:179-186 | the bytes that the holder of a block may use |
| `Policies.Conservative` | G/A6/Top/src/main.c:257-301 | within a window of at most `pages` distinct addresses FIFO and LRU fault on an address once at most |
| `Policies.WindowCost` | G/A6/Top/src/main.c:357-413 | so such a window costs at most one fault for each distinct address |
| `Policies.FifoMeaning` | G/A6/Top/src/main.c:257-301 | FIFO's list holds its addresses in the order of their last faulting access, whatever hits came since, so the victim is the one loaded longest ago |
| `Policies.FifoIsLoadSuffix` | G/A6/Top/src/main.c:257-301 | FIFO's list is always the last min(pages, n) of the addresses that faulted, one for each fault |
| `Policies.HitsDoNotShelter` | G/A6/Top/src/main.c:275-290 | on the trace 1, 2, 1, 3, 1 with two pages FIFO faults four times and LRU three times |
| `Policies.RecencyMeaning` | G/A6/Top/src/main.c:357-413 | the recency order lists each address seen once, by its last use |
| `Policies.LruIsRecencySuffix` | G/A6/Top/src/main.c:357-413 | LRU's list is always the last min(pages, n) entries of the recency order |
| `Policies.LruInclusion` | G/A6/Top/src/main.c:357-413 | the smaller cache's list is a suffix of the larger one's |
| `Policies.LruFaultsMonotone` | G/A6/Top/src/main.c:357-413 | LRU's faults never rise with more pages |
| `LruFailure.TrapsExactlyWhenUnsafe` | G/A6/Top/src/main.c:162-205 | the program's LRU, which loses its head on a one-node list, runs to the end exactly on the traces that `Safe` describes, and then with the policy's list and faults |
| `LruFailure.SafeMonotone` | G/A6/Top/src/main.c:162-205 | a trace that is safe stays so with more pages |
| `LruFailure.MorePagesNoMoreFaults` | G/A6/Top/src/main.c:357-413 | on safe traces the program's faults never rise with more pages |
| `LruFailure.TrapExample` | G/A6/Top/src/main.c:162-205 | a concrete trace that traps |
| `Lfu.ResidentProper` | G/A6/Top/src/main.c:209-254 | LFU's list stays ascending in count and without repeats |
| `Lfu.VictimIsLeastUsed` | G/A6/Top/src/main.c:305-353 | each victim has a minimal count |
| `Lfu.CountIsUsesSinceLoad` | G/A6/Top/src/main.c:305-353 | a node's count is the number of accesses since its page was last loaded |
| `Lfu.ResidentOrder` | G/A6/Top/src/main.c:209-254 | next to be evicted is the page with the fewest uses since it was loaded and, among these, the one used last: the list is ordered by count, and within a count by last use, the latest first |
| `PageLists.LinkedList.Pop` | G/A6/Top/src/main.c:33-44 | unlinks the head node |
| `PageLists.LinkedList.Push` | G/A6/Top/src/main.c:46-61 | links a new node behind the tail |
| `PageLists.LinkedList.InsertFront` | G/A6/Top/src/main.c:63-79 | links a new node with count 1 at the head |
| `PageLists.LinkedList.MoveBack` | G/A6/Top/src/main.c:162-205 | relinks the node of an address at the end; the head is lost exactly on a one-node list |
| `PageLists.LinkedList.UpdateCount` | G/A6/Top/src/main.c:209-254 | raises a count and splices the node so that the chain stays the model's list |
| `PageReplacement.Fifo` | G/A6/Top/src/main.c:257-301 | on linked nodes and the present table: the number of faults is that of the policy, whose list `Policies.FifoMeaning` and `FifoIsLoadSuffix` determine |
| `PageReplacement.Lru` | G/A6/Top/src/main.c:357-413 | the same, with a trap exactly when the trace is unsafe |
| `PageReplacement.LfuRun` | G/A6/Top/src/main.c:305-353 | the same for LFU |
| `SemaphoreRuns.StepKeeps` | G/A4/Pintos/src/threads/synch.c:61-121 | every atomic segment keeps the queue, the balance and no-lost-wakeup, and thread_unblock finds its thread blocked |
| `SemaphoreRuns.EveryInterleaving` | G/A4/Pintos/src/threads/synch.c:61-121 | in every interleaving: if threads are queued the value is at most the number of woken threads that have not tested again, and value plus downs is the initial value plus ups |
| `SemaphoreRuns.NobodySleepsInVain` | G/A4/Pintos/src/threads/synch.c:61-121 | once all woken threads have tested again nobody sleeps on a positive value |
| `SemaphoreRuns.DownsExactly` | G/A4/Pintos/src/threads/synch.c:61-102 | sema_try_down completes a down, and sema_down one without sleeping, exactly if fewer downs are complete than the start value and the ups allow; a try never sleeps |
| `SemaphoreRuns.FirstAsleepFirstWoken` | G/A4/Pintos/src/threads/synch.c:69-118 | in every interleaving threads are woken in the order in which they went to sleep |
| `MonitorSafety.TestLockKeeps` | G/A4/Pintos/src/threads/synch.c:193-201 | one test of the lock's semaphore keeps mutual exclusion and the queue |
| `MonitorSafety.UpLockKeeps` | G/A4/Pintos/src/threads/synch.c:229-236 | raising the lock's semaphore wakes the first waiter, which is asleep, and keeps mutual exclusion |
| `MonitorSafety.HolderKeeps` | G/A4/Pintos/src/threads/synch.c:199-200 | setting and clearing the holder, outside the atomic segments, keeps the invariant |
| `MonitorSafety.WaitKeeps` | G/A4/Pintos/src/threads/synch.c:329-343 | a waiting thread is queued with a fresh semaphore |
| `MonitorSafety.TakeKeeps` | G/A4/Pintos/src/threads/synch.c:353-363 | cond_signal turns the first waiter from queued to claimed |
| `MonitorSafety.UpWaitKeeps` | G/A4/Pintos/src/threads/synch.c:353-363 | and then from claimed to released, asleep or not |
| `MonitorSafety.TestWaitKeeps` | G/A4/Pintos/src/threads/synch.c:341 | a waiter passes its semaphore exactly when neither queued nor claimed |
| `MonitorRuns.NextGood` | G/A4/Pintos/src/threads/synch.c:193-379 | every enabled step meets its assertions and keeps the invariant |
| `MonitorRuns.MutualExclusion` | G/A4/Pintos/src/threads/synch.c:193-236 | in every interleaving at most one thread is between obtaining and raising the lock's semaphore, which is 0 or 1; the holder is that thread; no assertion fails |
| `MonitorRuns.NoLostWakeup` | G/A4/Pintos/src/threads/synch.c:109-121 | a thread asleep on a free lock implies another one woken |
| `MonitorRuns.PassesIffReleased` | G/A4/Pintos/src/threads/synch.c:329-343 | a waiter gets past its semaphore exactly if it was released before, so a signal between lock_release and sema_down is kept |
| `MonitorRuns.SignalReleases` | G/A4/Pintos/src/threads/synch.c:353-363 | the signaller's sema_up releases the waiter it took off the queue, wherever that waiter is |
| `MonitorRuns.ReleasedStays` | G/A4/Pintos/src/threads/synch.c:329-343 | a released waiter stays released until its own test |
| `MonitorRuns.SignalsBalance` | G/A4/Pintos/src/threads/synch.c:329-379 | in every interleaving the signals on non-empty queues, broadcasts included, are the waiters that passed plus those on their way; that a broadcast signals every waiter is `MonitorCalls.BroadcastReleasesAll` |
| `MonitorCalls.CallsReturn` | G/A4/Pintos/src/threads/synch.c:193-379 | whatever other threads do meanwhile, lock_acquire, cond_wait, cond_signal and cond_broadcast return holding the lock, lock_release without it, and lock_try_acquire with it exactly if nobody was inside |
| `MonitorCalls.TryExactly` | G/A4/Pintos/src/threads/synch.c:210-222 | lock_try_acquire takes a lock with nobody inside and leaves any other as it is |
| `MonitorCalls.BroadcastReleasesAll` | G/A4/Pintos/src/threads/synch.c:372-379 | in every interleaving, when cond_broadcast returns its queue is empty, the other queues are as they were, and every thread that waited when it was called has been released |
| `MonitorCalls.SignalReleasesFirst` | G/A4/Pintos/src/threads/synch.c:353-363 | in every interleaving, when cond_signal returns it has taken off the longest waiting thread only and released it, or, with nobody waiting, left no trace |
| `MonitorCalls.WaitReturnsSignalled` | G/A4/Pintos/src/threads/synch.c:329-363 | in every interleaving cond_wait returns only after a signaller has raised the semaphore of that very wait |
| `MonitorCalls.FirstWaitedFirstTaken` | G/A4/Pintos/src/threads/synch.c:329-363 | in every interleaving the waiters of a condition are taken off in the order in which they called cond_wait |
| `MonitorCalls.FirstAsleepFirstWoken` | G/A4/Pintos/src/threads/synch.c:193-236 | in every interleaving the lock wakes threads in the order in which they went to sleep on it |
| `ElfSegments.ValidateMeans` | G/A4/Pintos/src/userprog/process.c:420-460 | despite the wrapping sum exactly the segments inside user memory above the first page pass |
| `ElfSegments.LoaderAsserts` | G/A4/Pintos/src/userprog/process.c:361-375 | the sizes computed for a valid segment meet the loaders' assertions |
| `ElfSegments.FileCoversMeans` | G/A4/Pintos/src/userprog/process.c:361-375 | the bytes read end inside the file exactly if it covers the segment |
| `ElfSegments.SegmentMeaning` | G/A4/Pintos/src/userprog/process.c:465-476 | a page's bytes are the segment's file bytes, then zeros |
| `ElfSegments.AroundSegment` | G/A4/Pintos/src/userprog/process.c:353-375 | around the segment its pages hold what the file has before it, or zeros if nothing is read, and zeros behind it |
| `ElfSegments.PagesExactly` | G/A4/Pintos/src/userprog/process.c:353-375 | the pages loaded are exactly those that hold a byte of the segment |
| `ElfLoad.Process.LoadSegment` | G/A4/Pintos/src/userprog/process.c:477-519 | the eager loop succeeds exactly if the file covers what is read, frames, read buffers and page tables suffice, and no page is mapped, and then maps exactly these pages |
| `ElfLoad.Process.LazyLoadSegment` | G/A4/Pintos/src/userprog/process.c:521-551 | the lazy loop appends one table entry for each page |
| `ElfLoad.Process.LookupSup` | G/A4/Pintos/src/vm/sup_page.c:49-58 | finds the first entry for a page |
| `ElfLoad.Process.LoadPage` | G/A4/Pintos/src/userprog/exception.c:230-256 | fills a frame from the file and maps it, or panics; read buffer and page table may be refused |
| `ElfLoad.Process.PageFault` | G/A4/Pintos/src/userprog/exception.c:196-219 | the fault handler, equal to the model's fault |
| `ElfLazy.TableDescribes` | G/A4/Pintos/src/userprog/process.c:521-551 | the lazy table has one entry for each page of the eager memory, with its bytes and permission |
| `ElfLazy.LazyIsEager` | G/A4/Pintos/src/userprog/process.c:353-388 | faulting the pages in any order gives each the bytes and permission of eager loading, for one frame each, and leaves the others on disk; after all pages the memories are equal |
| `ElfLazy.LoadedMeaning` | G/A4/Pintos/src/userprog/process.c:353-388 | the loaded memory holds each segment's file bytes, then zeros up to its memory size, with its permission (Program Header, Part 2 of the TIS ELF Specification 1.2) |
| `ElfLazy.AgreeIffCovered` | G/A4/Pintos/src/userprog/process.c:477-551 | for a valid segment, with frames and memory: loading at once succeeds if and only if the file covers the segment, if and only if every first touch of a lazily loaded page loads it; otherwise some page panics the kernel when touched |
| `ElfLazy.TouchLoads` | G/A4/Pintos/src/userprog/exception.c:230-256 | the first touch of each lazily loaded page loads it if the file has all of its bytes, and panics otherwise |
| `ElfLazy.ShortFileExample` | G/A4/Pintos/src/userprog/process.c:420-460 | a valid segment behind the end of a one-page file: the eager loader fails, the lazy one panics |
| `ElfLazy.LoadEagerly` | G/A4/Pintos/src/userprog/process.c:353-388 | the loop over segments without demand paging builds the eager memory |
| `ElfLazy.LoadLazily` | G/A4/Pintos/src/userprog/process.c:353-388 | the loop over segments with demand paging builds the table |
| `Division.Nlz` | G/A4/Pintos/src/lib/arithmetic.c:42-73 | shifting by the result brings the top bit to bit 31 and loses none |
| `Division.EstimateError` | G/A4/Pintos/src/lib/arithmetic.c:111-124 | dividing by the divisor cut to its top 32 bits gives the quotient or one more |
| `Division.EstimateClose` | G/A4/Pintos/src/lib/arithmetic.c:121-123 | the wide branch's divide does not trap, and the estimate is the quotient or one more |
| `Division.EstimateExample` | G/A4/Pintos/src/lib/arithmetic.c:121-123 | both outcomes occur |
| `Division.Correction` | G/A4/Pintos/src/lib/arithmetic.c:124 | the last line tells them apart in 64-bit arithmetic |
| `Division.Narrow` | G/A4/Pintos/src/lib/arithmetic.c:81-109 | schoolbook division by 32 bits: the instruction does not trap and the sum is the quotient |
| `Division.UDiv64` | G/A4/Pintos/src/lib/arithmetic.c:78-127 | the floor of the quotient for all 64-bit numbers; a trap for divisor zero only |
| `Division.TruncatedMeans` | G/A4/Pintos/src/lib/arithmetic.c:140-146 | truncation leaves a remainder smaller than the divisor, with the sign of the dividend (section 6.5.5 of C99) |
| `Division.SDiv64` | G/A4/Pintos/src/lib/arithmetic.c:140-146 | under wrap-around the quotient truncated toward zero exactly unless the least number is divided by -1 |
| `Sorting.Heapify` | G/A4/Pintos/src/lib/stdlib.c:98-123 | terminates, restores the heap at `i`, and only permutes the first `cnt` elements |
| `Sorting.RootIsMax` | G/A4/Pintos/src/lib/stdlib.c:145-151 | the root of a heap is a largest element |
| `Sorting.OneMoreDone` | G/A4/Pintos/src/lib/stdlib.c:147-151 | swapping the root behind the heap puts one element more in place |
| `Sorting.Sort` | G/A4/Pintos/src/lib/stdlib.c:133-152 | an ordered permutation for every total preorder |
| `Sorting.BinarySearch` | G/A4/Pintos/src/lib/stdlib.c:186-207 | returns a match exactly if there is one |
| `PageTables.MakeDecodes` | G/A4/Pintos/src/threads/pte.h:87-104 | an entry gives back its page and permission, and is present and for users |
| `PageTables.BitsAreArithmetic` | G/A4/Pintos/src/threads/pte.h:32-104 | on 32-bit words the or-ing of flags, the masks and the shifts are the additions, remainders and quotients used here |
| `PageTables.SplitUnique` | G/A4/Pintos/src/threads/pte.h:32-39 | directory index, table index and offset determine an address |
| `PageTables.PokeOk` | G/A4/Pintos/src/userprog/pagedir.c:112-115 | changing one table word changes the flat map at one page only |
| `PageTables.NewTableOk` | G/A4/Pintos/src/userprog/pagedir.c:69-80 | a new zeroed table leaves the flat map as it is |
| `PageDir.PageDirectory.constructor` | G/A4/Pintos/src/userprog/pagedir.c:17-23 | a new directory maps no user page |
| `PageDir.PageDirectory.LookupPage` | G/A4/Pintos/src/userprog/pagedir.c:57-86 | returns the entry's place, and fails exactly without a table and without a page for one; the flat map is unchanged |
| `PageDir.PageDirectory.SetPage` | G/A4/Pintos/src/userprog/pagedir.c:99-119 | maps exactly this page to the frame, or fails exactly if no table can be had; all other pages keep their mapping |
| `PageDir.PageDirectory.GetPage` | G/A4/Pintos/src/userprog/pagedir.c:126-137 | the frame plus the offset, or null if unmapped |
| `PageDir.PageDirectory.ClearPage` | G/A4/Pintos/src/userprog/pagedir.c:144-157 | unmaps exactly this page |
| `PageDir.PageDirectory.Destroy` | G/A4/Pintos/src/userprog/pagedir.c:28-48 | the nested loops free this sequence of pages |
| `PageDir.FreedExactlyOnce` | G/A4/Pintos/src/userprog/pagedir.c:28-48 | with distinct frames that sequence has no repeats and consists of the directory, every user page table and every mapped frame |
| `OctalFields.Output.Put` | G/A4/Pintos/src/lib/stdio.c:46-52 | stores what fits and counts the rest |
| `OctalFields.Output.FormatOctal` | G/A4/Pintos/src/lib/stdio.c:473-547 | writes the padded octal digits |
| `OctalFields.PrintOctal` | G/A4/Pintos/src/lib/stdio.c:62-72 | leaves the truncated text and a null byte in the field, and nothing else |
| `OctalFields.ValueOfPadded` | G/A4/Pintos/src/lib/stdio.c:500-535 | the padded digits have the value that was printed |
| `OctalFields.ParseField` | G/A4/Pintos/src/lib/ustar.c:130-162 | the loop is the model's parser, with its overflow test |
| `OctalFields.ParseMeans` | G/A4/Pintos/src/lib/ustar.c:130-162 | accepted are exactly the fields of at least one octal digit up to a space or null byte whose value fits 32 bits, with that value |
| `OctalFields.PrintThenParse` | G/A4/Pintos/src/lib/ustar.c:130-162 | what is printed into a field that it fills is parsed back, for all 32-bit numbers |
| `Ustar.StripPrefixes` | G/A4/Pintos/src/lib/ustar.c:66-73 | the loop returns what is left of the name behind forbidden prefixes, or "." in place of nothing and of ".." |
| `Ustar.StripIsSafe` | G/A4/Pintos/src/lib/ustar.c:66-73 | a stripped name is not empty, has no forbidden prefix and is not ".."; exactly such names are returned unchanged |
| `Ustar.StripMeans` | G/A4/Pintos/src/lib/ustar.c:66-73 | the stripped name is what is left of the name behind a concatenation of "/", "./" and "../" when none of them follows, or "." in place of nothing and of "..", and only that |
| `Ustar.SumIgnoresField` | G/A4/Pintos/src/lib/ustar.c:45-52 | the checksum does not depend on its own field |
| `Ustar.SumBound` | G/A4/Pintos/src/lib/ustar.c:37-54 | the checksum fits seven octal digits |
| `Ustar.MakeHeader` | G/A4/Pintos/src/lib/ustar.c:83-118 | fails exactly for a stripped name longer than 99 characters, and otherwise builds the header |
| `Ustar.LayHolds` | G/A4/Pintos/src/lib/ustar.c:95-113 | fields that do not overlap are all found where they were written, among zeros |
| `Ustar.ParseInPlace` | G/A4/Pintos/src/lib/ustar.c:182-227 | the checks in their order, equal to the model's parser |
| `Ustar.RoundTrip` | G/A4/Pintos/src/lib/ustar.c:83-227 | parsing a made header returns the stripped name, the type and the size (0 for a directory) exactly unless a regular file has a negative size |
| `Ustar.Attributes` | G/A4/Pintos/src/lib/ustar.c:96-113 | a made header gives back mode 0644 for a file and 0755 for a directory, owner and group 0 and "root", and the fixed time |
| `Ustar.Accepted` | G/A4/Pintos/src/lib/ustar.c:199-220 | a header is accepted, with some size, exactly if it has the magic, the version, its sum in the checksum field, a name that ends within its field, no prefix, a known type, and, for a file, that size below 2^31 |
| `Ustar.OneByteChanged` | G/A4/Pintos/src/lib/ustar.c:199-206 | an accepted header of which any one byte outside the checksum field changes is rejected |
| `PrimeSharing.IsPrime` | G/A2/Top/src/main.c:29-41 | true exactly for primes |
| `PrimeSharing.StepKeeps` | G/A2/Top/src/main.c:77-102 | every step of every thread keeps the claims disjoint, the log free of repeats, and the results right |
| `PrimeSharing.StepFalls` | G/A2/Top/src/main.c:83-102 | every step lowers a measure |
| `PrimeSharing.NeverStuck` | G/A2/Top/src/main.c:84-87 | until all threads are done some thread can move |
| `PrimeSharing.RunsAreFinite` | G/A2/Top/src/main.c:77-102 | no interleaving has more steps than the measure of the start |
| `PrimeSharing.EveryInterleaving` | G/A2/Top/src/main.c:77-102 | when no thread can move all are done, each number from 1 to below the limit was tested exactly once, primeF holds exactly the primes below it, and the counts add up to their number |

## Left out

- Malloc.Allocator.Realloc: requests for which adding the arena header passes 2^32 are excluded when the old block is larger than one page, because the copy then runs past the new block; `MallocRuns.ReallocOk` covers them but for the bytes.
- PrimeSharing.IsPrime: takes floor(sqrt(n)) as a parameter with its defining inequalities, because it is computed in floating point.
- OctalFields.Output.FormatOctal: models unsigned octal conversions with the 0 flag, the only ones a header needs; signs, grouping, precision, other bases and padding with spaces are not modelled.
- FileSystem.FileSystem.Create: the reference to the root directory's inode that each call opens and closes appears only as a condition on memory; `FsEffects.OpenThenClose` says why it leaves no trace.
- PageReplacement.Lru: traces are the values as the loop consumes them (a file read with feof repeats its last value), with addresses inside the present table and at least one page.
- Bytes of directory entries, of inodes on disk and of the free map's own file: the directory is an array of slots, and a sector holds either an inode or data.
- ElfLoad.Process.PageFault: faults on the null address and on the stack, which kill the process or grow its stack, are not modelled.
- Formatting without memory for a buffer, which panics the kernel.
- Closing the free map's file at shutdown, and reading the map back when an existing device is mounted.
- calloc, whose overflow test is not sound, and the locks inside malloc and palloc, which serialise calls.
- The bytes of arena headers and of list links inside free blocks; blocks in use are proved not to overlap them.
- Wrap-around of counters: semaphore values, open counts, use counts and the shared counter of the prime threads are unbounded; heap indexes stay below 2^31.
- Fairness of the scheduler: the step systems show that wakeups are not lost and that signals are kept, not that a thread is eventually chosen.
- The reader-writer lock: a last reader that was not the first trips the holder assertion.
- Locks other than the one a condition variable belongs to, and interrupt handlers that raise the waiters' semaphores.
- Accessed and dirty bits, the TLB, and the kernel half of a page directory.
- Eviction, stack growth, argument passing, and the executable changing while it runs; segments that overlap, whose pages the eager loader refuses.
- umod64 and smod64, whose 32-bit results truncate.
- Clock and N-chance replacement, whose eviction reads a variable that is never set.
- Priority donation and user-level threads: the intended ordering does not hold of the code.
- runSlow, which covers a different range, timing, gnuplot output, and the LIMIT of 50 threads.
- Drivers, interrupts, boot code, system call arguments, the archive commands of fsutil, and the second copies of these files.
- `lib/kernel` list and bitmap are not part of this model: lists are sequences or linked nodes, and a bitmap is a sequence of booleans scanned first fit.
