# A verified model of a teaching kernel's inode layer, page pool, SD queue and PID allocation

This project models the core of a small AArch64 teaching kernel in Dafny and proves properties of the model. It covers five parts:

- **The inode layer** (`src/fs/inode.c`). The layer sits on top of the block cache's interface. It covers:
  - on-disk inode allocation;
  - the reference-counted list of in-memory inodes (`inode_get`, `inode_share`, `inode_put`);
  - loading and writing back an inode entry (`inode_sync`);
  - freeing a file's blocks (`inode_clear`);
  - a file's block map, with direct slots and one indirect block (`inode_map`, `inode_map2`);
  - byte-range read and write;
  - directories as arrays of `DirEntry` records (`inode_lookup`, `inode_insert`, `inode_remove`).

  The disk image is a map from block numbers to blocks. A block is seen in the three ways `inode.c` reads one: as inode entries, as an indirect block of block numbers, and as bytes. The block cache (`src/fs/cache.c`) is a class with that image, its set of allocated blocks, and ghost logs of the blocks it synced and freed. `cache.c`'s own bodies are unfinished stubs, so the cache follows the contract the inode layer relies on: `alloc` hands out an unused block, zeroed, or panics with "no free block".
- **The physical page pool** (`src/core/physical_memory.c`). Pages are handed out first-fit from a usage array:
  - `pool_init`, `pool_alloc` and `pool_free`;
  - `kalloc`, `nkalloc`, `kfree` and `nfree`;
  - the `kalloc`/`kfree` self-test of `src/core/virtual_memory.c`.
- **The SD request queue** (`src/driver/buf.c`). It is a FIFO of buffers, modelled as a sequence.
- **PID allocation** in the container hierarchy (`alloc_resource` for PIDs, and the PID counter that `alloc_container` starts at 1).
- **Process slot allocation** in a scheduler's table (`alloc_pcb_simple`).

A `PANIC` or a failed `assert` in the source is an explicit outcome of the model, not a precondition. Functions return `Result` (`Ok` or `Halt(reason)`) and methods return `Status` (`Done` or `Halted(reason)`). The contracts say exactly when each operation halts. The file-system constants come from headers outside this model (`BLOCK_SIZE`, `INODE_PER_BLOCK`, `INODE_NUM_DIRECT`, `INODE_NUM_INDIRECT`, `INODE_MAX_BYTES`, `FILE_NAME_MAX_LENGTH`, and the width of `DirEntry.inode_no`). They are the fields of a `Geometry` value, under the side conditions the code needs (`Geometry.Valid`).

Modules, one per file:

- `common.dfy`: `Common`, with `Result`, `Status`, `Option` and bytes.
- `arith.dfy`: `Arith`, division lemmas.
- `fs_defs.dfy`: `FsDefs`, with the constants, `InodeEntry`, `Block`, and the `DirEntry` encoding.
- `block_cache.dfy`: `BlockCache`.
- `inode_layout.dfy`: `InodeLayout`, the inode table's placement, a file's block map and bytes as functions of the disk image, the read/write chunking, and the directory scan.
- `inodes.dfy`: `Inodes`, the in-memory inode list and the operations of `inode.c`.
- `page_pool.dfy`: `PhysicalMemory`.
- `sd_queue.dfy`: `SdBuf`.
- `container.dfy`: `Containers`.

## Model

| member | source | states |
|---|---|---|
| Inodes.Inode.constructor | src/fs/inode.c:67-73 | a new in-memory inode has no references, is not valid and holds the all-zero entry |
| Inodes.InodeTree.constructor | src/fs/inode.c:54-63 | `init_inodes` starts with an empty inode list over the given super block and cache |
| Inodes.InodeTree.FindInList | src/fs/inode.c:18-30 | `get_inode_inlist` returns a listed inode with that number, or NULL exactly when none is listed |
| InodeLayout.PlaceInjective | src/fs/inode.c:35-45 | `to_block_no` and `get_entry` give distinct inode numbers distinct places in the inode table |
| InodeLayout.PlaceOf | src/fs/inode.c:35-45 | slot `j` of the table's `q`-th block holds inode `q * INODE_PER_BLOCK + j` |
| InodeLayout.DiskEntryUpdate | src/fs/inode.c:166-169 | writing inode `k`'s entry changes that entry and no other inode's |
| InodeLayout.DiskEntryOverwrite | src/fs/inode.c:166-169 | writing inode `k`'s entry twice leaves the second value |
| Inodes.InodeTree.InodeAlloc | src/fs/inode.c:92-124 | allocates the lowest inode number above 1 whose disk entry is invalid, writes a zeroed entry of the requested type and syncs its block; halts for an invalid type or when no number is free; the block pool is untouched |
| Inodes.InodeTree.InodeSync | src/fs/inode.c:146-176 | halts for a number outside `1 .. num_inodes-1` or an invalid disk entry; loads the disk entry into an inode that does not hold it; writes a held entry back (and syncs its block) only when `do_write` is set |
| Inodes.InodeTree.InodeGet | src/fs/inode.c:187-241 | a listed inode gains one reference; otherwise a new inode with one reference, loaded from disk (typed as a directory for the root), joins the list; halts on a bad number or an invalid disk entry; no other inode changes |
| Inodes.InodeTree.LoadInode | src/fs/inode.c:203-235 | the miss branch of `inode_get`: a fresh inode loaded from disk is appended to the list |
| Inodes.InodeTree.InodeShare | src/fs/inode.c:297-302 | one more reference to the same inode; the list stays well formed |
| Inodes.InodeTree.ClearDirect | src/fs/inode.c:260-267 | the direct loop of `inode_clear` frees exactly the non-zero direct blocks, in order (only for a valid inode), and zeroes every direct address |
| Inodes.InodeTree.ClearIndirect | src/fs/inode.c:270-285 | the indirect loop frees the non-zero words, in order, then the indirect block |
| Inodes.InodeTree.ClearBlocks | src/fs/inode.c:255-288 | both loops together: the entry becomes `Cleared` (no addresses, same type, links and size) and the freed blocks are `ClearFrees` of the old entry |
| Inodes.InodeTree.ClearWith | src/fs/inode.c:250-291 | `inode_clear` followed by its `inode_sync`: the cleared entry is written to disk, or, for an inode that was not valid, the disk entry is loaded; halts exactly when that sync does |
| Inodes.InodeTree.InodeClear | src/fs/inode.c:250-291 | `inode_clear` taking the indirect block's own block numbers: frees `ClearFrees(entry, indirect words)` and writes the cleared entry back |
| Inodes.InodeTree.InodeClearAsWritten | src/fs/inode.c:250-291 | `inode_clear` as written: it frees the non-zero direct blocks, then whatever words it takes as the indirect block's, then the indirect block, and it clears the entry |
| Inodes.ClearAsWrittenLeaks | src/fs/inode.c:270-285 | a sound file whose indirect block maps block 7: the clear frees block 7 when it reads the indirect block's words, and leaves it allocated when the words it reads are 0 |
| Inodes.ClearFreesMapped | src/fs/inode.c:250-291 | for a sound file, the clear frees every mapped block and the indirect block, each exactly once, and only allocated blocks |
| Inodes.ClearFreesExact | src/fs/inode.c:260-285 | a block is freed by the clear exactly when it is the indirect block or one of the file's mapped blocks |
| Inodes.FreedIsMapped | src/fs/inode.c:260-285 | every block the clear frees is non-zero and is the indirect block or a mapped block |
| Inodes.MappedIsFreed | src/fs/inode.c:260-285 | every mapped block is among those the clear frees |
| Inodes.ClearFreesDistinct | src/fs/inode.c:260-285 | on a sound file no block is freed twice |
| Inodes.ClearFreesUsed | src/fs/inode.c:260-285 | on a sound file only allocated blocks are freed |
| Inodes.DirectFreedNonZero | src/fs/inode.c:260-267 | the direct loop's frees are the non-zero direct addresses, filtered in order |
| Inodes.AddrsAreFileBlocks | src/fs/inode.c:260-285 | the direct addresses and the indirect block's words are the file's blocks in order |
| Inodes.DirectNotIndirect | src/fs/inode.c:260-285 | in a sound file no direct block is also an indirect word or the indirect block |
| Inodes.InodeTree.Destroy | src/fs/inode.c:324-333 | an unreferenced, unlinked inode is cleared and its disk entry becomes all zero; the blocks freed are `ClearFrees` of the old entry and its indirect block's words, so `used` loses exactly those; the inode's table block is synced twice (by the clear and by the zeroing) |
| Inodes.InodeTree.Detach | src/fs/inode.c:336-338 | the inode leaves the list; the others stay, in order, and the list stays well formed |
| Inodes.InodeTree.InodePut | src/fs/inode.c:310-343 | drops one reference; the last reference removes the inode from the list, after freeing its blocks and zeroing its disk entry when it has no links and is not the root (then `used` loses exactly `ClearFrees` of the old entry and the table block is synced twice); no other case touches the disk |
| Inodes.InodeTree.InodeMap | src/fs/inode.c:363-402 | returns the block holding `offset`: the mapped one unchanged, or a freshly allocated one (allocating the indirect block first when needed); halts at `offset >= INODE_MAX_BYTES`, or below it only when the slot was unmapped and every allocatable block is in use (`cache_alloc` finds no free block); keeps the file sound, changes no other block of the map, and reports in `modified` whether anything was allocated; among allocated blocks only the old indirect block changes, every block the map now names is the old one or newly allocated, and no inode table entry changes |
| Inodes.InodeTree.MapDirect | src/fs/inode.c:370-372 | the direct-slot branch of `inode_map`: halts only when the slot was unmapped and the cache is full, with the same frame as `InodeMap` |
| Inodes.InodeTree.MapIndirect | src/fs/inode.c:375-399 | the indirect branch of `inode_map`: halts only when the slot was unmapped and the cache is full (after allocating the indirect block, if that succeeded), with the same frame as `InodeMap` |
| InodeLayout.SetDirect | src/fs/inode.c:370-372 | filling an empty direct slot with a fresh block keeps the file sound and changes no other slot |
| InodeLayout.SetIndirectBlock | src/fs/inode.c:379-382 | installing a fresh zeroed indirect block maps nothing new and keeps the file sound |
| InodeLayout.SetIndirectSlot | src/fs/inode.c:391-399 | filling an empty indirect slot with a fresh block keeps the file sound and changes no other slot |
| Inodes.InodeTree.Map2 | src/fs/inode.c:405-424 | `inode_map2`: the block mapped for the offset; where the source fails one of its asserts (lines 407, 412, 419, 421: offset at or past `INODE_MAX_BYTES`, or the slot or indirect block unmapped) the model returns 0, which `ReadChunk` turns into the halt |
| Inodes.InodeTree.InodeRead | src/fs/inode.c:431-454 | returns exactly the file's bytes `[offset, offset+count)` when `offset < num_bytes`, the range ends within `num_bytes`, and every block it touches is mapped; halts otherwise |
| Inodes.InodeTree.ReadRange | src/fs/inode.c:440-453 | the copy loop of `inode_read` yields the file's bytes block by block, halting at the first unmapped block |
| Inodes.InodeTree.ReadChunk | src/fs/inode.c:441-452 | one pass of the read loop extends the copied prefix with the chunk of one block |
| InodeLayout.ChunkStep | src/fs/inode.c:441-452 | the chunk `[start, term)` of block `i` continues the bytes copied so far |
| InodeLayout.ChunkBounds | src/fs/inode.c:443-444 | for every block the loops visit, `0 <= start <= term <= BLOCK_SIZE` |
| InodeLayout.ChunksCover | src/fs/inode.c:440-453 | taken in order, the chunks cover `[offset, end)` exactly, each offset once |
| InodeLayout.MappedBelowStep | src/fs/inode.c:440-453 | a mapped block at `q` extends the run of mapped blocks the read loop has passed |
| InodeLayout.UnreadableAt | src/fs/inode.c:446-447 | an unmapped block inside the range makes the range unreadable, which is where the read halts |
| InodeLayout.ReadableUpTo | src/fs/inode.c:440-453 | mapped blocks up to the one past the end make the range readable |
| Inodes.InodeTree.InodeWrite | src/fs/inode.c:461-498 | halts when `offset > num_bytes` or the write passes `INODE_MAX_BYTES`, and otherwise only when the write ends on a block boundary at `INODE_MAX_BYTES`, the inode number is outside `1 .. num_inodes-1`, its disk entry is invalid (`inode_sync`), or every allocatable block is in use; otherwise the written bytes hold `src`, every other byte of every previously mapped block is unchanged, the file stays sound, the size becomes the larger of the old size and the write's end, and the entry is written back when a block was allocated or the file grew; the data blocks themselves are not synced; among allocated blocks only this file's old blocks and its inode's table block change, and no other inode's disk entry changes |
| Inodes.InodeTree.WriteLoop | src/fs/inode.c:474-491 | the `i <= end` copy loop maps and fills each block in turn; it also maps the block starting at `end` when `end` lies on a block boundary, so a write ending exactly at `INODE_MAX_BYTES` halts, and that is the only halt other than a full cache; the entry's type, links and size and the cache's logs are unchanged, and only this file's old blocks or newly allocated ones change |
| Inodes.InodeTree.WriteBlocks | src/fs/inode.c:474-491 | the loop itself: block by block from the one holding `offset`, ending past the block of the last byte with every chunk copied; it halts only on a full cache or a block-aligned end at `INODE_MAX_BYTES`, with the same frame |
| Inodes.InodeTree.WriteBlock | src/fs/inode.c:475-490 | one pass of the write loop preserves the loop's progress invariant and advances it by the block's chunk, keeping the write's frame; it halts only on a full cache or when its block starts at a block-aligned end at `INODE_MAX_BYTES` |
| Inodes.InodeTree.CopyChunk | src/fs/inode.c:477-488 | the `memcpy` of one pass: `term - start` bytes of `src` go into the mapped block, the progress reaches the chunk's end, and no block outside the file's old or new blocks changes |
| InodeLayout.WriteChunk | src/fs/inode.c:483-488 | copying bytes into a mapped block changes exactly those file bytes and keeps the block map and soundness |
| InodeLayout.WriteStep | src/fs/inode.c:483-488 | one chunk copy writes `src`'s bytes to exactly their file offsets |
| InodeLayout.ProgressAfterMap | src/fs/inode.c:476-478 | mapping the next block keeps what the loop has achieved |
| InodeLayout.ProgressAfterChunk | src/fs/inode.c:483-488 | copying the next chunk extends what the loop has achieved |
| InodeLayout.ProgressDone | src/fs/inode.c:474-491 | after the loop passes the last byte's block, the write is complete |
| InodeLayout.WriteDoneFrame | src/fs/inode.c:494-497 | updating `num_bytes` and syncing the entry keep the written bytes and block map |
| InodeLayout.ChangedAt | src/fs/inode.c:363-402 | writing a block that is excepted or not allocated keeps the frame "only excepted blocks changed" |
| InodeLayout.ChangedOnlyTrans | src/fs/inode.c:474-491 | two changes, the second confined to blocks the first excepted or that were not allocated, compose |
| InodeLayout.EntriesAt | src/fs/inode.c:363-402 | writing a block past the inode table, or one whose entries are kept, keeps every table entry |
| InodeLayout.EntriesKeptTrans | src/fs/inode.c:474-491 | keeping the table entries composes |
| InodeLayout.OldOrFreshTrans | src/fs/inode.c:474-491 | "every block the map names is old or newly allocated" composes across passes |
| InodeLayout.ZeroedOldOrFresh | src/fs/inode.c:379-394 | zeroing a newly allocated block keeps every mapped block old or new |
| InodeLayout.DirectOldOrFresh | src/fs/inode.c:370-394 | storing a new block in a direct slot maps only old or new blocks |
| InodeLayout.IndirectOldOrFresh | src/fs/inode.c:379-382 | installing a new zeroed indirect block maps only old or new blocks |
| InodeLayout.SlotOldOrFresh | src/fs/inode.c:385-394 | storing a new block in an indirect slot maps only old or new blocks |
| InodeLayout.BytesOldOrFresh | src/fs/inode.c:483-485 | copying bytes into a block changes no block of the map |
| InodeLayout.MappedOldOrFresh | src/fs/inode.c:474-491 | a block mapped during the write is one of the file's old blocks or was not allocated before |
| InodeLayout.WriteFrameAfterMap | src/fs/inode.c:476-481 | a pass's `inode_map` keeps the write's frame |
| InodeLayout.WriteFrameAfterBytes | src/fs/inode.c:483-485 | a pass's copy into a mapped block keeps the write's frame |
| InodeLayout.WriteBackFrame | src/fs/inode.c:494-497 | writing the inode's entry back adds only its table block to the changed blocks and changes no other inode's entry |
| InodeLayout.NoWriteBackFrame | src/fs/inode.c:494-497 | without the write-back, no inode's entry has changed, this inode's included |
| InodeLayout.OutsideUsedFrame | src/fs/inode.c:379-399 | changing only unallocated blocks changes nothing in a sound file |
| InodeLayout.KeepsMappedBytes | src/fs/inode.c:363-402 | bytes of blocks that stay mapped keep their values |
| InodeLayout.AppendBytes | src/fs/inode.c:563-580 | a write at the end of a readable file leaves it readable, holding the old bytes followed by `src` |
| InodeLayout.AppendKeeps | src/fs/inode.c:563-580 | below the write's start, a file's blocks and bytes are as before |
| InodeLayout.FileBytesSplit | src/fs/inode.c:440-453 | consecutive byte ranges of a file concatenate |
| Inodes.InodeTree.InodeLookupAsWritten | src/fs/inode.c:507-554 | the lookup as written: any answer is the first matching entry, but on a readable directory with no match whose size is a multiple of `BLOCK_SIZE` it halts |
| Inodes.InodeTree.InodeLookup | src/fs/inode.c:507-554 | halts when the directory's size is not a whole number of entries or the name is too long; otherwise, on a readable directory, always answers, with the first entry whose name field holds the name, its inode number and offset, or "not found" |
| Inodes.InodeTree.ScanDir | src/fs/inode.c:512-553 | the body of `inode_lookup`, with the outer loop bound as a parameter |
| Inodes.InodeTree.ScanBlocks | src/fs/inode.c:523-550 | the outer loop finds the first match or reports none; it halts only past the end, in the as-written bound |
| Inodes.InodeTree.ScanBlock | src/fs/inode.c:525-546 | one pass reads one block's part of the directory: a hit is the directory's first match from there, a miss leaves the rest to later blocks |
| Inodes.InodeTree.ScanEntries | src/fs/inode.c:532-546 | the inner loop returns the first entry of the buffer whose name matches |
| Inodes.InodeTree.NextBlock | src/fs/inode.c:525-549 | each pass reads a whole number of entries and stays on block and entry boundaries |
| Inodes.WindowLookupHit | src/fs/inode.c:532-546 | a hit in one block's window is the directory's first match from the window's start |
| Inodes.WindowLookupMiss | src/fs/inode.c:532-549 | a miss in a window passes the search on to the next window |
| Inodes.LookupFromEnd | src/fs/inode.c:523 | nothing is found past the end of the directory |
| Inodes.LookupNextBlock | src/fs/inode.c:523-549 | a miss in a pass, whose window is a whole block or reaches the end, moves the search on to the next block |
| Inodes.WindowAt | src/fs/inode.c:532-546 | a window whose first match is entry `k` answers with that entry's inode number and the offset `bi + k` |
| Inodes.WindowHitAt | src/fs/inode.c:532-546 | a window hit at `k` that is also the directory's first match from `bi`, holding the same bytes, gives the directory's answer |
| Inodes.LookupFromAt | src/fs/inode.c:532-546 | a first match at `o` answers with the inode number stored in the entry at `o` |
| InodeLayout.FirstMatchWindow | src/fs/inode.c:532-546 | scanning a window of whole entries agrees with scanning the directory |
| InodeLayout.FirstMatchNone | src/fs/inode.c:532-552 | with no matching entry from an offset on, the scan finds nothing |
| InodeLayout.FirstMatchAt | src/fs/inode.c:532-546 | a matching entry with no earlier match is the one found |
| InodeLayout.FirstMatchAppend | src/fs/inode.c:563-580 | appending an entry: the first match is the old one, else the new entry if it matches |
| Inodes.AppendKeepsFound | src/fs/inode.c:563-580 | a name found before an append is found at the same entry after it |
| Inodes.AppendFindsNew | src/fs/inode.c:563-580 | a name not found before an append is found after it exactly at the new entry when that entry matches, and not at all otherwise |
| Inodes.LookupAfterInsert | src/fs/inode.c:563-580 | after `inode_insert` of `stored`, looking up `name` finds the old answer, else the new entry (with the inode number cut to its field) exactly when `name == stored` |
| Inodes.InodeTree.InodeInsert | src/fs/inode.c:563-580 | halts when the inode is not a directory of whole entries or the new entry does not fit below `INODE_MAX_BYTES`, and otherwise only when the entry ends on a block boundary at `INODE_MAX_BYTES`, the inode number is out of range, its disk entry is invalid, or the cache is full; returns the old size as the entry's offset, and the directory's bytes become the old ones followed by the encoded entry; the type and link count are unchanged; among allocated blocks only the directory's old blocks and its table block change, and no other inode's disk entry changes |
| Inodes.InodeTree.InodeRemove | src/fs/inode.c:588-607 | halts unless the inode is a directory and the index is an aligned offset below `INODE_MAX_BYTES`, and otherwise only when the entry does not fit, ends on a block boundary at `INODE_MAX_BYTES`, the inode number is out of range, its disk entry is invalid, or the cache is full; an index at or past the end changes nothing; otherwise the entry's bytes become zero and the size shrinks to the index when that entry was the last one; the type and link count are unchanged; the same disk frame as `InodeInsert` |
| FsDefs.LeRoundTrip | src/fs/inode.c:573 | a `w`-byte little-endian field reads back the stored value modulo 256^w |
| FsDefs.DirEntryRoundTrip | src/fs/inode.c:572-574 | decoding an encoded `DirEntry` gives the truncated inode number and the `strncpy`'d name |
| FsDefs.StoredNameMatches | src/fs/inode.c:538 | `memcmp(name, field, strlen(name)+1)` on a name stored by `strncpy` succeeds exactly for that name |
| FsDefs.ZeroDirEntry | src/fs/inode.c:600-602 | a zeroed entry has inode number 0 and its name field matches exactly the empty name, as `memcmp` at line 538 does, so a lookup of "" can find a removed entry |
| BlockCache.Cache.Alloc | src/fs/cache.c:151-155 | an unused block, now used and zeroed, or a halt with "no free block" exactly when every allocatable block is in use |
| BlockCache.Cache.Free | src/fs/cache.c:159-161 | the block is no longer in use and nothing else changes |
| BlockCache.Cache.Sync | src/fs/cache.c:137-142 | the block is written back and nothing else changes |
| PhysicalMemory.PagePool.constructor | src/core/physical_memory.c:10-12 | before `pool_init`, every page is free and `poolnumend` is the array size |
| PhysicalMemory.PagePool.Init | src/core/physical_memory.c:25-32 | manages `min(old poolnumend, (end-start)/PAGE_SIZE)` pages from `start`, all free |
| PhysicalMemory.PagePool.Alloc | src/core/physical_memory.c:34-56 | returns the address of the lowest free run of `numpages` pages ending within `poolnumend`, now marked used, or NULL with the pool unchanged exactly when no such run exists (or `numpages <= 0`) |
| PhysicalMemory.PagePool.Free | src/core/physical_memory.c:58-73 | halts on a misaligned address, a range past `poolnumend`, or a page that is already free; otherwise marks exactly that range free |
| PhysicalMemory.PagePool.Kalloc | src/core/physical_memory.c:104-109 | one page, never NULL; halts exactly when no page is free |
| PhysicalMemory.PagePool.Nkalloc | src/core/physical_memory.c:93-98 | a run of `numpages` pages, never NULL; halts exactly when no run fits |
| PhysicalMemory.PagePool.Kfree | src/core/physical_memory.c:111-113 | `pool_free` of one page |
| PhysicalMemory.PagePool.Nfree | src/core/physical_memory.c:100-102 | `pool_free` of a run |
| PhysicalMemory.AllocFreeRestores | src/core/physical_memory.c:34-73 | allocating a free run and freeing it restores the pool |
| PhysicalMemory.UsedPageSpoilsRuns | src/core/physical_memory.c:39-47 | a used page spoils every run covering it, so resuming the scan past it misses no run |
| PhysicalMemory.FirstFitUnique | src/core/physical_memory.c:34-56 | the first-fit start is unique, so `pool_alloc` is deterministic |
| PhysicalMemory.PagePool.KallocKfreeTest | src/core/virtual_memory.c:234-250 | ten `kalloc`s, freed in reverse and allocated again, return the same addresses in the same order, and the pool ends as it began |
| PhysicalMemory.PagePool.AllocAgain | src/core/virtual_memory.c:243-246 | replaying `kalloc` from the same pool state returns the same addresses |
| PhysicalMemory.PagePool.FreeInReverse | src/core/virtual_memory.c:241-242 | freeing a trace of `kalloc`s in reverse restores the pool |
| PhysicalMemory.PagePool.FreedIndex | src/core/physical_memory.c:59-62 | the address of page `i` is aligned and maps back to `i` |
| PhysicalMemory.ScanBoundAsWritten | src/core/physical_memory.c:38 | the bound `poolnumend - numpages` computed in `u64` equals the intended bound when `numpages <= poolnumend` |
| PhysicalMemory.WrappedBoundAdmitsOverrun | src/core/physical_memory.c:38 | when `numpages > poolnumend` the bound wraps to at least `poolnumend` |
| PhysicalMemory.OverrunExample | src/core/physical_memory.c:38 | with 2 pages and a request for 3, the as-written scan admits start 0, where no run fits |
| SdBuf.Buf.constructor | src/driver/buf.h:12-17 | a new buffer holds its block number, no flags and zero data |
| SdBuf.SdQueue.constructor | src/driver/buf.c:3-6 | `init_sdbuf` leaves an empty queue |
| SdBuf.SdQueue.Init | src/driver/buf.c:3-6 | `init_sdbuf` on an existing queue empties it |
| SdBuf.SdQueue.TryFetchTask | src/driver/buf.c:8-18 | the oldest buffer, or NULL exactly when the queue is empty; the queue is unchanged |
| SdBuf.SdQueue.FetchTask | src/driver/buf.c:20-29 | NULL on an empty queue; otherwise the oldest buffer, removed from the front |
| SdBuf.SdQueue.AddTask | src/driver/buf.c:31-40 | the buffer joins the tail of the queue |
| SdBuf.FifoOrder | src/driver/buf.c:8-40 | over any interleaving of adds and fetches, buffers are fetched in the order they were added, and the rest stay queued in that order |
| SdBuf.FetchedBounded | src/driver/buf.c:20-29 | fetches never hand out more buffers than were queued or added |
| SdBuf.FifoScenario | src/driver/buf.c:20-40 | two buffers added to an empty queue come out in order, then NULL |
| Containers.Container.constructor | src/core/container.c:35-41 | `alloc_container`: every PID slot and process slot is zero and the PID counter starts at 1 |
| Containers.Proc.Reset | src/core/sched.c:143-144 | `memset` to zero, then `state = EMBRYO` |
| Containers.ClaimKeepsPidsIssued | src/core/container.c:86-97 | claiming the lowest free slot with the counter's PID keeps the issued PIDs distinct and below the counter |
| Containers.ClaimRecords | src/core/container.c:86-97 | one container's claim records the process in a previously free slot, under a PID no valid slot held |
| Containers.ClaimAllRecords | src/core/container.c:79-104 | along the whole chain, each container records the process under a new PID of its own and advances its counter |
| Containers.ClaimAllIndex | src/core/container.c:79-104 | the claim on the chain's `k`-th container is that container's own claim |
| Containers.ClaimLocal | src/core/container.c:86-99 | the loop claims the lowest invalid slot with the counter's PID and increments the counter, or finds none and changes nothing |
| Containers.AllocResource | src/core/container.c:79-104 | NULL for a NULL container or process; otherwise every container from this one to the root claims a slot for the process; halts exactly when some container on the chain has no free slot; the result is this container's PID |
| Containers.FirstUnused | src/core/sched.c:140-142 | the lowest `UNUSED` process slot |
| Containers.MakeEmbryo | src/core/sched.c:143-145 | the chosen slot is zeroed, becomes an embryo, and receives the PID that the chain issues |
| Containers.IssuePid | src/core/sched.c:145 | the embryo receives the container's next PID as the chain records it |
| Containers.AllocPcbSimple | src/core/sched.c:137-151 | takes the lowest `UNUSED` slot, zeroes it, marks it `EMBRYO` and gives it the container's next PID (recorded by every ancestor); returns NULL, changing nothing, when no slot is `UNUSED`; halts when PID allocation does; every other slot is unchanged |

## Left out

- Locks: the spin locks of the inode list, the inodes, the page pool, the process tables and the containers. The model is sequential.
- The arena that allocates `Inode` objects: a new inode is a fresh object.
- Reads and writes of the block device (`device_read`, `device_write`), the log and `OpContext`: `sync` records the block in a ghost log.
- The block cache's own implementation (`src/fs/cache.c` is a set of stubs): `Cache` follows the interface the inode layer uses.
- The byte layout of `InodeEntry`, of an indirect block and of a `Block`'s header: a block has separate entry, address and byte views.
- Inodes.InodeTree.InodeMap, Inodes.InodeTree.InodeRead and Inodes.InodeTree.InodeWrite: the indirect words and the file bytes are the block's contents, whereas the source addresses them from the start of the `Block` structure (src/fs/inode.c:385-386, 448, 485).
- Inodes.InodeTree.Map2: reads the indirect block's word through the cache, whereas the source casts the indirect block number itself to a pointer (src/fs/inode.c:420).
- The header constants (`BLOCK_SIZE` and the others): they are `Geometry` parameters.
- `printf`, and the messages `PANIC` prints, except the reasons recorded in `Halt`.
- `init_inodes`'s fetch of the root inode: it is the same as `InodeGet(1)`.
- The rest of `virtual_memory.c`, the scheduler, and container spawning other than the PID counter.
- `alloc_container`'s scheduler process, kernel stacks and contexts: not part of PID allocation.
- Containers.AllocResource: returns the PID itself, whereas the source returns the address of its local `foundpid`, which the caller dereferences after the function has returned.
- Containers.AllocResource: on a halt, the model does not state the claims that the containers below the full one have already made.
- Inodes.InodeTree.InodeClearAsWritten: the words it frees as the indirect block's are a parameter, because the model does not give a block's header bytes; it states only the frees and the cleared entry.
- SdBuf.SdQueue.AddTask: requires that the buffer is not already queued. Linking a queued node again would corrupt the circular list, which a sequence cannot represent.
- PhysicalMemory.PagePool.Alloc: addresses are unbounded integers; a 64-bit page address cannot overflow in a pool that fits in memory.
- PhysicalMemory.PagePool.Alloc, PhysicalMemory.PagePool.Kalloc, PhysicalMemory.PagePool.Nkalloc, PhysicalMemory.PagePool.Free, PhysicalMemory.PagePool.Kfree and PhysicalMemory.PagePool.Nfree: require `pagestart > 0` (allocation) and `pagestart <= addr` (freeing), which the source does not check. With `pagestart == 0` page 0 would be returned as NULL and read as "no page" (src/core/physical_memory.c:42-46); with `addr < pagestart` the unsigned subtraction at line 61 wraps and is truncated to `int`. The model does not give these two cases.

## Findings

| source | as written | input that shows it | evidently intended | confidence | as-written member | corrected member |
|---|---|---|---|---|---|---|
| src/core/physical_memory.c:38 | the scan bound `poolnumend - numpages` is computed in `u64` and wraps when `numpages > poolnumend` | `poolnumend = 2`, `numpages = 3`: the bound wraps near 2^64, so the scan admits start 0 and hands out pages 0..2, where page 2 is not managed | no start is admitted, so NULL is returned | high (not executed) | PhysicalMemory.OverrunExample | PhysicalMemory.PagePool.Alloc |
| src/fs/inode.c:523 | the outer loop runs while `block_index <= num_bytes`, so after a miss it calls `inode_read` at `offset == num_bytes`, whose assert at line 434 halts whenever `num_bytes % BLOCK_SIZE == 0` | an empty directory, or any directory of exactly one full block, looked up for a name it does not hold | the loop runs while `block_index < num_bytes` and returns 0 | high (not executed) | Inodes.InodeTree.InodeLookupAsWritten | Inodes.InodeTree.InodeLookup |
| src/fs/inode.c:273 | the indirect loop takes the block numbers from `(u32 *)block`, the start of the `Block` structure, not from `block->data` as `get_addrs` (lines 48-50) reads an indirect block | `inode_map` stores its words through `IndirectBlock *` at the same base (lines 385-386), so the clear frees what `inode_map` stored; the leak needs an indirect block whose words at the start of the `Block` structure differ from the block numbers in its data, for example after the block is read back from disk into a `Block` whose header holds other values: with indirect block 5 whose data maps block 7 and whose header words are 0, block 7 is never freed | every block number held in the indirect block's data is freed | low (not executed; the layout of `Block` is outside this model) | Inodes.ClearAsWrittenLeaks | Inodes.ClearFreesMapped |
