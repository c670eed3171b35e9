# Simple file system: storage engine model

This is a Dafny model of the storage engine of a small single-directory file system. It covers:

- **The emulated block device.** 8258 blocks of 1024 bytes, held in memory.
- **The free-block bitmap allocator** (block 65). It scans first-fit over bits 0..1023, and bit i stands for data block 66 + i.
- **The open-file descriptor table.** 100 entries; the lowest free slot is handed out.
- **The block-pointer resolver and grower.** Each inode has 12 direct pointers and one 256-entry indirect block, for at most 268 blocks.
- **The root-directory cache.** An ordered list of (name, inode) pairs with a restartable listing cursor, stored in the root inode's blocks at 32 entries per block.
- **The file API.** `mksfs`, `sfs_getnextfilename`, `sfs_getfilesize`, `sfs_fopen`, `sfs_fclose`, `sfs_frseek`, `sfs_fwseek`, `sfs_fwrite`, `sfs_fread` and `sfs_remove`, over a 512-entry inode table cache.

The modules follow the C files:

- **`Common`** (`common.dfy`): the geometry and on-disk records of `common.h`. A block is a datatype with one variant per view the C code casts a block to. Reading a block through another view gives zeros.
- **`Util`** (`util.dfy`): `sfs_util.c`. `FmIsAvailable`, `FmGetNextAddressAndAllocate`, `InitOpenFileDescriptorTable`, `GetNextFd` and `IsFileOpen` are methods with the C loops. `AllocateBlockToInode` is a method over the device and inode arrays. `InodeIndexToAddress` is a function.
- **`DirList`** (`dir_list.dfy`): the value semantics of the directory list. It covers lookup of the last match, removal of the first match, one listing step and the 32-per-block layout.
- **`DirCache`** (`dir_cache.dfy`): `root_dir_cache.c` as the class `RootDirCache`. The C linked list becomes `entries: seq<DirEntry>`, and `cur_listing` becomes an index `cursor`, where `|entries|` stands for NULL.
- **`Consistency`** (`sfs_state.dfy`): the invariant the API keeps, as predicates over snapshots of the state. It states:
  - which inode owns which data block (a ghost map);
  - that the bitmap marks every owned block;
  - that the root inode holds the cached directory;
  - that names and inode numbers in the directory are unique;
  - that open descriptors point inside their files.

  It also defines the bytes a file holds (`FileData`).
- **`Steps`** and **`WriteSteps`** (`steps.dfy`, `write_steps.dfy`): one lemma per step of the API operations, stated on snapshots. They show what each step does to the files, the bitmap, the directory and the invariant. `WriteSteps` holds the loop state of `sfs_fwrite` (`Loop`, `Writing`, `Progress`).
- **`Sfs`** (`sfs_api.dfy`): `sfs_api.c` as the class `FileSystem`. It holds the device, the inode table cache and the descriptor table as arrays, plus the directory cache. Every operation is a method proved against the functions and predicates above.
- **`Findings`** (`findings.dfy`): the defects of the C code, as written and corrected (see "## Findings").

`Valid()` is the invariant of a mounted file system. `mksfs(1)` establishes it. So does `mksfs(0)` on a device that holds a consistent file system, and every other operation keeps it. `Durable()` says that the inode table on the device is the cached one. `Steps.FlushedMountable` then shows that a remount reads the same table and directory back.

## Model

| member | source | states |
|---|---|---|
| Util.FmIsAvailable | sfs_util.c:11-34 | true for a positive request exactly when at least that many of bits 0..1023 are clear; for 0 exactly when bit 0 is set (the loop stops at once); never for a negative request; the map is only read |
| Util.FmGetNextAddressAndAllocate | sfs_util.c:37-63 | claims the lowest clear bit i among bits 0..1023, sets only that bit, writes the map back and returns 66 + i; when every scanned bit is set returns -1 and the device is unchanged |
| Util.FirstClearFound | sfs_util.c:23-33 | the allocator finds a bit exactly when the free-bit count it checks is at least 1 |
| Util.InitOpenFileDescriptorTable | sfs_util.c:65-70 | every descriptor becomes invalid and nothing else in the entry changes |
| Util.GetNextFd | sfs_util.c:72-86 | the lowest invalid descriptor index, or -1 exactly when all 100 are valid |
| Util.IsFileOpen | sfs_util.c:159-171 | true exactly when some valid descriptor holds the inode number the directory gives for the name |
| Util.BlocksInUseCovers | sfs_api.c:383-384 | ceil(size / 1024) is the least number of whole blocks holding every byte of the file |
| Util.BlocksInUseAtBoundary | sfs_api.c:280 | at a block boundary the block to add next is the one holding byte `size` |
| Util.ResolveDirectNoRead | sfs_util.c:143-146 | an index below 12 resolves to its direct pointer without reading the device |
| Util.ResolveReadsIndirectOnly | sfs_util.c:147-153 | the only block the resolver reads is the inode's indirect block |
| Util.ResolveSizeGuardOnly | sfs_util.c:138-139 | the size only guards the lookup: inodes with the same pointers agree on every index both admit |
| Util.AllocateBlockToInode | sfs_util.c:89-133 | succeeds exactly when the file holds fewer than 268 blocks and at least the required bits (2 at exactly 12 blocks, else 1) are free; on failure nothing changes; on success the data block is claimed first, then at 12 blocks the indirect block, and the address goes in the next direct slot or the indirect table; only the inode's own slot changes |
| Util.GrownIsGrow | sfs_util.c:89-133 | a successful grow has exactly one outcome: the device and the inode are GrowDisk and GrowInode of the state before (first-fit data block, then the indirect block at 12 blocks) |
| Util.GrownResolves | sfs_util.c:107-130 | after a successful grow the earlier block indices resolve as before and the new index resolves to the claimed block, which was free |
| DirList.GetInodeNum | root_dir_cache.c:176-190 | the inode number of the last entry carrying the name, or -1 exactly when no entry carries it |
| DirList.GetInodeNumUnique | root_dir_cache.c:176-190 | with unique names, the lookup gives the inode of the one entry carrying the name |
| DirList.FindFirst | root_dir_cache.c:132-143 | the index of the first entry carrying the name, or -1 exactly when none does |
| DirList.RemoveFirst | root_dir_cache.c:132-164 | without a match the list is unchanged; with one, the list loses exactly the first matching entry and keeps the others in order |
| DirList.DrainFrom | root_dir_cache.c:193-204 | calling the listing from any cursor yields the remaining names in list order, each once, then reports 0 and resets the cursor to the head |
| DirList.ListingRound | root_dir_cache.c:193-204 | a full round from the head yields every name once and leaves the cursor where a new round starts |
| DirList.BlocksWritten | root_dir_cache.c:56-82 | the number of blocks rdc_to_disk writes: at least one, and exactly enough for 32 entries per block |
| DirCache.EntryOnDevice | root_dir_cache.c:56-82 | on the device after the directory is written to distinct blocks, slot j of the block at addrs[b] holds entry 32b + j, and every slot past the end of the list holds the zero entry |
| DirCache.WriteChunksAt | root_dir_cache.c:70-82 | with distinct in-range addresses, each written block holds its own chunk of the directory and every other block is untouched |
| DirCache.DirRoundTrip | root_dir_cache.c:33-46 | rdc_init after rdc_to_disk reads back exactly the list written, when the root's size is 32 bytes per entry and its blocks are distinct |
| DirCache.RootDirCache.Size | root_dir_cache.c:88-91 | the count rdc_size reports is the number of entries in the list; the Insert and Remove rows state how each changes it |
| DirCache.RootDirCache.Init | root_dir_cache.c:17-50 | the list becomes the root.size / 32 entries read 32 per block from the root's blocks, and the cursor is at the head |
| DirCache.RootDirCache.ToDisk | root_dir_cache.c:52-85 | returns 0 or -1; -1 exactly when one of the first BlocksChecked(n) blocks resolves to -1 (the test sits before the advance to the next block, so the last block of 32j + 1 entries and the one block of an empty list are written untested); on 0 the device holds the directory chunk by chunk in the root's blocks |
| DirCache.RootDirCache.Insert | root_dir_cache.c:94-123 | appends the entry at the tail, raises the count by one and resets the cursor to the head |
| DirCache.RootDirCache.Remove | root_dir_cache.c:125-174 | removes the first matching entry, keeps the rest in order, lowers the count by one, resets the cursor and returns 0; returns -1 with nothing changed, the count included, when no entry matches |
| DirCache.RootDirCache.GetNextFilename | root_dir_cache.c:193-204 | one listing step: 1 and the name at the cursor, which advances; at the end 0 and the cursor back at the head; the list is unchanged |
| Consistency.FileData | sfs_api.c:322-362 | a file holds `size` bytes, and byte j is byte j % 1024 of the block its index j / 1024 resolves to |
| Consistency.Overlay | sfs_api.c:262-320 | the bytes before p are kept, w sits at p, the bytes after it are kept, and the length is the high-water mark |
| Consistency.OverlaySnoc | sfs_api.c:304-311 | storing w one byte at a time from p builds Overlay(data, p, w) |
| Consistency.GrowKeeps | sfs_util.c:107-130 | a grow keeps every file's blocks owned and gives the grown file one block more |
| Consistency.GrowSelfData | sfs_util.c:107-130 | a grow leaves the grown file's bytes and the directory as they were |
| Consistency.WriteByteStep | sfs_api.c:304-311 | storing a byte through the block that holds it makes the file's bytes Put(old, p, x) and keeps its blocks its own |
| Consistency.FlushRoundTrip | sfs_api.c:84 | the inode table read back after it was written is the table written |
| Steps.FlushKeeps | sfs_api.c:187 | writing the inode table keeps the invariant and every file's bytes |
| Steps.FlushedMountable | sfs_api.c:83-90 | a consistent state with its table on the device is mountable, and remounting reads back the same table and directory |
| Steps.GrowStep | sfs_util.c:107-130 | a successful grow keeps the state consistent, adds one block to the file, changes only the bitmap and that file's blocks, and keeps every file's bytes |
| Steps.GrowCommutes | sfs_api.c:279-285 | a grow while a block is pending in the buffer commutes with writing that buffer back |
| Steps.LoadStep | sfs_api.c:301 | reading one of the file's blocks into the buffer changes nothing anyone can observe |
| Steps.StoreStep | sfs_api.c:304-311 | storing byte x at the write pointer keeps the state consistent, makes the file's bytes Put(old, p, x), advances the pointer and changes only that file's block |
| Steps.DirWriteStep | root_dir_cache.c:52-85 | rewriting the directory into blocks the root owns reads back as the new directory and keeps every other file |
| Steps.FreeFileClears | sfs_api.c:389-403 | removal marks every block of the file free, its indirect block included |
| Steps.FreeUndoesClaim | sfs_util.c:48-57 | freeing the address fm_get_next_address_and_allocate returned clears exactly the bit it set and restores the bitmap it found |
| Steps.FreeOwnerOk | sfs_api.c:389-403 | every block another file owns stays marked in use |
| Steps.RemoveStep | sfs_api.c:379-411 | with its blocks freed, its inode invalid and its entry gone, the state is consistent without the file and every other file keeps its bytes |
| Steps.RemoveOutcome | sfs_api.c:379-414 | the whole removal of entry k meets no unresolved block and leaves a consistent, durable state |
| Steps.RemoveKeeps | sfs_api.c:389-403 | removal clears exactly the file's bits and every other file keeps its bytes |
| Steps.FirstInvalid | sfs_api.c:147-154 | the lowest invalid inode, or -1 when all are valid |
| Steps.CreateStep | sfs_api.c:160-187 | claiming the inode, appending its entry, rewriting the directory and counting the entry keeps the state consistent; the new file is empty and no other file changes |
| Steps.CreateOutcome | sfs_api.c:160-187 | the whole create path meets no unresolved block and leaves a consistent, durable state that differs only in unowned or root blocks |
| Steps.CreateKeeps | sfs_api.c:160-187 | creating a file keeps every other file's bytes |
| Steps.OpenFdStep | sfs_api.c:197-200 | the descriptor handed out is valid, on the inode, reading from 0 and writing at the size, and the invariant holds |
| Steps.SeekFdStep | sfs_api.c:235 | moving a pointer to a position inside the file keeps the invariant |
| WriteSteps.WriteBegins | sfs_api.c:273 | before the first byte nothing is written, and the loop state describes the call's starting state |
| WriteSteps.PlaceStep | sfs_api.c:279-285 | the allocation check either stops the loop with nothing changed, exactly when the file is at its end on a boundary and cannot grow, or leaves the block of the write pointer owned by the file |
| WriteSteps.FetchStep | sfs_api.c:287-302 | after the fetch (flush of the previous block at a boundary, then the read) the buffer holds the block of the write pointer and the loop invariant holds |
| WriteSteps.PutStep | sfs_api.c:304-311 | storing buf[i] makes the file read w[..i+1] over its old bytes and keeps the loop invariant |
| WriteSteps.WriteEnds | sfs_api.c:314-318 | the final buffer flush and table write leave a consistent state showing the written bytes and the bitmap the loop saw |
| WriteSteps.ReadsBack | sfs_api.c:262-362 | after a write of r bytes from p, reading r bytes from p gives buf[..r], the bytes before p are the old ones, and the size is max(old size, p + r) |
| Sfs.WriteInodeTable | sfs_api.c:43 | blocks 1..64 receive the cached table, 8 inodes each |
| Sfs.ReadInodeTable | sfs_api.c:84 | the cache becomes the table on blocks 1..64 |
| Sfs.FindFreeInode | sfs_api.c:147-154 | the lowest invalid inode, or -1 |
| Sfs.ListedInode | sfs_api.c:105-110 | a listed name resolves to a valid file inode |
| Sfs.RemovedEntry | sfs_api.c:373-409 | a name is listed exactly when its lookup is not -1, and the entry rdc_remove unlinks is the one whose inode the lookup gave |
| Sfs.ReadOne | sfs_api.c:355 | the byte copied from the buffer is the file's byte at the read pointer |
| Sfs.FreshConsistent | sfs_api.c:16-43 | the freshly formatted device reads back an empty directory and is consistent with no descriptor open and no block owned |
| Sfs.MountedFds | sfs_api.c:83-93 | a consistent device mounted with every descriptor closed gives a consistent state |
| Sfs.FileSystem.Mksfs | sfs_api.c:11-94 | fresh: the superblock {0xABCD0005, 1024, 8258, 64, 0} and a table where only the root inode is valid (size 0, one link), yielding a valid, durable, empty file system; otherwise mounts exactly when the superblock matches, without touching the device; then the table is read back, the cache rebuilt from the root and every descriptor closed |
| Sfs.FileSystem.Format | sfs_api.c:16-44 | block 0 holds the expected superblock, the data area is zeroed, only the root inode is valid and the table is written out |
| Sfs.FileSystem.GetNextFilename | sfs_api.c:97-100 | one listing step on the cache, keeping the invariant |
| Sfs.FileSystem.GetFileSize | sfs_api.c:103-111 | -1 exactly for an unlisted name; otherwise the number of bytes the file holds |
| Sfs.FileSystem.Fopen | sfs_api.c:114-203 | -1 and no change for a name over 28 characters or an open file; a listed name gets the lowest closed descriptor; an unlisted one is created first (root grown only at a block boundary, by the first-fit grow, lowest invalid inode claimed with size 0, one entry appended, root size up by 32, table written) and -1 when the root cannot grow, no inode is free or all descriptors are open |
| Sfs.FileSystem.OpenName | sfs_api.c:127-202 | listed names are opened as they are and unlisted ones are created first |
| Sfs.FileSystem.OpenListed | sfs_api.c:190-202 | a listed name gets the lowest closed descriptor on its inode, reading from 0 and writing at its size |
| Sfs.FileSystem.CreateAndOpen | sfs_api.c:130-202 | the create path followed by the descriptor half on the new empty file |
| Sfs.FileSystem.OpenFd | sfs_api.c:190-202 | -1 when all descriptors are open; otherwise the lowest closed one refers to the inode with rptr 0 and wptr = size, and no other descriptor changes |
| Sfs.FileSystem.CreateFile | sfs_api.c:130-188 | returns the claimed inode or -1 and leaves the state CreateEffect describes: off a block boundary the root's pointers, the bitmap and the owner map are unchanged; at a boundary they are those of the first-fit grow (GrowInode, GrowDisk, GrownOwner); the claimed inode is the lowest invalid one |
| Sfs.FileSystem.GrowRoot | sfs_api.c:134-144 | the root grows exactly when the allocator can grow it, and then as Grown says (first-fit block, indirect block at 12 blocks) with the owner map gaining the new blocks; on failure nothing changes |
| Sfs.FileSystem.AddFile | sfs_api.c:160-187 | from a root with room and a free inode, the create path leaves a valid state as CreateEffect describes |
| Sfs.FileSystem.WriteEntry | sfs_api.c:160-187 | the inode becomes valid with size 0, its entry is appended, the directory is written, the root's size counts the entry and the table is flushed |
| Sfs.FileSystem.Fclose | sfs_api.c:205-218 | 1 when the descriptor is not open, else 0; the descriptor is invalid afterwards and nothing else changes |
| Sfs.FileSystem.Frseek | sfs_api.c:220-237 | 0 and only the read pointer moved when the descriptor is open and 0 <= loc <= size; otherwise -1 and no change |
| Sfs.FileSystem.Fwseek | sfs_api.c:239-257 | the same for the write pointer |
| Sfs.FileSystem.Fwrite | sfs_api.c:262-320 | -1 and no change on a closed descriptor; otherwise a count r <= length; the file holds its old bytes with buf[..r] written from the old write pointer, which advanced by r; the size is the high-water mark; other files are unchanged; r < length only when the file could not grow; the table is on the device |
| Sfs.FileSystem.WriteByte | sfs_api.c:277-312 | one iteration either stops with nothing changed because the file could not grow, or writes one more byte and keeps the loop invariant |
| Sfs.FileSystem.PlaceForWrite | sfs_api.c:279-285 | the allocation check on the loop state: stops with nothing changed, or the block of the write pointer is the file's |
| Sfs.FileSystem.LoadForWrite | sfs_api.c:287-302 | the fetch on the loop state: the buffer then holds the block of the write pointer |
| Sfs.FileSystem.StoreForWrite | sfs_api.c:304-311 | the store on the loop state: one byte more is written |
| Sfs.FileSystem.GrowAtEnd | sfs_api.c:279-285 | grows exactly when the write pointer is the size on a block boundary; then succeeds as the allocator says, otherwise nothing changes |
| Sfs.FileSystem.FetchBlock | sfs_api.c:287-302 | off a boundary after the first byte nothing happens; at the first byte the block of cur_inode_i is read; at a later boundary the buffer is written back, cur_inode_i moves on and the next block is read |
| Sfs.FileSystem.PutByte | sfs_api.c:304-311 | the byte goes in the buffer at wptr % 1024, wptr advances by one and the size grows by one when the byte went at the end |
| Sfs.FileSystem.FinishWrite | sfs_api.c:314-318 | after the buffer and table writes the state is valid and durable and shows the bytes written |
| Sfs.FileSystem.Fread | sfs_api.c:322-362 | -1 on a closed descriptor; otherwise copies min(length, size - rptr) bytes of the file from rptr and advances only rptr by that count |
| Sfs.FileSystem.ReadFrom | sfs_api.c:333-358 | the copying loop returns exactly the file's bytes from p, stopping at length or at the end of the file |
| Sfs.FileSystem.Remove | sfs_api.c:365-415 | 1 and no change for an open or unlisted file; otherwise 0, the file's blocks are freed in the bitmap, its inode is invalid, the first matching entry is removed, the directory is rewritten, the root shrinks by 32 and the state is valid and durable |
| Sfs.FileSystem.RemoveAt | sfs_api.c:379-414 | removal of entry k, which no descriptor has open: the state RemovedInodes and RemovedDisk describe, valid and durable |
| Sfs.FileSystem.DropFile | sfs_api.c:379-412 | frees the blocks, invalidates the inode and rewrites the directory without the entry |
| Sfs.FileSystem.RewriteDirectory | sfs_api.c:408-412 | the entry is unlinked, the listing is written through the root's blocks, the root shrinks by one entry and the table is flushed |
| Sfs.FileSystem.FreeBlocksOf | sfs_api.c:380-403 | the bitmap written back has the file's blocks in use and, past 12 blocks, its indirect block cleared |
| Findings.BlocksInUseOffByOne | sfs_util.c:94 | the as-written count is one too many exactly at positive multiples of 1024 and agrees with the ceiling elsewhere |
| Findings.GrowSkipsSlot | sfs_util.c:94-119 | as written, growing a 1024-byte file fills direct slot 2 while byte 1024 resolves through slot 1 |
| Findings.AllocateConventionInverted | sfs_api.c:283 | as written the callers go on exactly when the allocation failed |
| Findings.RemoveClearsNeighbour | sfs_api.c:392-394 | as written freeing the block of bit i leaves bit i set and clears bit i + 1; corrected, only bit i is cleared |
| Findings.RemoveLeaksBlocks | sfs_api.c:380-402 | as written a removal on a full device leaves it full, since the freed bitmap is never written back |
| Findings.RemoveFreesBlocks | sfs_api.c:389-403 | corrected, removing a non-empty file leaves a bit the allocator can claim |
| Findings.IndirectFreedAtTwelve | sfs_api.c:398-403 | as written a 12-block file frees the block its stale ind_ptr names; corrected, that bit is kept |
| Findings.NegativeSeekAccepted | sfs_api.c:229-233 | as written a negative position passes the seek check; the corrected check refuses it and agrees on every other position |
| Findings.InsertAfterRemoveLost | root_dir_cache.c:152-160 | as written, after removing the last of two entries and inserting a third, the list seen from head lacks the new entry; the sequence model gives both remaining entries |

## Left out

- The block-device emulator (`init_fresh_disk`, `init_disk`, `read_blocks`, `write_blocks`) is not part of this model. The device is an in-memory array of 8258 blocks with whole-block reads and writes, and no file backs it. A read off the device gives a zero block, and a write off it is ignored.
- `printf` diagnostics are left out. `exit(1)` on a bad superblock becomes `Mksfs` returning false.
- `malloc`/`free` of buffers and list nodes are left out. This includes the allocation-failure branch of `rdc_insert`.
- The test driver `temp_test.c` is not part of this model.
- Bit-exact struct layout is abstracted. A block is a datatype with one variant per cast view: inodes, directory entries, pointers, bitmap and bytes. Only the counts per block are kept. The `mode`, `uid` and `gid` fields are not modelled.
- The bitmap is a sequence of 8192 booleans rather than 256 `int`s with shifts.
- The list is a sequence, so it has no `tail` pointer to go stale; the stale pointer `rdc_remove` leaves is recorded under "## Findings" and modelled on its own in `Findings`. The unreset `size` in `rdc_init` disappears too, because the size is the list's length.
- The source does not build as given. `sfs_api.c:139` calls `allocate_blocks_to_inode(root_inode_ptr, 1)`, and no function of that name exists. `sfs_api.c:283` passes a second argument to `allocate_block_to_inode`, which `sfs_util.h:29` declares with one. The model reads both calls as the one-argument `allocate_block_to_inode` of `sfs_util.c:89`, growing the inode by one block.
- C memory-safety artefacts become preconditions or guards:
  - `fileID` must be in 0..99;
  - a 28-character name is accepted as the C length test accepts it, and the overflow of `char[28]` is not modelled;
  - a block index past the indirect table resolves to -1.
- Sfs.FileSystem.Fwrite: when no byte is written (length 0, or the first allocation fails), the C code flushes an uninitialised buffer to an uninitialised address. The model writes no block in that case.
- Sfs.FileSystem.Mksfs: for `mksfs(0)`, validity is claimed only when the device holds a consistent file system (`Steps.Mountable`). An arbitrary image with a correct superblock is mounted without any claim about its contents.
- Sfs.FileSystem.Fopen: when creation fails after the root was grown (no free inode), the grown root is not written to the device. The model keeps this, so `Durable()` is not claimed on that path.
- The allocation order at exactly 12 blocks follows the code: the data block is claimed first, then the indirect block.
- Concurrency: there is none; all state is single-threaded globals.

## Findings

The model uses the corrected behaviour in each case.

| source | as written | input that shows it | evidently intended | confidence | as-written member | corrected member |
|---|---|---|---|---|---|---|
| sfs_api.c:283 | `allocate_block_to_inode` returns 0 on success and -1 on failure, but `sfs_fwrite` and `sfs_fopen` give up on `!result`, that is on success | any write at the end of a file on a block boundary with free space: the loop stops after claiming a block (`Findings.AllocateConventionInverted`) | go on exactly when the allocation succeeded | high (not executed) | Findings.CallerGoesOnAsWritten | WriteSteps.PlaceStep |
| sfs_util.c:94 | blocks in use = `size/1024 + 1` for size > 0 | size 1024: the grower fills direct slot 2, and byte 1024 then resolves through the unset slot 1 (`Findings.GrowSkipsSlot`) | ceil(size / 1024), as `sfs_remove` computes it | high (not executed) | Findings.BlocksInUseAsWritten | Util.BlocksInUseCovers |
| sfs_api.c:393 | bit freed = `addr - 1 - 64` | a file whose block is bit i: bit i stays set and bit i + 1 is cleared (`Findings.RemoveClearsNeighbour`) | bit = addr - 66, the inverse of the allocator's mapping | high (not executed) | Findings.ClearBitAsWritten | Steps.FreeOwnerOk |
| sfs_api.c:380-402 | the freed bitmap is a local copy that is never written back | removing any file from a full device leaves no free block (`Findings.RemoveLeaksBlocks`) | write the bitmap back | high (not executed) | Findings.RemovedBitmapAsWritten | Findings.RemoveFreesBlocks |
| sfs_api.c:398 | the indirect block is freed when `blocks_to_free >= 12` | a 12-block file whose ind_ptr is left over from an earlier file of that inode frees another file's block (`Findings.IndirectFreedAtTwelve`) | free it only past 12 blocks; a defect only together with the sfs_util.c:94 row, since the code's own count size/1024 + 1 claims an indirect block for every file it counts at 12 blocks | low (not executed) | Findings.FreeFileAsWritten | Steps.FreeFileClears |
| sfs_api.c:229 | seeks refuse only `loc > size` | loc = -1 is accepted, and `sfs_fread` then indexes `block_buf[-1]` (`Findings.NegativeSeekAccepted`) | refuse loc < 0 as well | medium (not executed) | Findings.SeekGuardAsWritten | Sfs.FileSystem.Frseek |
| root_dir_cache.c:152-160 | removing the last of several nodes leaves `tail` pointing at the freed node | create "a" and "b", remove "b", create "c": `rdc_insert` links "c" after the freed node, so "c" is neither listed nor written to the directory although its inode is claimed (`Findings.InsertAfterRemoveLost`) | set `tail` to the predecessor when the last node goes | high (not executed) | Findings.UnlinkAsWritten | DirCache.RootDirCache.Insert |
