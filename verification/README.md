# SBFS: a verified model

SBFS is a small Unix-style file system in four layers. This project models the four
layers in Dafny and proves that each behaves as the simple object it stands for:

1. **Block device.** A write-back cache with an intrusive LRU list, a free list, a hash
   table and dirty bits (`LruList`, `Recency`, `CacheModel`, `BlockDevice`). It behaves
   as a flat array of blocks in every run, whatever is evicted (`Runs.Serve`).
2. **Files.** A bitmap of 64-bit words (`Bits`, `Bitmap`), an inode with 23 direct
   pointers, a single- and a double-indirect block (`Tree`, `InodeCodec`, `Growth`,
   `Shrinkage`, `FileSize`, `FileBytes`, `DiskInode`, `InodeFile`). A file behaves as an
   array of bytes; growing and shrinking take and give back exactly the right ids; any
   number of files leave each other alone (`Volume`), and every run of reads, writes and
   resizes of them is answered as arrays of bytes answer it (`FileRuns.Serve`).
3. **Directories.** Packed arrays of 256-byte entries, searched through a reused buffer,
   with deletion by swap-with-last (`DirEntries`, `DirScan`, `FileTable`). They behave as
   finite maps from names to inodes, as byte strings and as files on the device
   (`DirOnDisk`); and create, link, unlink and remove as a whole, with two inodes and both
   bitmaps, change the device as they change a table of files (`DiskTable`).
4. **Paths.** Resolution through a prefix cache with a clock hand (`Paths`, `PathCache`,
   `PathResolver`), and the entry points create, mkdir, unlink, rmdir and rename
   (`Namespace`, `Moves`, `Steps`, `Vfs`). Every operation is described by what it does
   to all paths at once, and the cache agrees with the name space after each of them.

`Layout` is the arithmetic of the regions of the disk.

The constants are those of the program: 4096-byte blocks, 23 direct pointers, 1024 words
in an index block, 32 inodes in a block, 251-byte names. Where the program updates state
in place the model is a class with the same fields (`LRUCacheManager`, `BlockDevice`,
`DiskInode`, `FileTable`, `Clock`, `PathResolver`, `Vfs`); each method is proved against
value functions and predicates, about which the lemmas are stated. `DiskInode` works
directly on `BlockDevice` and `Bitmap`, so its theorems hold with the cache in between.
Integers are unbounded; 32-bit and 64-bit arithmetic is written out where it can wrap.

The definitions that a theorem is stated with are tied to plain numbers, bytes and paths: by the
contract of the member itself, or by a lemma with a name in `Means`, `Is` or `At` that says
the same without them (`InodeCodec.InodeAt`, `BitmapModel.UsedByte`, `DirEntries.EntryBytes`,
`InodeFile.IdWalk`, `FileRuns.AnsweredMeans`, `DiskTable.HoldsMeans`, ...).

Parameters that stand for what the table of files does not contain: `room`, `roomParent`
and `roomNew` (a directory can grow), `id` (what the inode bitmap gives), `atEnd` (what
happens when a directory of whole blocks is read at its very end, which the code allows
but the file contents do not determine). The theorems hold for all their values, and
`DiskTable` says what they are on a device.

## Where the code departs from its intent

The model keeps the code's own behaviour; a flag selects the intended one where the code
is plainly mistaken. The members named say exactly when a departure shows; the three at
the end are described only as far as is said there.

- `src/disk_inode.cpp:361` and `:391` write a trimmed index buffer to device block `i`
  and not to `p[i]` (`repaired` false). The file itself is not harmed, since the entries
  past its end are not read; the block that is hit is named in every contract (`Stray`,
  `StrayOf`), and `Volume.SuperBlockKept` says when it is the super block. If it is the
  block of the file's own inode, that inode is repaired when it is written, and the words of
  its 31 neighbours become block numbers as far as the buffer has any
  (`InodeFile.Inode.Resize`, `Inodes.OverwrittenBy`).
- `src/disk_inode.cpp:76` and `:80` use `<`, so the total count is one too large at
  exactly 23 and 1047 data blocks (`FileSize.TotalBlocksExact`). Since directory scans
  use it as their bound, a lookup that misses runs past the end from 23 data blocks on,
  and `link` of a new name fails (`DirScan.Scan`, `Files.FileTable.Link`). `rename` then
  loses the file, and an exchange one or both of its files (`Vfs.Vfs.Rename`).
- `src/lru_cache.cpp:191-192` clears a victim's links before it is unlinked. Contents
  are right all the same; the list stays a list exactly when the victim was alone
  (`LruList.EvictedClearFirst`). With the two lines exchanged (`unlinkFirst`) the list
  is in order of use for ever.
- `src/blk_dev.cpp:41` enters a block that was only read as dirty (`Device.BlockDevice.Read`).
- `src/disk_inode.cpp:521` and `:580` add in 32 bits (`FileBytes.TruncatedExact`), and
  `:522` and `:583` go on in `int`: from 2 GiB on nothing is read or written, and of a
  range that ends there only the part in its first block (`FileBytes.MovedBytes`,
  `Inodes.DiskInode.ReadData`, `Inodes.DiskInode.WriteData`). At the very end of a file of
  whole blocks they ask for a block that is not there; nothing changes.
- `src/inode.cpp:43-44` returns before the inode is written when a write fails; a file that
  had grown for it has its old size, and the new ids belong to no file from then on
  (`InodeFile.Inode.WriteData`).
- `src/inode.cpp:229` never asks for index blocks: fsync leaves each of them on disk or not
  on disk as it was, so that only a file of at most 23 blocks is durable as a whole
  (`InodeFile.Inode.Sync`).
- `src/inode.cpp:49-74` does not look a name up before it creates it: the directory is in
  order afterwards exactly if what it keeps of the name was new, and otherwise no path
  leads to the new inode (`Vfs.Vfs.Create`, `Vfs.Vfs.Mkdir`).
- `src/vfs.cpp:91-95` and `:211-214` do not look at the result of creating: the status is
  success whenever the directory of the path is found, be it a directory or not, and
  whether or not there is room; the inode number taken stays in use (`Vfs.Vfs.Create`,
  `Vfs.Vfs.Mkdir`, `DiskTable.Create`).
- `src/inode.cpp:139-140`: removing an inode that has further links changes nothing.
- `src/inode.cpp:167-174`, `src/vfs.cpp:272`: a name that rename replaces leaves its
  inode in use without a path (`Moves.ReplacedUnreachable`).
- `src/vfs.cpp:257-272`: names are unlinked before it is known whether they can be linked
  again. With NOREPLACE onto an existing name the file loses its only path
  (`Vfs.Vfs.Rename`, `Moves.GoneUnreachable`).
- `src/inode.cpp:182` appends a name of more than 251 bytes cut to 251
  (`include/fs_layout.h:200-204`), after a search for the whole of it that found nothing. If the part kept is there already, it is there twice
  (`Files.FileTable.Link`, `Vfs.Vfs.Rename`).
- `src/path_resolver.cpp:55` wraps around in 64 bits below the size limit, so each entry
  made there empties the cache first (`PathCache.Clock.Remember`);
  `src/path_resolver.cpp:129` stores what was evicted as the size of the cache.
- `src/path_resolver.cpp:107` may erase the entry the clock hand is on; the model moves
  the hand to the next entry, as the C++ program would have to.
- `src/sbfs.cpp:18` does not count the super block (`Layout.RegionsFit`), and inode ids
  start at the inode area, so that the last ones are kept in the data bitmap
  (`Layout.InodePlace`, `Layout.LastInodeInBitmap`).
- `src/inode.cpp:40` ignores the result of resizing. A write that does not find its ids
  goes on through pointers that are not the file's; it is not described.
- A length of 2 GiB or more below 2 GiB whose end wraps around in 32 bits to less than the
  size is not cut, and the code can come to copy a negative number of bytes; such a read or
  write is not described (`Inodes.Addressable`).
- A directory of 2 GiB or more could not be read to its end; it is not described.

## Model

| member | source | states |
|---|---|---|
| Blocks.SetWordGet | src/disk_inode.cpp:124-133 | a word stored in a block is the word read, and the other 1023 words are as before |
| Blocks.SetLongBack | src/bitmap.cpp:37-46 | storing back a 64-bit word that was there restores every byte |
| Blocks.BytesOfWord | src/disk_inode.cpp:124-133 | a word of a block is stored with its low byte first |
| LruList.UnlinkedChain | include/lru_cache.h:67-84 | unlinking a listed slot leaves a doubly linked acyclic list of the others, in order |
| LruList.PushedChain | include/lru_cache.h:54-66 | pushing an unlisted slot leaves such a list with the slot at the head |
| LruList.FreeTakenChain | src/lru_cache.cpp:173-180 | a slot from the free list becomes the head of the list, and the free list is its tail |
| LruList.EvictedUnlinkFirst | src/lru_cache.cpp:181-195 | with the victim unlinked before it is cleared, eviction moves it from tail to head and keeps a list |
| LruList.EvictedClearFirst | src/lru_cache.cpp:190-193 | in the order of the code the links form a list afterwards if and only if the victim was the only slot |
| Recency.RecentOrder | include/lru_cache.h:54-84 | the ids by recency hold each used id once, in decreasing order of last use |
| Recency.RecentHit | include/lru_cache.h:54-84 | a further use of the k-th id moves it to the front and nothing else |
| Recency.RecentMiss | include/lru_cache.h:54-84 | a use of an id outside the first m puts it before them |
| CacheModel.TouchedInv | src/lru_cache.cpp:54-57 | a hit keeps the cache invariant: view, dirty bits, partition of the slots, order of use |
| CacheModel.TakenFreeInv | src/lru_cache.cpp:173-180 | so does taking a free slot |
| CacheModel.EvictedLastInv | src/lru_cache.cpp:181-195 | so does an eviction, and the disk only comes nearer to the view |
| CacheModel.VictimIsLeastRecent | src/lru_cache.cpp:181-183 | while the links are in order, every other block held was used after the victim |
| CacheModel.FilledInv | src/lru_cache.cpp:133-139 | loading a block into the slot that was found restores the full invariant |
| CacheModel.UpdatedInv | src/lru_cache.cpp:38-42 | an update changes what the client sees of this block and of no other |
| CacheModel.WrittenBackInv | src/lru_cache.cpp:91-93 | a slot may be marked clean once its contents, which are the client's, are on disk |
| Device.LRUCacheManager.constructor | src/lru_cache.cpp:7-26 | the new cache shows the disk and all its slots are free |
| Device.LRUCacheManager.LRUAdd | include/lru_cache.h:54-66 | the links become those of the pushed list |
| Device.LRUCacheManager.LRURemove | include/lru_cache.h:67-84 | the links become those of the unlinked list |
| Device.LRUCacheManager.Get | src/lru_cache.cpp:49-63 | found if and only if held; then the client's contents, counted as a use |
| Device.LRUCacheManager.Alloc | src/lru_cache.cpp:172-199 | a slot without block is found, the first free one if there is one; the view stays; only an eviction takes a block out, that of the list's tail, and writes it to disk if and only if it is dirty |
| Device.LRUCacheManager.GetPage | src/lru_cache.cpp:130-147 | the block is held afterwards, and no client sees a change |
| Device.LRUCacheManager.Upsert | src/lru_cache.cpp:30-47 | the view changes at this block only; the disk only towards the view |
| Device.LRUCacheManager.Sync | src/lru_cache.cpp:82-100 | succeeds if and only if the block is held; then it is on disk and nothing else changed there |
| Device.LRUCacheManager.SyncAll | src/lru_cache.cpp:117-128 | afterwards the disk equals the view everywhere |
| Device.BlockDevice.Read | src/blk_dev.cpp:31-44 | the last contents written, or the initial ones; no block changes for any client; a hit leaves table and disk as they are, a miss enters the block as dirty |
| Device.BlockDevice.TryRead | src/blk_dev.cpp:31-44 | the same for any number: beyond the disk the read fails and nothing changes |
| Device.BlockDevice.Write | src/blk_dev.cpp:46-56 | exactly this block changes |
| Device.BlockDevice.Sync | src/blk_dev.cpp:92-96 | succeeds if and only if the block is cached; then this block of the disk is the client's and no other changes |
| Device.BlockDevice.SyncAll | src/blk_dev.cpp:98-100 | all that was written is on disk |
| Runs.Serve | src/blk_dev.cpp:31-100 | any sequence of reads, writes and syncs is answered as a flat array answers it, and leaves the view of the flat array |
| Runs.FlatLast | src/blk_dev.cpp:31-56 | the flat array holds of each block what the last write of the run put there, or what was there at first |
| Runs.FlatReply | src/blk_dev.cpp:31-56 | each read of the run is answered from the array that the requests before it left, and nothing else is answered with a block |
| Bits.LeadingZeroSpec | src/bitmap.cpp:12-22 | the least clear bit; -1 if and only if all 64 bits are set |
| Bits.SetThenClear | src/bitmap.cpp:45-72 | clearing a bit that was just set restores the word |
| BitmapModel.MarkedUsed | src/bitmap.cpp:44-51 | the bit written stands for this id and no other, and nothing outside the bitmap changes |
| BitmapModel.UnmarkedUsed | src/bitmap.cpp:59-78 | freeing takes exactly this id out of the set |
| BitmapModel.MarkUnmark | src/bitmap.cpp:29-78 | alloc followed by free restores every byte of the device |
| BitmapModel.WordSays | src/bitmap.cpp:39-52 | block, word and bit number are a bijection onto the ids, and the first clear bit is the least free id among them |
| BitmapModel.LongBit | src/bitmap.cpp:37-46 | bit k of a 64-bit word of the bitmap is bit k % 8 of its byte k / 8 |
| BitmapModel.UsedByte | src/bitmap.cpp:39-72 | an id is in use if and only if its bit is set, counted in bits from the start of the bitmap, low bit of each byte first |
| BitmapModel.PowersOfTwo | src/bitmap.cpp:45-45 | the values of the eight bits of a byte |
| Bitmaps.Alloc | src/bitmap.cpp:29-57 | the least free id, and only it is marked; failure if and only if all are in use |
| Bitmaps.Free | src/bitmap.cpp:59-78 | the device differs in this one bit |
| Tree.RepChild | src/disk_inode.cpp:165-199 | a fresh id stored in a free index entry extends the tree by that position and no other |
| Tree.RepRoot | src/disk_inode.cpp:101-118 | the same for a pointer stored in the inode |
| Tree.RepFrame | src/disk_inode.cpp:30-66 | the tree depends on its index blocks only |
| Tree.RepId | src/disk_inode.cpp:25-67 | the walk of block_id ends at the block that the tree has at this position |
| Tree.RepTree | src/disk_inode.cpp:25-67 | an inode and a device describe one tree only |
| InodeCodec.DecodeEncode | include/fs_layout.h:98-116 | an inode comes back from its 32 words |
| InodeCodec.PutInodeGet | src/inode.cpp:11-24 | an inode written is the inode read; the 31 others in the block are as before |
| InodeCodec.InodeAt | include/fs_layout.h:98-116 | where each field of an inode is in its 128 bytes |
| Growth.GrowthDone | src/disk_inode.cpp:93-203 | a finished grow leaves a well-formed tree, keeps every old position, took exactly the ids of the new ones, none used before, and shows that they sufficed |
| Growth.GrowthStopped | src/disk_inode.cpp:103-106 | a grow stops half way only if the ids do not suffice |
| Growth.NodesAre | src/disk_inode.cpp:73-90 | which blocks a file of n data blocks consists of, and how many |
| Growth.FileFrame | src/disk_inode.cpp:93-203 | a file is not touched by writes outside the bitmap and its own index blocks |
| Growth.IndexRoots | src/disk_inode.cpp:227-261 | indirect1 and indirect2 are non-zero exactly when the tree has these blocks |
| FileSize.TotalBlocksExact | src/disk_inode.cpp:73-90 | total_blocks is the number of blocks if and only if the data blocks are not exactly 23 or 1047; there it is one more |
| FileSize.DataBlocksIs | src/disk_inode.cpp:69-71 | a file has as many data blocks as its bytes take and no more |
| FileSize.TotalBlocksOrder | src/disk_inode.cpp:430-440 | comparing total counts is comparing data counts, so resize takes the right branch |
| FileSize.SizeFits | src/disk_inode.cpp:21-29 | no 32-bit size needs a position beyond the tree |
| FileSize.RestIsSeconds | src/disk_inode.cpp:663-670 | the loop bound of sync_data is the number of second-level blocks |
| Shrinkage.ShrinkDone | src/disk_inode.cpp:405-415 | once the ids collected are freed, the file has its new size, and exactly the blocks that go are free |
| Shrinkage.OrderMeans | src/disk_inode.cpp:405-414 | until the inode is written no bitmap block differs, and from then on no block of the tree that stays is free at any moment |
| Shrinkage.UnderSecond | src/disk_inode.cpp:328-386 | the buffer of a second-level block lists exactly the data blocks under it that go, and those that stay are still in it |
| Shrinkage.TrimBlock | src/disk_inode.cpp:351-394 | the trimmed buffer keeps the entries that stay, written to its own block or not |
| Inodes.Collect | src/disk_inode.cpp:287-305 | the ids of a range of entries are collected, each once, and overwritten with -1; the other entries stay |
| Inodes.FreeAll | src/disk_inode.cpp:408-414 | exactly the ids listed become free, and every id to be kept stays in use at every step |
| Inodes.DiskInode.WriteInode | src/inode.cpp:18-24 | the inode's block differs in this inode only |
| Inodes.DiskInode.Increase | src/disk_inode.cpp:93-203 | succeeds if and only if the ids suffice; the old map is kept, the new one injective, index and data blocks distinct, and the bits set are those of the new blocks; failure leaves the old tree readable |
| Inodes.DiskInode.IncreaseSingle | src/disk_inode.cpp:110-139 | the step from 23 to 1047 data blocks, with its pointers in a buffer written at the end |
| Inodes.DiskInode.IncreaseDouble | src/disk_inode.cpp:142-201 | the step beyond 1047; one second-level block is allocated for every 1024 |
| Inodes.DiskInode.Decrease | src/disk_inode.cpp:205-416 | frees exactly the blocks that go, once each, keeps every other position; the inode is written before any bit is cleared, and from then on all blocks of the new tree stay allocated |
| Inodes.DiskInode.DecreaseSingle | src/disk_inode.cpp:226-258 | the step under indirect1, at all its boundaries |
| Inodes.DiskInode.DropDouble | src/disk_inode.cpp:272-320 | the step under indirect2 when it goes |
| Inodes.DiskInode.CutDouble | src/disk_inode.cpp:321-400 | the step under indirect2 when it stays; what the stray write leaves in its block |
| Inodes.DiskInode.Shorten | src/disk_inode.cpp:214-404 | up to here no bit of the bitmap changes, and the third branch is not reached |
| Inodes.DiskInode.Resize | src/disk_inode.cpp:418-441 | grows, shrinks or only writes the inode, as the size demands; the file is in order afterwards, and what the block of the inode is then, also if the stray write hits it |
| Inodes.OverwrittenBy | src/disk_inode.cpp:361-408 | an inode written to a block that the stray write has hit is read back, and the words of its neighbours are numbers of data blocks |
| Inodes.DiskInode.BlockId | src/disk_inode.cpp:25-67 | the block of the tree at this position, through the direct pointer, indirect1 or indirect2 that it takes; kFail beyond the largest one; for any number |
| Inodes.GrowthFitsIs | src/disk_inode.cpp:93-203 | a file can take a size if and only if it needs no more blocks, or the ids free are as many as the blocks lacking |
| Inodes.StrayIs | src/disk_inode.cpp:361-391 | which device block a shrink of the code overwrites by mistake, in numbers |
| Inodes.DiskInode.ReadData | src/disk_inode.cpp:513-570 | for every offset: below 2 GiB what there is of the range is returned and counted, at the end of the file 0 (or an error, if the file is whole blocks); of a range that ends beyond 2 GiB the first block, from there on nothing; what is returned in each case |
| Inodes.DiskInode.WriteData | src/disk_inode.cpp:572-645 | for every offset: the same bytes of the contents are replaced and no other, and the same is returned; nothing but data blocks of the file changes |
| Inodes.DiskInode.SyncData | src/disk_inode.cpp:647-683 | success leaves all data blocks, and with indirect all index blocks, on disk, despite loads and evictions on the way; it succeeds if all of them are cached |
| FileBytes.TruncatedExact | src/disk_inode.cpp:521-521 | the length is cut at the end of the file if and only if offset + len does not wrap, or wraps to no less than the size |
| FileBytes.TruncatedWraps | src/disk_inode.cpp:521-521 | a read of 32 bytes 10 bytes before the end that is not cut |
| FileBytes.ReturnsMeans | src/disk_inode.cpp:516-569 | how many bytes are moved and what is returned, in numbers, for every offset and length |
| FileBytes.BlockSlice | src/disk_inode.cpp:528-567 | part of a block is that part of the contents |
| FileBytes.WritingStep | src/disk_inode.cpp:591-643 | after each block exactly the bytes up to here come from the buffer |
| InodeFile.ByteIn | src/disk_inode.cpp:527-535 | byte k of a file is byte k % 4096 of its data block k / 4096 |
| InodeFile.IdWalk | src/disk_inode.cpp:25-67 | data block i is that of direct[i], or of entry i - 23 of indirect1, or of the entry under indirect2 that i - 1047 selects |
| InodeFile.GrowContents | src/disk_inode.cpp:93-203 | growing leaves the bytes of the file where they were |
| InodeFile.ShrinkContents | src/disk_inode.cpp:205-416 | so does shrinking, as far as the file goes |
| InodeFile.FailedOld | src/disk_inode.cpp:103-106 | after a grow that failed the old inode still describes the old file, byte for byte |
| InodeFile.GrownOld | src/inode.cpp:36-47 | so does one that succeeded, until the new inode is written |
| InodeFile.WrittenOld | src/inode.cpp:36-47 | what is written to the grown file is written to the one that the old inode describes, as far as that goes |
| InodeFile.UsedCount | src/disk_inode.cpp:418-441 | the number of ids in use changes by exactly the number of blocks, index blocks included, that the file gains or loses |
| InodeFile.ReadBelow | src/inode.cpp:26-34 | below 2 GiB a read returns what there is of the range and counts it; behind the end it fails, and at the end of whole blocks it may |
| InodeFile.WriteBelow | src/inode.cpp:36-47 | below 2 GiB a write is complete: the length is returned, the bytes are in place, the size is as large as that takes |
| InodeFile.WriteEnds | src/inode.cpp:36-47 | a write of nothing may lengthen the file; from 2 GiB on nothing is written and the size stays |
| InodeFile.GrowSpares | src/disk_inode.cpp:93-203 | a grow takes no id in use, changes no block of another file and nothing below the bitmap |
| InodeFile.ShrinkSpares | src/disk_inode.cpp:205-416 | a shrink frees no id of another file and changes none of its blocks; below the bitmap only the inode's block and the stray one |
| InodeFile.FailSpares | src/disk_inode.cpp:103-106 | a grow that failed spares all other files too |
| InodeFile.WriteSpares | src/disk_inode.cpp:572-645 | a write changes data blocks of its own file only |
| InodeFile.Inode.StoreFile | src/inode.cpp:18-24 | writing an inode stores the file that it describes and no other inode |
| InodeFile.Inode.StoredMeans | src/inode.cpp:11-16 | the file of an inode is what the bytes of its slot describe |
| InodeFile.Inode.ReadData | src/inode.cpp:26-34 | the bytes of the file on the device and their number, at every offset, its end included; the file, its neighbours and all other files stay |
| InodeFile.Inode.WriteData | src/inode.cpp:36-47 | the file is as long as the write takes, has the bytes written, and keeps the others; if the write fails it has its old size and the ids taken are lost; the number of ids in use is exact; other files and inodes are spared |
| InodeFile.Inode.Resize | src/inode.cpp:96-108 | only files, and if and only if the ids suffice; bytes are kept up to the smaller size, the ids in use are the earlier ones with the old tree replaced by the new; other files are spared; failure changes nothing of the file; a stray write into the block of the inode costs the inodes beside it |
| InodeFile.Inode.Sync | src/inode.cpp:226-234 | success leaves the data blocks, and with metadata the inode, on disk, and of a file of at most 23 blocks all; if all are cached it succeeds and no other block of the disk changes, so that an index block is there if and only if it was before |
| InodeFile.Inode.WriteThenRead | src/inode.cpp:26-47 | what a write replaced is read back, into any buffer, at every offset; below 2 GiB that is all of it |
| Volume.FileSpared | src/disk_inode.cpp:418-441 | a file whose blocks a change of another file spares has the same block map and bytes, and its blocks are still no other file's |
| Volume.Neighbour | src/inode.cpp:36-47 | an operation on one file keeps inode, block map and bytes of any other, also of one in the same inode block |
| Volume.ApartAfter | src/inode.cpp:36-108 | any number of files with disjoint trees stay disjoint, in order and allocated when one is written or resized, and the others keep every byte |
| Volume.ResizeFiles | src/inode.cpp:96-108 | any run of resizes on any number of files keeps all of them in order and disjoint; each succeeds if and only if it is of a plain file and the ids suffice at its turn, keeps the bytes of its file and all of every other; a stray write counts where a file may shrink |
| Volume.OneChangeMeans | src/inode.cpp:96-108 | what one resize of a run does to the sizes and bytes of all the files |
| Volume.ApartMeans | src/inode.cpp:96-108 | files apart are in different places and have no block in common |
| Volume.GrowThenShrink | src/disk_inode.cpp:418-441 | growing and cutting back restores the set of ids in use and the block map |
| FileRuns.ServeOne | src/inode.cpp:26-108 | a read, write or resize of one of many files changes its array of bytes as it should and no other |
| FileRuns.AnsweredMeans | src/inode.cpp:26-108 | what each reply of a run is, in bytes, and what the arrays are after it |
| FileRuns.NeedIs | src/inode.cpp:26-108 | how many ids a request may take: all the blocks of a file of the size asked for |
| FileRuns.Serve | src/inode.cpp:26-108 | any run of reads, writes and resizes of any number of files is answered as arrays of bytes answer it, if the ids suffice for all that is asked, and the files hold in the end what those arrays hold |
| Volume.FreshFile | src/disk_inode.cpp:8-19 | a new inode is a file in order with no blocks |
| Volume.MetadataSpared | src/disk_inode.cpp:418-441 | super block, inode bitmap and inodes stay, but for the inode given and the stray block |
| Volume.SuperBlockKept | src/disk_inode.cpp:361-391 | after a shrink of the code the magic number is there if and only if the new size is at most 1047 or more than 2071 data blocks |
| DirEntries.PackUnpack | include/fs_layout.h:200-204 | an entry reads back with its inode and the first 251 bytes of its name; with its own name if and only if that fits |
| DirEntries.EntryBytes | include/fs_layout.h:193-209 | entry k of a directory from its 256 bytes: the name up to the first zero byte, the inode in the last four, low byte first |
| DirEntries.SwapOutBindings | src/inode.cpp:200-211 | swap-with-last deletes exactly this binding and keeps names unique |
| DirEntries.AppendBindings | src/inode.cpp:61-63 | an entry at the end adds its binding if and only if the name is new, and otherwise the older one is found |
| DirEntries.RebindBindings | src/inode.cpp:171-174 | redirecting an entry in place rebinds its name and nothing else |
| DirScan.ReadSlot | src/inode.cpp:83-87 | after a partial read a slot holds an entry of the block or what was in the buffer |
| DirScan.Scan | src/inode.cpp:82-94 | the entry of the name is found if and only if there is one, stale slots never count; a search in vain ends in a miss, and not in failure, if and only if there are less than 23 data blocks or less than 1047 whole ones whose end can be read |
| DirScan.SearchesIs | src/inode.cpp:81-94 | up to which size, in bytes, the search for a name that is not there comes to an end |
| Files.CutEntryIs | src/inode.cpp:127-135 | the bytes after a deletion are a directory without this binding, in every slot |
| Files.AppendIs | src/inode.cpp:58-63 | the bytes after an append are a directory if and only if the first 251 bytes of the name were no name of it, and then they are bound |
| Files.SetEntryIs | src/inode.cpp:170-174 | the bytes after a redirection are a directory with this binding |
| Files.DotNames | src/inode.cpp:64-70 | a new directory has two entries, "." bound to itself and ".." bound to its parent, in this order |
| Files.NamesAt | src/inode.cpp:82-94 | a directory binds a name to an inode if and only if one of its entries says so |
| Files.FileTable.Find | src/inode.cpp:76-94 | the inode of the name, if the directory has it |
| Files.FileTable.Create | src/inode.cpp:49-74 | succeeds if and only if it is a directory that can grow and, for a directory, the new one can; then it binds the first 251 bytes of the name, unless they are bound, and the inode is of the type asked for, a directory with "." and ".."; the inode number is taken in any case |
| Files.FileTable.Remove | src/inode.cpp:110-146 | deletes the binding and releases the inode with the last link; changes nothing otherwise |
| Files.FileTable.Link | src/inode.cpp:148-186 | succeeds if and only if the name is there and may be replaced, or the search for it ends and there is room; binds the first 251 bytes of the name and raises the link count by one; what is left if not, and what a name that is there already becomes |
| Files.FileTable.Unlink | src/inode.cpp:188-224 | deletes the one binding, lowers the link count, touches no other file |
| Files.CreateMeans | src/inode.cpp:49-74 | what create leaves of a table of files, in names, types, link counts and entries, whether or not it succeeds |
| Files.LinkMeans | src/inode.cpp:148-186 | the same for link |
| Files.UnlinkMeans | src/inode.cpp:188-224 | the same for unlink |
| Files.RemoveMeans | src/inode.cpp:110-146 | the same for remove |
| DirOnDisk.ScanOnDisk | src/inode.cpp:82-94 | the search on the device, through inode, tree and cache, finds the entry if and only if the directory has the name, and ends in a miss exactly when the search of the bytes does |
| DirOnDisk.Find | src/inode.cpp:76-94 | the inode of the name as the directory's bytes on the device bind it |
| DirOnDisk.CutName | src/inode.cpp:189-215 | on the device too, deletion takes exactly this binding out; the bytes of every other file stay |
| DirOnDisk.MoveEntry | src/inode.cpp:202-208 | the last entry is where the deleted one was, in every block and slot |
| DirOnDisk.AddBytes | src/inode.cpp:58-63 | bytes are added in the copy of the inode if and only if there are ids, as many more are in use as blocks are new, and the inode on the device still describes the file without them |
| DirOnDisk.AppendName | src/inode.cpp:179-185 | an append succeeds if and only if there are ids for the grow; it adds exactly this binding if what is kept of the name is new, and otherwise a second entry; no other file changes |
| DirOnDisk.RebindName | src/inode.cpp:163-175 | a replace rebinds exactly this name |
| DirOnDisk.NamesOnIs | src/inode.cpp:76-94 | a directory on the device binds a name if and only if an entry in the bytes of its file does |
| DirOnDisk.RenamesMeans | src/inode.cpp:110-224 | after a change of names the directory is in order on the device and has these names |
| DirOnDisk.OthersStay | src/inode.cpp:110-224 | a change of a directory leaves inode, block map and bytes of every other file, and its own type and link count |
| DirOnDisk.EntryFitsIs | src/inode.cpp:60-60 | an entry fits if and only if the last block is not full, or the ids free suffice for one block more and its index blocks |
| DiskTable.FilePlace | src/sbfs.cpp:108-113 | the inode of an id is where the code looks for it, in the inode area, and apart from any other |
| DiskTable.HoldsMeans | src/sbfs.cpp:108-117 | what a device that holds a table has of each file: its inode in slot id % 32 of block id / 32 of the inode area, with type and link count, and its bytes in blocks of its own |
| DiskTable.NewDevice | src/sbfs.cpp:10-36 | a device of zeros is one on which nothing is in use, in every layout of create that fits |
| DiskTable.RoomIs | src/inode.cpp:60-67 | when create has room for an entry, and for the block of a new directory after it |
| DiskTable.Others | src/inode.cpp:49-224 | a change of blocks that are no file's leaves the whole table of files |
| DiskTable.FileChanged | src/inode.cpp:49-224 | a change of one file changes its record in the table and keeps inode, map and bytes of all others |
| DiskTable.CountLink | src/inode.cpp:154-159 | one link count goes up or down on the device, and no id in use changes |
| DiskTable.TakeEntry | src/inode.cpp:200-211 | the directory on the device loses exactly this entry |
| DiskTable.FreeInode | src/inode.cpp:136-136 | the inode number is free, and the blocks of its file are no other file's |
| DiskTable.ReleaseBlocks | src/inode.cpp:137-138 | the blocks of a file that is gone are given back and no other file notices |
| DiskTable.AllocInode | src/inode.cpp:55-57 | the least free inode number, whose inode is in the inode area if there is such a number |
| DiskTable.GrowDir | src/inode.cpp:58-63 | the directory has its new entry in a copy of its inode, while the device still shows the table without it |
| DiskTable.FillNew | src/inode.cpp:64-71 | the new directory has its block in the same way, which is no other file's and not the parent's |
| DiskTable.Create | src/inode.cpp:49-74 | create on the device refines create on the table, with what `roomParent` and `roomNew` are: the least free inode number, the name cut at 251 bytes, the type, and "." and ".." in a directory; failure at any step leaves the table as it was but for the inode number |
| DiskTable.Link | src/inode.cpp:148-186 | link on the device refines link on the table: search, count, entry, in the order of the code |
| DiskTable.Unlink | src/inode.cpp:188-224 | unlink on the device refines unlink on the table |
| DiskTable.Remove | src/inode.cpp:110-146 | remove on the device refines remove on the table: entry, inode number and blocks go together, or nothing does |
| DiskTable.CreateRoot | src/sbfs.cpp:72-95 | the device of a new file system shows the table that holds the root alone, with an entry "." and an entry "..", both the root |
| Paths.Split | src/path_resolver.cpp:143-152 | the components, or the prefixes that end with them: equal length, and prefix i is the join of components 0..i |
| Paths.PrefixSteps | src/path_resolver.cpp:143-152 | without recursion: no component has a slash, each prefix is the one before, a slash and a component more, and the last is the string |
| Paths.PartsJoin | src/path_resolver.cpp:143-152 | joined components split into themselves |
| Paths.SplitsOnce | src/path_resolver.cpp:143-152 | a string has one list of components |
| Paths.JoinPrefix | src/path_resolver.cpp:143-152 | a prefix in components is a prefix in characters |
| PathCache.PrefixNotLess | src/path_resolver.cpp:103-105 | no key with the prefix is before the lower bound of the prefix |
| PathCache.LessIs | src/path_resolver.cpp:104-104 | keys are ordered by the byte at their first difference, a proper prefix first |
| PathCache.VictimIs | src/path_resolver.cpp:116-127 | the victim is determined: the first unmarked entry from the hand on, or the one at the hand when all are marked |
| PathCache.VictimMeans | src/path_resolver.cpp:117-123 | in positions of the ring: which entry the hand stops at and which marks are gone, if some entry has no mark and if all have one |
| PathCache.NextMeans | src/path_resolver.cpp:116-128 | one step of an eviction: the entry erased, the marks, where the hand is, and the bytes counted |
| PathCache.SweptEnough | src/path_resolver.cpp:114-130 | a sweep frees less than the request and one entry together |
| PathCache.Clock.Advance | src/path_resolver.cpp:120-123 | the hand stops at the victim; the entries passed, and they only, lose their marks |
| PathCache.Clock.Evict | src/path_resolver.cpp:114-130 | one victim after the other, until enough is freed or nothing is left; the amount is stored |
| PathCache.Clock.LowerBound | src/path_resolver.cpp:104-104 | the keys before it are less, the others are not |
| PathCache.Clock.Find | src/path_resolver.cpp:31-36 | the entry of the key, which is marked; the others stay |
| PathCache.Clock.Store | src/path_resolver.cpp:59-59 | the key is bound, marked; the others stay and the hand stays on its entry |
| PathCache.Clock.Remember | src/path_resolver.cpp:53-59 | what is evicted before storing; below the limit everything |
| PathCache.Clock.RemovePrefix | src/path_resolver.cpp:100-112 | exactly the entries whose key has the prefix are erased |
| Resolver.PathResolver.ResolveNoCache | src/path_resolver.cpp:65-98 | where the components lead from the root, or invalid |
| Resolver.CompsIs | src/path_resolver.cpp:72-81 | the components of a path, with or without a slash at its end |
| Moves.LeadsIs | src/inode.cpp:79-81 | a path leads to a directory if and only if the inode it leads to is one |
| Resolver.PathResolver.LookupPrefixes | src/path_resolver.cpp:25-39 | the longest cached prefix and where it leads |
| Resolver.PathResolver.Resolve | src/path_resolver.cpp:11-63 | the result of resolveNoCache, whatever is evicted on the way; the path is cached and every cached pair stays right |
| Resolver.PathResolver.RemovePrefix | src/path_resolver.cpp:100-112 | the pairs that do not start with the path remain, all of them and no other |
| Namespace.WalkFrame | src/path_resolver.cpp:82-97 | a path that uses no changed name leads where it led |
| Namespace.UsesPrefix | src/path_resolver.cpp:82-97 | in a tree a path uses a name only if it starts with the path of that name |
| Namespace.SingleTree | src/path_resolver.cpp:82-97 | with one name to an inode each directory is reached along one path |
| Namespace.CoherentAfter | src/vfs.cpp:257-275 | after two names changed, the cached pairs that start with neither path are still right |
| Namespace.CoherentMoved | src/vfs.cpp:271-275 | if the second name is new, the call for the first is enough |
| Namespace.CoherentAdd | src/vfs.cpp:91-91 | a new name needs no invalidation |
| Namespace.FreeUnreachable | src/inode.cpp:55-57 | no path leads to an inode that is free |
| Moves.MovedWalk | src/vfs.cpp:257-272 | after a move every path below the new name leads where it led below the old one, the old one leads nowhere, all others where they led |
| Moves.SwappedWalk | src/vfs.cpp:265-272 | after an exchange the two subtrees have changed places, and nothing else |
| Moves.TakenWalk | src/vfs.cpp:217-238 | after a removal the path and all below it lead nowhere, all others where they led |
| Moves.BothTakenWalk | src/vfs.cpp:257-272 | after two removals both paths and all below them lead nowhere, all others where they led |
| Moves.MadeWalk | src/vfs.cpp:197-215 | after a creation the new path leads to the new inode, nothing beyond it, all others where they led |
| Moves.SamePaths | src/inode.cpp:49-74 | a name that is there a second time changes no path |
| Moves.ReplacedUnreachable | src/vfs.cpp:271-272 | no path leads to an inode whose name rename replaced |
| Moves.GoneUnreachable | src/vfs.cpp:257-260 | no path leads to an inode whose only path was taken |
| Steps.FreshTree | src/sbfs.cpp:72-95 | the new file system satisfies the invariant |
| Steps.CreatedMade | src/inode.cpp:49-74 | create keeps the invariant of the name space, link counts included |
| Steps.RelinkStep | src/vfs.cpp:257-272 | unlink then link keeps the invariant, moves the one binding and restores the link count; if link fails the name is gone |
| Steps.ExchangeStep | src/vfs.cpp:257-272 | the two unlinks and two links of an exchange keep the invariant whatever fails: the bindings are swapped, one of them has moved, or both are gone; only the link count of an inode that lost its name differs |
| Steps.RemovedStep | src/inode.cpp:125-138 | remove keeps the invariant and frees the inode |
| Steps.NotBelow | src/vfs.cpp:240-277 | an inode is neither its own directory nor one that is not below it |
| Vfs.SplitFromLastSlash | src/vfs.cpp:18-27 | a path is cut after its last slash; what these parts are of the components of the path |
| Vfs.PathOf | src/path_resolver.cpp:72-81 | every list of names other than "." and ".." is the components of a path, which names its last in the directory of the others |
| Vfs.IsEmptyDir | src/vfs.cpp:176-188 | empty if and only if within one block and without names other than "." and ".." |
| Vfs.Vfs.constructor | src/vfs.cpp:29-45 | a new file system is in a good state and holds the root, which is its own parent |
| Vfs.Vfs.Resolve | src/path_resolver.cpp:11-63 | in every state that the operations reach, cached resolution is resolution |
| Vfs.Vfs.Create | src/vfs.cpp:197-215 | the status says only whether the directory of the path was found; a file made is empty, has one link and is no directory; the effect on all paths, with the first 251 bytes of the name; the state stays good if and only if nothing was made or the name was new |
| Vfs.Vfs.Mkdir | src/vfs.cpp:77-96 | the same for a directory, which needs room in its parent and for itself, and binds "." to itself and ".." to its parent |
| Vfs.Vfs.Unlink | src/vfs.cpp:217-238 | fails if and only if the path leads nowhere; else path and inode are gone and all else stays, cache included |
| Vfs.Vfs.Rmdir | src/vfs.cpp:153-195 | the error of each case: not empty if and only if it is larger than a block or has a name other than "." and ".."; a directory that is removed had nothing below it |
| Vfs.Vfs.MkdirThenRmdir | src/vfs.cpp:77-195 | a directory just made is removed, and then every path leads where it led at first and the same inodes are in use |
| Vfs.Vfs.Rename | src/vfs.cpp:240-277 | the move of subtrees, under the first 251 bytes of the new name, or loss of the old name, with when each happens; for an exchange each of the four outcomes of its two links, with when each link succeeds on the sizes after both unlinks and what becomes of all paths; no other file changes; the state stays good, but for a new name that is cut to one that is there |
| Vfs.MadeMeans | src/vfs.cpp:77-215 | what create and mkdir leave of all paths, of all other files and of the inodes in use |
| Vfs.RenamedMeans | src/vfs.cpp:257-272 | what a rename leaves of all paths, and when the new name is linked, in bytes of the directory |
| Vfs.ExchangedMeans | src/vfs.cpp:257-272 | the same for an exchange and its two links |
| Layout.RegionsFit | src/sbfs.cpp:13-21 | the regions end on the disk if and only if the blocks left over do not divide evenly |
| Layout.Sizes | src/sbfs.cpp:13-70 | where each region begins, and which ids each bitmap manages |
| Layout.DataIdsAreBlocks | src/sbfs.cpp:58-70 | the data ids are the blocks of the data area, and no other region |
| Layout.PosId | src/sbfs.cpp:108-117 | an inode has 128 bytes in the block that its id says; the id comes back from its position, for all 32-bit ids and starts |
| Layout.PosDistinct | src/sbfs.cpp:108-113 | no two inodes share a place |
| Layout.IdPos | src/sbfs.cpp:115-117 | a place comes back from its id if and only if the id does not wrap |
| Layout.InodePlace | src/sbfs.cpp:58-64 | the inode of an id is in the inode area if and only if the id is below the number of inodes |
| Layout.LastInodeInBitmap | src/sbfs.cpp:58-64 | in the default layout the inode 32769 is kept in the data bitmap |

## Left out

- Vfs.Vfs.Rename: requires what the kernel checks before it calls (the new directory is there, neither path below the other, for an exchange both names present and different); the code itself would follow a null pointer or tie off a subtree.
- InodeFile.Inode.WriteData: only for writes that find the ids they need, because the code ignores a failed resize and goes on through pointers that are not the file's; the bytes of a gap are not determined, as the code does not clear new blocks.
- InodeFile.Inode.WriteThenRead: as for WriteData.
- Inodes.DiskInode.ReadData: not for a length of 2 GiB or more below 2 GiB whose end wraps around to less than the size, for which the code copies a negative number of bytes.
- Inodes.DiskInode.WriteData: as for ReadData.
- Volume.ResizeFiles: not for a shrink whose stray write may hit the inode of one of the files, which is then lost.
- FileRuns.Serve: for requests whose ends are 32-bit numbers, and as for ResizeFiles.
- DiskTable.Link: not for a link of a directory in itself, which no entry point makes.
- DiskTable.Remove: not for a name of the directory itself.
- DiskTable.Unlink: for a stray write that hits no inode and no inode bitmap, that is in directories of at most 2071 data blocks; so too Remove.
- DiskTable.Create: there is a free inode number whose inode is in the inode area; the code does not look at a failure.
- The position of the root in the super block, which createRoot writes last.
- Device.LRUCacheManager.Alloc: the list order is claimed only while the links form a list, which the code's own order of clearing ends at the first eviction in a cache of more than one slot.
- The entry points work on the table of files; that their inode operations do on the device what they do on the table is proved operation by operation in `DiskTable`, and the device states in the middle of one are not described there.
- Bytes of a directory entry behind the end of its name, and names not ended by a zero byte.
- `remove` of a cached block (`src/lru_cache.cpp:149-170`), which the block device does not call, and the cache stub `src/blk_cache.cpp`.
- Failures of `pread` and `pwrite`, file descriptors, alignment: the disk is an array of blocks that can be read and written.
- `write_tx`, which is not atomic in the code either.
- `DiskInode::clear`, which is never called.
- Times, owner and mode, which are carried but not set; `statfs`, `getattr`, `readdir`.
- The table of open files, the kernel interface, argument parsing, logging and the lock, under which every entry point runs alone.
- Paths with "." or "..", which the kernel resolves before it calls.
