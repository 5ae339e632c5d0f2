# A verified model of the ext4 file system code

The original is a user-space ext4 driver in C. This project models seven parts of it and proves
what they promise:

1. **Extent trees** (`Extent*.dfy`). A file's extents are kept in a B+-tree of disk blocks. The
   disk is a map from block numbers to nodes, the root lives in the inode, and a search path is a
   sequence of (block, position). The meaning of a tree is a finite map from logical to physical
   blocks (`ExtentMap.MapOf`). Search, insertion with leaf and index splits, index correction,
   growth of the root, and truncation to zero are proved against that map, and to keep the trees
   well formed (`ExtentNodes.GoodTree`: one depth, entries within capacity, no empty node below
   the root, keys sorted and bounding the extents below them, no block used twice).
2. **Block allocation** (`Bits`, `BlockAlloc`, `Arithmetic`). Bitmaps per group, with the group's,
   the volume's and the inode's counts. `BlockAllocator.Valid` says that each group's count is the
   number of clear bits, that the volume's count is their sum, and which blocks are in use.
3. **All files of a volume** (`Ownership`, `FileSystem`). Any run of block creations and
   truncations on any number of files, against a machine that holds plain maps.
4. **Red-black trees** (`Rb*.dfy`). Memory is a map from addresses to cells with parent, child and
   colour fields; a ghost tree and a ghost context (a tree with a hole) say what the cells stand
   for. Left and right cases are one, with the side as a parameter.
5. **The write-back buffer cache** (`Buffer*.dfy`), indexed by that red-black tree, against a
   plain map from blocks to data with a device behind it.
6. **Bitmap words** (`Words`, `Bitmap`). Scanning and filling 64 or 32 bits at a time, against
   bits one at a time.
7. **Path walking with the directory-entry cache** (`Dcache`, `PathWalk`), against a walk without
   a cache; the **indirect block map** of older files (`Indirect`); and the stored block count of
   an inode (`InodeCount`).

Code that changes state is a class with methods; what a method leaves behind is stated by
functions and predicates on values, and lemmas prove what the original promises about those.

## What turned out not to hold

- **Prepend merge** (`extents/extents.c:800-810`). When a new extent comes right before the one
  found, on disk too, the merge moves the logical start back but keeps the physical start. The file
  then maps the wrong blocks. `ExtentFile.InsertExtent` proves that the map is the old one plus the
  new extent exactly when the guard of that branch is false; `ExtentFile.PrependExample` is an
  instance. Runs over all files (`FileSystem.RunOps`) are proved right up to the first operation
  for which the guard holds, which needs a write directly in front of a mapped block that is also
  next to it on disk.
- **Truncating a file whose block 0 is a hole** (`extents/extents.c:1313-1318`) does nothing.
  `ExtentTruncate.RemoveSpace` states both cases and when the file ends up empty;
  `ExtentTruncate.HoleKeepsFile` is an instance.
- **The gap before the next allocated block** (`extents/extents.c:1591-1596`) is free exactly when
  the extent found does not start above the block (`ExtentLookup.GapIsFree`); `ExtentLookup.GapExample`
  is an instance.
- **`mb_find_zero_run_len`** (`bitmap.c:133-136`) does not give the length of a run of clear bits.
  `Bitmap.RunLenExact` says exactly when it does; `Bitmap.RunLenExample` is an instance. The allocator
  therefore takes one block at a time.
- **Shutting the buffer cache down** (`buffer.c:345-387`) leaves the device equal to what the cache
  stands for exactly when no held dirty buffer differs from it (`BufferRuns.Shutdown`);
  `BufferRuns.LostExample` is an instance.
- **A name too long for the directory-entry cache** (`dcache.c:69-70`) makes the walk lose its place in
  the cache, and the next name is inserted below the root. The answer is still right, but later ones
  need not be. `PathWalk.GetIdxByPath` says exactly when the cache still tells the truth, and
  `PathWalk.SecondAnswerWrong` shows two lookups of which the second answers wrongly.
- **The number of groups** (`super.c:93-97`) does not take the first data block off the block count,
  so the bitmaps stand for blocks past the end of the volume unless the first data block is 0
  (`BlockAlloc.LastBlock`).
- **The stored block count** of an inode (`super.c:510-549`) is read back as it was set exactly when
  it fits its field (`InodeCount.CountRoundTrip`); `InodeCount.CountExample` is an instance.

## Model

| member | source | states |
|---|---|---|
| `ExtentLookup.BinSearchIdx` | extents/extents.c:313-334 | The entry found is the last whose key is not above the block, or the first entry |
| `ExtentLookup.BinSearch` | extents/extents.c:339-363 | The same for the extents of a leaf |
| `ExtentLookup.FindExtent` | extents/extents.c:369-445 | From the root of any well-formed tree, the path recorded follows the chosen entry at every level down to the chosen extent of a leaf |
| `ExtentMap.GoodDisjoint` | extents/extents.c:369-445 | The extents of a well-formed tree never overlap, so the tree denotes a map |
| `ExtentMap.FoundCovers` | extents/extents.c:369-445 | If any extent of the whole tree covers the block, it is the one at the end of the search path |
| `ExtentMap.NextBoundSplits` | extents/extents.c:1506-1542 | Every extent of the tree is the one found, ends at or before the block, or starts at or after the next bound |
| `ExtentLookup.MappedRun` | extents/extents.c:1566-1582 | Length 0 exactly for an unmapped block; else the run goes to the end of the extent that covers the block, or to the limit asked for, and every block of it is mapped to its place in the run |
| `ExtentLookup.NextAllocatedBlock` | extents/extents.c:1506-1542 | Walking up the path finds the next extent of the leaf, or the nearest next key above, or the end of the range |
| `ExtentLookup.GapIsFree` | extents/extents.c:1591-1596 | For an unmapped block, all blocks up to the next allocated one are unmapped if and only if the extent found does not start above the block |
| `ExtentLookup.GapExample` | extents/extents.c:1591-1596 | A file whose only extent starts at block 5, searched for block 0 |
| `ExtentLeaf.AddedMap` | extents/extents.c:748-772 | Adding an extent, on its own or appended to its predecessor, adds exactly its mapping |
| `ExtentLeaf.UnmappedFits` | extents/extents.c:774-799 | An extent over unmapped blocks within the leaf's range meets what insertion needs |
| `ExtentInsert.InsertIndex` | extents/extents.c:552-665 | A waiting child gets linked into an index node, or a split leaves the new half waiting one level up; no extent and no block is lost |
| `ExtentInsert.SplitIndexNode` | extents/extents.c:457-530 | Splitting a full index node leaves two well-formed halves that together hold the old entries and the new one |
| `ExtentInsert.CorrectIndexes` | extents/extents.c:673-720 | After an insertion in front of a leaf the keys above are lowered, and the tree is well formed with the new extent in it |
| `ExtentTree.InsertLeaf` | extents/extents.c:774-912 | The extent is appended, takes a slot or splits the leaf; the result is a complete tree, a half waiting for its link, or, with nothing changed, a request to grow or ENOSPC, each in exactly its case |
| `ExtentTree.GrowIndepth` | extents/extents.c:922-979 | The old root's contents move to a new block and the new root points to it; nothing else changes, and nothing at all if no block is free |
| `ExtentTree.GrowIndex` | extents/extents.c:1122-1132 | Growing the tree with a half still waiting, and retrying, links it |
| `ExtentTree.LinkOrGrow` | extents/extents.c:1097-1132 | Through any number of splits up the path and a growth at the root, the tree ends up well formed with exactly the intended extents and blocks; it takes one block for each full level on the way up, and no more need be free |
| `ExtentTree.Level` | extents/extents.c:1084-1087 | The loop counts the full levels from the leaf upwards |
| `ExtentTree.InsertPlain` | extents/extents.c:1077-1171 | Without a prepend merge, insertion gives a well-formed tree whose extents are the old ones with the new one added or appended; foreign blocks keep their contents; it takes exactly one free block for each full level from the leaf upwards, or none when it appends, and asks for no more; if it needs blocks and none is free it answers ENOSPC and nothing changes |
| `ExtentRoom.SameNeeds` | extents/extents.c:1084-1087 | How many blocks an insertion takes is the same along every path that the search may record |
| `ExtentPrepend.PrependedMap` | extents/extents.c:800-810 | The prepend merge never yields the old map plus the new extent |
| `ExtentFile.PrependExample` | extents/extents.c:800-810 | One extent and one insertion in front of it for which the map comes out wrong |
| `ExtentFile.InsertExtent` | extents/extents.c:1077-1171 | An extent that continues the one found, logically and on disk, makes it longer if the sum is at most 0x8000 blocks, 0x7fff if that one is unwritten, and takes no block; else one that comes right before it is merged to its front under the same limit; else it becomes one extent more. The map becomes the old map plus the new extent if and only if the prepend guard is false, and then the tree is well formed; exactly the blocks needed are taken; ENOSPC, with nothing changed, if blocks are needed and none is free |
| `ExtentFile.CreateBlock` | extents/extents.c:1591-1636 | The block created is the first free one from the goal on, opens no group, and is mapped unless the prepend merge applied; ENOSPC, with nothing changed, if no block is free, or one is and the insertion needs another, in which case the data block is given back |
| `ExtentFile.CheckCreate` | extents/extents.c:1591-1636 | One search and the one block that the allocator would give decide whether a block is mapped, or can be created, or a creation fails before it changes anything |
| `ExtentFile.GetBlocks` | extents/extents.c:1544-1636 | A mapped block is answered with the run to the end of the extent that covers it, or to the limit asked for, and nothing changes, however full the volume is; creation adds one mapping, wrongly if and only if the prepend guard holds for the extent found and the first block free from the goal on; unmapped blocks are answered with 0 when not creating, and with ENOSPC exactly when the free blocks do not suffice |
| `ExtentTruncate.PropagateKey` | extents/extents.c:1209-1221 | Along leftmost entries every key above becomes the new first key, and the tree stays well formed with the same extents and blocks |
| `ExtentTruncate.RemoveIdx` | extents/extents.c:1187-1222 | Unlinking an empty child removes one tree block, frees it and keeps the rest of the tree; the keys above become that of the entry that moved to the front |
| `ExtentTruncate.FreeExtents` | extents/extents.c:1224-1258 | Freeing the extents of a leaf gives back exactly the blocks they map |
| `ExtentTruncate.RemoveLeaf` | extents/extents.c:1224-1288 | Clearing a leaf and unlinking it leaves the walk in a tree with fewer blocks, with used blocks still split exactly among owners |
| `ExtentTruncate.RemoveAll` | extents/extents.c:1305-1399 | The walk with an explicit stack terminates and frees every data block and tree block of the file exactly once |
| `ExtentTruncate.RemoveSpace` | extents/extents.c:1305-1399 | If block 0 is mapped the root ends empty at depth 0, the blocks still in use are those of others, and free plus used stays constant; if not, nothing changes; the file ends empty if and only if it mapped block 0 or nothing |
| `ExtentTruncate.EmptyExactly` | extents/extents.c:1313-1318 | A well-formed root is empty if and only if the file maps nothing |
| `ExtentTruncate.HoleKeepsFile` | extents/extents.c:1313-1318 | A file that maps block 1 but not block 0 still maps it after truncation to zero |
| `BlockAlloc.FromSuper` | super.c:93-97 | The groups, with a short last one, begin at the first data block and add up to the number of blocks of the volume |
| `BlockAlloc.Covered` | super.c:93-97 | A block has a bit in the bitmaps if and only if it is one of that many blocks from the first data block on |
| `BlockAlloc.LastBlock` | super.c:93-97 | The last block that the bitmaps stand for is on the volume if and only if the first data block is 0, since it is not taken off the count |
| `BlockAlloc.OnePlace` | alloc.c:121-133 | A block has one group and one index in it |
| `BlockAlloc.CountsMove` | super.c:223-230 | Setting or clearing a run of bits moves the group's count and the volume's count by its length, and they stay right |
| `BlockAlloc.MarkedFilled` | alloc.c:76-78 | Filling a run of bits adds or removes exactly the blocks of the run |
| `BlockAlloc.ConsistentAfter` | alloc.c:76-82 | The three counts, the bitmaps and the used blocks agree after such a step |
| `BlockAlloc.BlockAllocator.FindGroup` | alloc.c:26-88 | The cyclic scan ends, fails exactly when no block is free, and else stops at the first group with free blocks from the goal's group on |
| `BlockAlloc.BlockAllocator.NewMetaBlocks` | alloc.c:8-110 | ENOSPC exactly when every group is full; else the block is the first free block of the first group with free blocks counting cyclically from the goal, and all counts move by one |
| `BlockAlloc.FirstFitUnique` | alloc.c:23-67 | There is only one such block |
| `BlockAlloc.FirstFitNearest` | alloc.c:23-67 | It is free, and no free block comes before it in the groups taken cyclically from the one that holds the goal |
| `BlockAlloc.BlockAllocator.FreeBlocks` | alloc.c:112-146 | Exactly the blocks of the run become free, and all counts move by its length |
| `Ownership.OwnedIsMapped` | extents/extents.c:1544-1589 | A file's data blocks are exactly those its map leads to |
| `Ownership.OneOwner` | extents/extents.c:1544-1636 | No physical block stands behind two logical blocks of a file |
| `Ownership.FreeExtent` | extents/extents.c:1175-1185 | Freeing an extent frees blocks of its owner only, and leaves the rest of its blocks split exactly |
| `Ownership.TallyRun` | alloc.c:135-140 | Freeing a run frees each of its blocks once, and the counts move by as many |
| `Ownership.TallySum` | alloc.c:135-140 | So free plus used blocks stay constant over any number of such steps |
| `FileSystem.VolumeGrows` | extents/extents.c:1591-1636 | One created block keeps all files good and apart, maps exactly that block, and keeps free plus used constant |
| `FileSystem.VolumeShrinks` | extents/extents.c:1305-1399 | Truncating one file keeps all files good and apart, and the other files' maps |
| `FileSystem.SoleOwner` | alloc.c:8-146 | In every good volume a block has at most one owner (a logical block of one file or a tree node of one file), and an owned block is in use |
| `FileSystem.NoLeak` | alloc.c:8-146 | Every block in use that is not reserved has an owner |
| `FileSystem.Files.Write` | extents/extents.c:1544-1636 | No space exactly for an unmapped block for which the free blocks do not suffice; a mapped block is answered as mapped; a created block was mapped by no file; the files' maps take the step of the map machine if and only if the prepend merge did not apply, that is, they gain exactly the mapping created; the merge applies if and only if its guard holds |
| `FileSystem.Files.Truncate` | extents/extents.c:1305-1399 | The file loses all its blocks if block 0 is mapped, else nothing changes; the other files keep their maps, and the volume stays good |
| `FileSystem.RunOps` | extents/extents.c:1544-1636 | Over any run on any files, maps and answers are those of the map machine, the volume stays good and free plus used constant, up to the first operation for which the prepend guard holds; else the run stops only at a creation for which two or more blocks are free but not enough |
| `RbShape.InorderPlug` | rbtree.c:373-420 | The order of a tree is the order of a subtree between that of its context |
| `RbShape.HeightBound` | rbtree.c:67-126 | In a red-black tree of n nodes, 2^height is at most (n + 1)^2 |
| `RbRotate.Focus` | rbtree.c:25-65 | The cells of memory hold a whole tree exactly when they hold a subtree and its context around it |
| `RbRotate.RbRoot.Rotate` | rbtree.c:25-65 | A rotation to either side yields the rotated tree in its place, same order, parent links right, colours kept |
| `RbInsert.BlockCmp` | buffer.c:200-211 | The wrapped 64-bit comparison orders block numbers below 2^63 |
| `RbInsert.CmpIsCyclic` | buffer.c:200-211 | Without that bound it is no order |
| `RbInsert.FindPlace` | rbtree.c:457-475 | The descent finds the equal key or the one place where the new key belongs, and whether it is an end |
| `RbInsert.InsertColor` | rbtree.c:67-126 | Recolouring and rotating ends, and a red node with a red parent is repaired into a red-black tree with the same order |
| `RbInsert.Insert` | rbtree.c:457-485 | An equal key changes nothing; else exactly one node is added in order, and tree, colours, parent links and cached ends stay right |
| `RbErase.RepairStep` | rbtree.c:129-197 | Each turn of the fix-up removes the missing black or moves it up |
| `RbErase.EraseColor` | rbtree.c:129-197 | The fix-up loop ends and a subtree one black short is repaired into a red-black tree with the same order |
| `RbUnlink.RelinkDone` | rbtree.c:201-240 | The pointer writes that put the successor in place of a node with two children leave exactly the tree without that node |
| `RbUnlink.Relink` | rbtree.c:201-240 | What those pointer writes leave in every cell of memory |
| `RbUnlink.EraseAt` | rbtree.c:201-264 | Erasing a node with any children gives a red-black tree without exactly that node |
| `RbUnlink.Erase` | rbtree.c:447-455 | Exactly the given node goes; order, colours, black heights, parent links and cached ends stay right |
| `RbWalk.Extreme` | rbtree.c:343-367 | The first and last node found by walking are the cached ones |
| `RbWalk.Next` | rbtree.c:369-421 | The neighbour in order, in either direction, or none at the end |
| `RbWalk.VisitAll` | rbtree.c:369-396 | Iterating from the first node visits every node once, in increasing order |
| `RbWalk.Search` | buffer.c:178-198 | The node with the block number is found if and only if there is one |
| `BufferState.OneView` | buffer.c:732-755 | Device and buffers determine the one map that the cache stands for |
| `BufferState.Stored` | bufops.c:66-70 | Storing in a held buffer changes that map at its block only |
| `BufferState.Written` | buffer.c:673-684 | Writing a waiting buffer back and freeing it changes no data the cache stands for |
| `BufferState.Dropped` | buffer.c:561-575 | Evicting a free buffer loses no data |
| `BufferTable.Table.Take` | buffer.c:732-755 | A buffer taken leaves the list it was on, the order of the others stays, and the list lengths stay counted |
| `BufferTable.Table.SubmitRead` | buffer.c:696-712 | A buffer read has the data the cache stands for, also when it was dirty |
| `BufferTable.Table.Release` | buffer.c:757-774 | The last user puts the buffer at the end of the free or the dirty list as its state says |
| `BufferTable.Table.SyncFirst` | buffer.c:714-729 | The first waiting buffer is written to the device and becomes free; the cache stands for the same map |
| `BufferTable.Table.DropFirst` | buffer.c:561-575 | Only an unused clean buffer is evicted |
| `BufferCache.IndexedUnique` | buffer.c:226-245 | A buffer tree with distinct keys has one buffer per block |
| `BufferCache.Cache.GetBlk` | buffer.c:732-755 | The one buffer of the block, old or new, is held once more; all other users stay |
| `BufferCache.Cache.Bread` | bufops.c:29-44 | The buffer has the data the cache stands for |
| `BufferCache.Cache.Brelse` | buffer.c:757-774 | One use less of that buffer, which waits last if it is dirty and unused; free buffers above the threshold go if it is clean and unused; every other buffer that is held or dirty stays as it is; data unchanged |
| `BufferCache.Cache.TryToDrop` | buffer.c:561-566 | Evicts the first free buffers, just as many as there are above the threshold; data unchanged |
| `BufferCache.Cache.SyncOne` | buffer.c:776-784 | One turn of the writeback loop: the buffer that waited longest, if any, is written to the device; held buffers and the data the cache stands for are unchanged |
| `BufferCache.Cache.TryToSync` | buffer.c:776-788 | No buffer is left waiting; held buffers and the data the cache stands for are unchanged |
| `BufferRuns.DoCall` | bufops.c:29-70 | Each call, and each writeback of one buffer by the writeback thread, has the answer and the effect that it has on a plain map with use counts, a device behind it and a queue of blocks to write: a read answers the map, a store changes it at its block, and only a writeback changes the device, at the block that waited longest |
| `BufferRuns.RunCalls` | bufops.c:29-70 | Any sequence of calls, with any number of single-buffer writebacks between them, gives the answers of that machine and leaves the cache standing for its map, with its device and its queue |
| `BufferRuns.FreshRefines` | bufops.c:29-70 | A cache just made stands for its device, with nothing held and nothing waiting |
| `BufferRuns.OrderlyAfter` | buffer.c:714-784 | In the machine the blocks that wait are always those that changed and that nobody holds, each once, and all unchanged blocks are on the device |
| `BufferRuns.DrainAll` | buffer.c:776-788 | After as many writebacks as blocks wait, the device equals the map except in changed blocks that are held, which are as they were |
| `BufferRuns.WrittenBack` | buffer.c:776-788 | So after any calls on a new cache and that many writebacks the device has everything that nobody holds |
| `BufferRuns.FreeAll` | buffer.c:359-369 | Freeing in tree order ends with no buffer, an empty tree and no free count left |
| `BufferRuns.ExitData` | buffer.c:345-387 | After the last writeback each block holds what the cache stands for, or its old data if a held dirty buffer stands for it |
| `BufferRuns.ExitExact` | buffer.c:345-387 | So the device equals the map if and only if no held dirty buffer differs from it |
| `BufferRuns.Shutdown` | buffer.c:345-387 | Both for the whole shutdown |
| `BufferRuns.LostExample` | buffer.c:345-387 | A cache that stands for new data in a block whose buffer is held: after the shutdown the device has the old data |
| `Words.Ffs` | bitmap.h:26-54 | Halving finds the lowest set bit of every non-zero word |
| `Words.Ffz` | bitmap.h:63-66 | The lowest clear bit of every word that is not all ones |
| `Bitmap.FindNextBit` | bitmap.h:200-240 | The least set bit at or after the offset, or the size, for every bitmap, size and offset |
| `Bitmap.FindNextZeroBit` | bitmap.h:246-284 | The least clear bit, likewise |
| `Bitmap.FirstIsNextZero` | bitmap.h:246-284 | That is the bit the allocator's bit-by-bit scan finds |
| `Bitmap.MbFindNextZeroBit` | bitmap.c:44-55 | The same for a bitmap at any byte address |
| `Bitmap.MbFindNextBit` | bitmap.c:57-68 | The least set bit for a bitmap at any byte address |
| `Bitmap.RunLenExact` | bitmap.c:133-136 | What is computed is the length of the run of clear bits if and only if the start is inside the bitmap and the next bit differs from the start bit or is past the end |
| `Bitmap.MbFindZeroRunLen` | bitmap.c:133-136 | On the words of any bitmap, what is computed is the length of the run under that same condition only |
| `Bitmap.RunLenExample` | bitmap.c:133-136 | A run of two clear bits for which it gives 1 |
| `Bitmap.Memory.MbFillBits` | bitmap.c:70-131 | Setting (or clearing) with 32-bit stores changes exactly the bits of the range, in all of memory |
| `Bitmap.Memory.MbTestAndClearBits` | bitmap.c:91-113 | The same for clearing, and the answer is the first bit that was clear, or -1 |
| `Dcache.RotatedRing` | dcache.c:97-122 | Moving the first-child pointer rotates a sibling ring and keeps its members |
| `Dcache.WithRing` | dcache.c:64-90 | Linking a new entry in gives one ring with exactly one member more |
| `Dcache.Cache.Insert` | dcache.c:64-90 | A name that fits gets a new entry on its path, one that does not changes nothing; the cache tells the truth afterwards if and only if it did before and the new entry does |
| `Dcache.Cache.Lookup` | dcache.c:96-122 | A child is found if and only if one has the name, and becomes the first child; every entry keeps its children, inode and path |
| `Dcache.FindFirst` | inode.c:254-263 | A name is found in a directory if and only if an entry that is not deleted has it, and then the first such entry's inode is the answer |
| `Dcache.ResolveAppend` | inode.c:227-279 | Walking a longer path is walking on from where the shorter one ends |
| `PathWalk.GetCached` | inode.c:200-219 | The entry reached and what is left make up the path; the walk through the cache stops only at the end, at a name that no child has, or at a double slash |
| `PathWalk.ScanDir` | inode.c:254-263 | The scan of a directory passes over deleted entries and other names and stops at the first entry with the name |
| `PathWalk.TokensSplit` | inode.c:221-247 | Cut at a slash, a path holds the names of its parts |
| `PathWalk.TokensOne` | inode.c:221-247 | A path without slashes is one name |
| `PathWalk.OnlySlashes` | inode.c:221-223 | Slashes alone hold no name |
| `PathWalk.FitsHung` | inode.c:264-266 | A walk along names that fit inserts one entry for each, on its path and with the inode it leads to |
| `PathWalk.WalkOn` | inode.c:227-279 | From any entry the walk answers what the directories say, and inserts exactly the entries of `PathWalk.Hangs` |
| `PathWalk.GetIdxByPath` | inode.c:227-279 | From a truthful cache the inode found is that of a walk without a cache, whatever the lengths of the names; the cache stays truthful if and only if each name inserted after one that does not fit has the same inode under the root |
| `PathWalk.LookupAll` | inode.c:227-279 | In any sequence of lookups every answer up to the first harmful path is right, and the cache is truthful at the end if and only if no path was harmful |
| `PathWalk.FitsHarmless` | dcache.c:64-90 | A path whose names all fit is harmless |
| `PathWalk.LostParent` | dcache.c:69-70 | A path that goes through a name that does not fit to one that does is harmless if and only if the root has the last name for the same inode |
| `PathWalk.SecondAnswerWrong` | inode.c:227-279 | Two lookups, the first through a name that does not fit, of which the second answers wrongly |
| `Indirect.PlaceOfBlock` | inode.c:26-31 | Every chain of slots in range is that of a block below the limit |
| `Indirect.BlockOfPlace` | inode.c:26-31 | Every block below the limit has a chain of slots in range that leads back to it |
| `Indirect.PlacesDiffer` | inode.c:26-31 | Different blocks have different chains |
| `Indirect.FollowsPlace` | inode.c:37-100 | The nested reads follow exactly that chain |
| `Indirect.PointerOf` | inode.c:37-100 | Block l of the file is the l-th of its pointers in order: the 12 in the inode, those in the block of slot 12, those in the blocks of the block of slot 13, and one level more for slot 14 |
| `InodeCount.CountRoundTrip` | super.c:510-549 | The count read back is the count set if and only if it fits the stored field |
| `InodeCount.StoredUnits` | super.c:530-549 | The stored field has the number of blocks if feature and flag are set, else that of 512-byte units, cut to 48 bits with the feature and to 32 without |
| `InodeCount.CountExample` | super.c:530-549 | A count of 2^29 blocks that reads back as 0 |

## Left out

- Block numbers, logical and physical: unbounded naturals; the split of a physical start into 32 and 16 bits, the byte layout of nodes and superblock, checksums and byte order are not modelled.
- Extent state: the meaning of a tree is logical to physical only; the merge tests do not compare the unwritten flags of two extents, so the flags are not part of it.
- Rollback of failed allocations: an allocation that fails between two splits leaves moved entries behind, so an insertion that needs blocks is modelled when they are all free, or none is.
- ExtentFile.InsertExtent: a new extent ends at or below the next key on its path, as extents/extents.c:1591-1596 cuts it.
- ExtentFile.CreateBlock: does not cover a creation with two or more blocks free of which the splits need more.
- FileSystem.Files.Write: likewise; and what the other files hold after a prepend merge is not stated.
- FileSystem.RunOps: stops at such a creation, and at a prepend merge.
- Goals of the allocator: a goal outside the volume is taken as none; how the goal is chosen only decides which free block is taken.
- BlockAlloc.BlockAllocator.NewMetaBlocks: the branch for a group whose count is not 0 while its bitmap is full is not written, because the counts are always right; bitmaps are initialised, bit 0 of each group is reserved, and there are fewer than 65536 blocks per group.
- Partial truncation, splitting an extent and converting unwritten extents: no simple contract follows from the length arithmetic at extents/extents.c:1242-1253.
- The state of the path after an insertion: only releasing and printing follow it.
- RbShape: parent and colour are separate fields, not packed in a word; the augmented callbacks and node replacement are not modelled. Keys are block numbers below 2^63.
- RbRotate.RbRoot.Rotate: left and right are one member with the side as a parameter, as are first and last, next and previous.
- Threads and asynchronous I/O: each call on the buffer cache is one step, and so is the writeback of one buffer; I/O succeeds; changing data and marking the buffer dirty is one step.
- Buffers forgotten without writing, and counters that are only shown, are not modelled.
- BufferCache.Cache.Brelse: free buffers are dropped before the use count goes down instead of after; the two do not touch the same buffer.
- Bitmap words are sequences of 64 bits, and the C operators on them are defined bit by bit; memory is little-endian.
- Bitmap.Memory.MbFillBits: setting and clearing are one member with the value as a parameter.
- Directories do not change during a run of lookups, and only directories have entries.
- PathWalk.GetIdxByPath: names have at most 255 bytes, as on disk; the 8-bit token length does not wrap.
- CRC tables, group descriptor checksums, lazy initialisation of bitmaps, the placement of metadata, reading and writing file data, and the FUSE operations are not part of this model.
