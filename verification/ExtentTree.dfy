/**
 The extent tree of a file: inserting an extent through any number of splits and a growth of the
 tree, and finding or creating the block behind a logical block.
 */
module ExtentTree {
  import opened ExtentNodes
  import opened ExtentPaths
  import opened ExtentMap
  import opened ExtentLookup
  import opened ExtentEdit
  import opened ExtentLeaf
  import opened ExtentRoom
  import opened ExtentGrow
  import opened ExtentInsert
  import opened Addresses
  import opened Volumes
  import opened BlockAlloc

  /** The found extent is not continued by `e`, but `e` comes right before it. */
  ghost predicate PrependApplies(d: Disk, root: Node, depth: nat, path: seq<Step>, e: Extent)
    requires Found(d, root, depth, e.block, path)
  {
    var exts, pos := LeafAt(d, root, depth, path).exts, path[depth].pos;
    |exts| > 0 && !CanAppend(exts[pos], e) && CanPrepend(exts[pos], e)
  }

  /** The found extent is continued by `e`. */
  ghost predicate Appends(d: Disk, root: Node, depth: nat, path: seq<Step>, e: Extent)
    requires Found(d, root, depth, e.block, path)
  {
    var exts, pos := LeafAt(d, root, depth, path).exts, path[depth].pos;
    |exts| > 0 && CanAppend(exts[pos], e)
  }

  /** The extents of the tree once `e` is inserted where the path ends. */
  ghost function Target(d: Disk, root: Node, depth: nat, path: seq<Step>, e: Extent): set<Extent>
    requires Found(d, root, depth, e.block, path)
  {
    if Appends(d, root, depth, path, e) then Joined(d, root, depth, path, e) else Exts(d, root, depth) + {e}
  }

  /** The leaf on the path has no room for another extent. */
  ghost predicate LeafFull(d: Disk, root: Node, depth: nat, path: seq<Step>)
    requires |path| == depth + 1 && (depth == 0 || path[depth].blk in d) && LeafAt(d, root, depth, path).Leaf?
  {
    |LeafAt(d, root, depth, path).exts| == LeafAt(d, root, depth, path).max
  }

  /** What inserting into a leaf returns: `full` if it takes an entry that the leaf has no room for. */
  function LeafResult(full: bool, depth: nat, free: int): int {
    if !full then OK else if depth == 0 then NEED_GROW else if free > 0 then OK else ENOSPC
  }

  /**
   Inserts an extent into the leaf found: it enlarges the extent it continues, or takes a free
   slot, or splits a full leaf.  A full root leaf asks for the tree to grow; a leaf that cannot be
   split for lack of a free block stays as it is.
   */
  method InsertLeaf(vol: Volume, inode: Inode, alloc: BlockAllocator, path: seq<Step>, e: Extent, hint: int)
    returns (ret: int, newIndex: nat, newPtr: nat, ghost target: set<Extent>)
    requires Ready(vol.disk, vol.cap, inode.root, inode.depth, path, e)
    requires !PrependApplies(vol.disk, inode.root, inode.depth, path, e)
    requires alloc.Valid() && Blks(vol.disk, inode.root, inode.depth) <= alloc.used
    modifies vol`disk, inode`root, inode`blocks, alloc`bitmaps, alloc`groupFree, alloc`totalFree, alloc`used
    ensures alloc.Valid() && Added(old(Exts(vol.disk, inode.root, inode.depth)), e, target)
    ensures target == old(Target(vol.disk, inode.root, inode.depth, path, e))
    ensures LeafOutcome(old(vol.disk), vol.disk, vol.cap, old(inode.root), inode.root, inode.depth, e.block, path, ret, newIndex,
                        newPtr, target, old(Blks(vol.disk, inode.root, inode.depth)))
    ensures var full := old(LeafFull(vol.disk, inode.root, inode.depth, path) && !Appends(vol.disk, inode.root, inode.depth, path, e));
            ret == LeafResult(full, inode.depth, old(alloc.totalFree)) && (newPtr != 0 <==> full && ret == OK)
    ensures newPtr != 0 ==> SameRoom(old(vol.disk), old(inode.root), path, vol.disk, inode.root, path, inode.depth)
    ensures newPtr != 0 ==> !Head(alloc.geo, newPtr)
    ensures Took(old(alloc.used), alloc.used, old(alloc.totalFree), alloc.totalFree, old(inode.blocks), inode.blocks, newPtr)
  {
    var leaf, pos := NodeAt(vol.disk, inode.root, path, inode.depth), path[inode.depth].pos;
    if |leaf.exts| > 0 && CanAppend(leaf.exts[pos], e) {
      target := AppendToLeaf(vol, inode, path, e);
      ret, newIndex, newPtr := OK, 0, 0;
    } else {
      target := Exts(vol.disk, inode.root, inode.depth) + {e};
      ret, newIndex, newPtr := InsertSlot(vol, inode, alloc, path, e, hint);
    }
  }

  /** What an attempt to insert into a leaf leaves behind; one that fails changes nothing. */
  ghost predicate LeafOutcome(d0: Disk, d: Disk, cap: nat, root0: Node, root: Node, depth: nat, block: nat, path: seq<Step>,
                              ret: int, idx: nat, ptr: nat, target: set<Extent>, all: set<nat>) {
    if ret != OK then ptr == 0 && d == d0 && root == root0
    else if ptr == 0 then Complete(d, cap, root, depth, target, all) && KeepsOthers(d0, d, all)
    else && depth > 0
         && HalfDone(d, cap, root, depth, block, path, depth - 1, 1, idx, ptr, target, all + {ptr})
         && KeepsOthers(d0, d, all + {ptr})
  }

  /** Inserts an extent as an entry of its own. */
  method InsertSlot(vol: Volume, inode: Inode, alloc: BlockAllocator, path: seq<Step>, e: Extent, hint: int)
    returns (ret: int, newIndex: nat, newPtr: nat)
    requires Ready(vol.disk, vol.cap, inode.root, inode.depth, path, e)
    requires alloc.Valid() && Blks(vol.disk, inode.root, inode.depth) <= alloc.used
    modifies vol`disk, inode`root, inode`blocks, alloc`bitmaps, alloc`groupFree, alloc`totalFree, alloc`used
    ensures alloc.Valid()
    ensures LeafOutcome(old(vol.disk), vol.disk, vol.cap, old(inode.root), inode.root, inode.depth, e.block, path, ret, newIndex,
                        newPtr, old(Exts(vol.disk, inode.root, inode.depth)) + {e}, old(Blks(vol.disk, inode.root, inode.depth)))
    ensures var full := old(LeafFull(vol.disk, inode.root, inode.depth, path));
            ret == LeafResult(full, inode.depth, old(alloc.totalFree)) && (newPtr != 0 <==> full && ret == OK)
    ensures newPtr != 0 ==> SameRoom(old(vol.disk), old(inode.root), path, vol.disk, inode.root, path, inode.depth)
    ensures newPtr != 0 ==> !Head(alloc.geo, newPtr)
    ensures Took(old(alloc.used), alloc.used, old(alloc.totalFree), alloc.totalFree, old(inode.blocks), inode.blocks, newPtr)
  {
    var leaf := NodeAt(vol.disk, inode.root, path, inode.depth);
    ret, newIndex, newPtr := OK, 0, 0;
    LeafCount(vol.disk, vol.cap, inode.root, inode.depth, path, e);
    if |leaf.exts| != leaf.max {
      AddToLeaf(vol, inode, path, e);
    } else if inode.depth == 0 {
      ret := NEED_GROW;
    } else {
      ret, newIndex, newPtr := SplitLeafNode(vol, inode, alloc, path, e, hint);
    }
  }

  lemma LeafCount(d: Disk, cap: nat, root: Node, depth: nat, path: seq<Step>, e: Extent)
    requires Ready(d, cap, root, depth, path, e)
    ensures |LeafAt(d, root, depth, path).exts| <= LeafAt(d, root, depth, path).max
  {
    GoodAt(d, cap, {}, root, depth, e.block, path, depth, 0, 0, MAX_BLOCKS);
  }

  /** Moves the contents of the root into a new block below a new root, if a block is free. */
  method GrowIndepth(vol: Volume, inode: Inode, alloc: BlockAllocator) returns (err: int, block: nat)
    requires GoodTree(vol.disk, vol.cap, inode.root, inode.depth) && inode.root.Count() > 0 && alloc.Valid()
    modifies vol`disk, inode`root, inode`depth, inode`blocks, alloc`bitmaps, alloc`groupFree, alloc`totalFree, alloc`used
    ensures alloc.Valid() && err == if old(alloc.totalFree) > 0 then OK else ENOSPC
    ensures err == OK ==>
              && block != 0 && block !in old(alloc.used) && !Head(alloc.geo, block) && alloc.used == old(alloc.used) + {block}
              && alloc.totalFree == old(alloc.totalFree) - 1 && inode.blocks == old(inode.blocks) + 1
              && vol.disk == old(vol.disk)[block := InBlock(old(inode.root), vol.cap)]
              && inode.root == NewRoot(old(inode.root), block) && inode.depth == old(inode.depth) + 1
    ensures err != OK ==>
              && vol.disk == old(vol.disk) && inode.root == old(inode.root) && inode.depth == old(inode.depth)
              && alloc.used == old(alloc.used) && alloc.totalFree == old(alloc.totalFree) && inode.blocks == old(inode.blocks)
  {
    var hint := if inode.depth > 0 then inode.root.ents[0].ptr else 0;
    err, block := NewTreeBlock(alloc, inode, hint);
    if err == OK {
      vol.disk := vol.disk[block := inode.root.(max := vol.cap)];
      inode.root := Index([IndexEntry(inode.root.FirstKey(), block)], ROOT_CAP);
      inode.depth := inode.depth + 1;
    }
  }

  // ---------------------------------------------------------------- linking upwards

  /**
   The blocks of a tree grew from `all` to `all'` by the blocks `news`, one by one: they were free,
   none of them opens a group, and the counts moved with them.
   */
  ghost predicate GrewBy(geo: Geometry, used: set<nat>, used': set<nat>, free: int, free': int, blocks: int, blocks': int,
                         all: set<nat>, all': set<nat>, news: seq<nat>) {
    && all <= used && NoDup(news)
    && (forall x {:trigger x in news} :: x in news ==> x !in used && !Head(geo, x))
    && (forall x {:trigger x in all'} :: x in all' <==> x in all || x in news)
    && (forall x {:trigger x in used'} :: x in used' <==> x in used || x in news)
    && free' == free - |news| && blocks' == blocks + |news|
  }

  ghost predicate Grew(geo: Geometry, used: set<nat>, used': set<nat>, free: int, free': int, blocks: int, blocks': int,
                       all: set<nat>, all': set<nat>) {
    exists news :: GrewBy(geo, used, used', free, free', blocks, blocks', all, all', news)
  }

  /** What that means for the sets and their sizes. */
  lemma GrewSets(geo: Geometry, used: set<nat>, used': set<nat>, free: int, free': int, blocks: int, blocks': int,
                 all: set<nat>, all': set<nat>)
    requires Grew(geo, used, used', free, free', blocks, blocks', all, all')
    ensures all <= all' && used' == used + all' && (all' - all) !! used && forall x :: x in all' && x !in all ==> !Head(geo, x)
    ensures free - free' == |all'| - |all| && blocks' - blocks == |all'| - |all|
  {
    var news :| GrewBy(geo, used, used', free, free', blocks, blocks', all, all', news);
    NoDupCount(news);
    assert all' == all + Members(news) && all !! Members(news);
    assert |all + Members(news)| == |all| + |Members(news)|;
    assert used' == used + all';
  }

  /** What there was before an insertion began. */
  datatype Before = Before(disk: Disk, used: set<nat>, free: int, blocks: int, all: set<nat>)

  /** Since then the tree took the blocks `news`, and no block outside the tree changed. */
  ghost predicate Since(b: Before, geo: Geometry, d: Disk, used: set<nat>, free: int, blocks: int, all: set<nat>, news: seq<nat>) {
    GrewBy(geo, b.used, used, b.free, free, b.blocks, blocks, b.all, all, news) && KeepsOthers(b.disk, d, all)
  }

  lemma SinceNone(b: Before, geo: Geometry)
    requires b.all <= b.used
    ensures Since(b, geo, b.disk, b.used, b.free, b.blocks, b.all, [])
  {
  }

  /** One more block was taken. */
  lemma SinceTook(b: Before, geo: Geometry, d: Disk, used: set<nat>, used': set<nat>, free: int, free': int, blocks: int,
                  blocks': int, all: set<nat>, news: seq<nat>, ptr: nat, d': Disk)
    requires Since(b, geo, d, used, free, blocks, all, news)
    requires ptr != 0 && Took(used, used', free, free', blocks, blocks', ptr) && !Head(geo, ptr)
    requires KeepsOthers(d, d', all + {ptr})
    ensures Since(b, geo, d', used', free', blocks', all + {ptr}, news + [ptr])
    ensures ptr !in all && all <= used && all + {ptr} <= used'
  {
    KeepsTwice(b.disk, d, d', all, all + {ptr});
    forall x | x in news + [ptr]
      ensures x !in b.used && !Head(geo, x)
    {
      assert x in news || x == ptr;
    }
  }

  /** None was, and no block outside the tree changed. */
  lemma SinceSame(b: Before, geo: Geometry, d: Disk, d': Disk, used: set<nat>, free: int, blocks: int, all: set<nat>, news: seq<nat>)
    requires Since(b, geo, d, used, free, blocks, all, news) && KeepsOthers(d, d', all)
    ensures Since(b, geo, d', used, free, blocks, all, news)
  {
    KeepsTwice(b.disk, d, d', all, all);
  }

  /** How far the linking got: a sibling waits at level `at`, or at the full root, or the tree is complete. */
  datatype Stage = Stage(at: nat, h: nat, ret: int, index: nat, ptr: nat, all: set<nat>, news: seq<nat>) {
    predicate Going() {
      ret == OK && ptr != 0
    }
  }

  /** What holds at a stage; `spare` blocks are free that the full levels still to be split will not take. */
  ghost predicate AtStage(d: Disk, cap: nat, root: Node, depth: nat, free: int, block: nat, path: seq<Step>, target: set<Extent>,
                          runs: seq<nat>, spare: int, g: Stage) {
    && |path| == |runs| == depth + 1 && g.at < depth
    && if g.Going() then
         && RoomIs(d, root, path, runs, g.at + 1) && free == spare + runs[g.at + 1]
         && HalfDone(d, cap, root, depth, block, path, g.at, g.h, g.index, g.ptr, target, g.all)
       else
         && free == spare + (if g.ret == OK then 0 else 1)
         && LinkOutcome(d, cap, root, depth, block, path, g.ret, g.index, g.ptr, target, g.all)
  }

  /**
   Links a new sibling into the level above, and further up as long as nodes are full.  Either
   the tree is complete, or the root is full and the sibling still waits there.  Each full node
   on the way took one block, except for the root.
   */
  method LinkUpwards(vol: Volume, inode: Inode, alloc: BlockAllocator, path: seq<Step>, index0: nat, ptr0: nat, hint: int,
                     ghost block: nat, ghost target: set<Extent>, ghost before: Before, ghost runs: seq<nat>, ghost spare: int,
                     ghost g0: Stage)
    returns (ret: int, index: nat, ptr: nat, ghost g: Stage)
    requires inode.depth > 0 && alloc.Valid() && vol.cap > ROOT_CAP && spare >= 0 && g0.Going() && Counting(runs)
    requires g0.at == inode.depth - 1 && g0.index == index0 && g0.ptr == ptr0
    requires AtStage(vol.disk, vol.cap, inode.root, inode.depth, alloc.totalFree, block, path, target, runs, spare, g0)
    requires Since(before, alloc.geo, vol.disk, alloc.used, alloc.totalFree, inode.blocks, g0.all, g0.news)
    modifies vol`disk, inode`root, inode`blocks, alloc`bitmaps, alloc`groupFree, alloc`totalFree, alloc`used
    ensures alloc.Valid() && !g.Going() && g.ret == ret && g.index == index && g.ptr == ptr
    ensures AtStage(vol.disk, vol.cap, inode.root, inode.depth, alloc.totalFree, block, path, target, runs, spare, g)
    ensures Since(before, alloc.geo, vol.disk, alloc.used, alloc.totalFree, inode.blocks, g.all, g.news)
  {
    var at := inode.depth - 1;
    index, ptr, ret := index0, ptr0, OK;
    g := g0;
    while ret == OK && ptr != 0
      invariant alloc.Valid() && g.at == at && g.ret == ret && g.index == index && g.ptr == ptr
      invariant AtStage(vol.disk, vol.cap, inode.root, inode.depth, alloc.totalFree, block, path, target, runs, spare, g)
      invariant Since(before, alloc.geo, vol.disk, alloc.used, alloc.totalFree, inode.blocks, g.all, g.news)
      decreases at, g.Going()
    {
      ret, index, ptr, g := LinkLevel(vol, inode, alloc, path, at, index, ptr, hint, block, target, before, runs, spare, g);
      at := if ret == OK && ptr != 0 then at - 1 else at;
    }
  }

  /** One level of the way up. */
  method LinkLevel(vol: Volume, inode: Inode, alloc: BlockAllocator, path: seq<Step>, at: nat, index: nat, ptr: nat, hint: int,
                   ghost block: nat, ghost target: set<Extent>, ghost before: Before, ghost runs: seq<nat>, ghost spare: int,
                   ghost g: Stage)
    returns (ret: int, index': nat, ptr': nat, ghost g': Stage)
    requires alloc.Valid() && vol.cap > ROOT_CAP && spare >= 0 && Counting(runs)
    requires g.Going() && g.at == at && g.index == index && g.ptr == ptr
    requires AtStage(vol.disk, vol.cap, inode.root, inode.depth, alloc.totalFree, block, path, target, runs, spare, g)
    requires Since(before, alloc.geo, vol.disk, alloc.used, alloc.totalFree, inode.blocks, g.all, g.news)
    modifies vol`disk, inode`root, inode`blocks, alloc`bitmaps, alloc`groupFree, alloc`totalFree, alloc`used
    ensures alloc.Valid() && g'.ret == ret && g'.index == index' && g'.ptr == ptr'
    ensures if g'.Going() then at > 0 && g'.at == at - 1 else g'.at == at
    ensures AtStage(vol.disk, vol.cap, inode.root, inode.depth, alloc.totalFree, block, path, target, runs, spare, g')
    ensures Since(before, alloc.geo, vol.disk, alloc.used, alloc.totalFree, inode.blocks, g'.all, g'.news)
  {
    ghost var all, news;
    StageOpen(vol.disk, vol.cap, inode.root, inode.depth, alloc.totalFree, block, path, target, runs, spare, g);
    ret, index', ptr', all, news := LinkStep(vol, inode, alloc, path, index, ptr, hint, g, block, target, before, runs, at);
    g' := StageAfter(g, ret, index', ptr', all, news, old(alloc.totalFree), alloc.totalFree, vol.disk, vol.cap, inode.root, inode.depth,
                     block, path, target, runs, spare);
  }

  lemma StageOpen(d: Disk, cap: nat, root: Node, depth: nat, free: int, block: nat, path: seq<Step>, target: set<Extent>,
                  runs: seq<nat>, spare: int, g: Stage)
    requires AtStage(d, cap, root, depth, free, block, path, target, runs, spare, g) && g.Going() && spare >= 0
    ensures HalfDone(d, cap, root, depth, block, path, g.at, g.h, g.index, g.ptr, target, g.all)
    ensures g.at + 1 < |runs| && RoomIs(d, root, path, runs, g.at + 1) && (runs[g.at + 1] > 0 ==> free > 0)
  {
  }

  /** The stage after a step up from the stage `g`. */
  lemma StageAfter(g: Stage, ret: int, idx: nat, ptr: nat, all: set<nat>, news: seq<nat>, free: int, free': int, d: Disk, cap: nat, root: Node,
                   depth: nat, block: nat, path: seq<Step>, target: set<Extent>, runs: seq<nat>, spare: int)
    returns (g': Stage)
    requires g.Going() && |path| == |runs| == depth + 1 && g.at < depth && Counting(runs) && free == spare + runs[g.at + 1]
    requires ret != OK || ptr == 0 ==>
               && free' == free && (runs[g.at + 1] > 0 <==> ret != OK) && (ret != OK ==> g.at == 0)
               && LinkOutcome(d, cap, root, depth, block, path, ret, idx, ptr, target, all)
    requires ret == OK && ptr != 0 ==>
               && g.at > 0 && free' == free - 1 && runs[g.at + 1] > 0 && RoomIs(d, root, path, runs, g.at)
               && HalfDone(d, cap, root, depth, block, path, g.at - 1, g.h + 1, idx, ptr, target, all)
    ensures g'.ret == ret && g'.index == idx && g'.ptr == ptr && g'.all == all && g'.news == news
    ensures if g'.Going() then g.at > 0 && g'.at == g.at - 1 else g'.at == g.at
    ensures AtStage(d, cap, root, depth, free', block, path, target, runs, spare, g')
  {
    g' := if ret == OK && ptr != 0 then Stage(g.at - 1, g.h + 1, ret, idx, ptr, all, news)
          else Stage(g.at, g.h, ret, idx, ptr, all, news);
  }

  /** The same, in terms of the tree: links the sibling, or splits the full node, or finds the root full. */
  method LinkStep(vol: Volume, inode: Inode, alloc: BlockAllocator, path: seq<Step>, index: nat, ptr: nat, hint: int,
                  ghost g: Stage, ghost block: nat, ghost target: set<Extent>, ghost before: Before, ghost runs: seq<nat>, at: nat)
    returns (ret: int, index': nat, ptr': nat, ghost all': set<nat>, ghost news': seq<nat>)
    requires |path| == |runs| == inode.depth + 1 && g.at == at < inode.depth && index == g.index && ptr == g.ptr
    requires HalfDone(vol.disk, vol.cap, inode.root, inode.depth, block, path, at, g.h, index, ptr, target, g.all)
    requires alloc.Valid() && vol.cap > ROOT_CAP && RoomIs(vol.disk, inode.root, path, runs, at + 1)
    requires at > 0 && runs[at + 1] > 0 ==> alloc.totalFree > 0
    requires Since(before, alloc.geo, vol.disk, alloc.used, alloc.totalFree, inode.blocks, g.all, g.news)
    modifies vol`disk, inode`root, inode`blocks, alloc`bitmaps, alloc`groupFree, alloc`totalFree, alloc`used
    ensures alloc.Valid()
    ensures Since(before, alloc.geo, vol.disk, alloc.used, alloc.totalFree, inode.blocks, all', news')
    ensures ret != OK || ptr' == 0 ==>
              && alloc.totalFree == old(alloc.totalFree) && (runs[at + 1] > 0 <==> ret != OK) && (ret != OK ==> at == 0)
              && LinkOutcome(vol.disk, vol.cap, inode.root, inode.depth, block, path, ret, index', ptr', target, all')
    ensures ret == OK && ptr' != 0 ==>
              && at > 0 && alloc.totalFree == old(alloc.totalFree) - 1 && runs[at + 1] > 0
              && RoomIs(vol.disk, inode.root, path, runs, at)
              && HalfDone(vol.disk, vol.cap, inode.root, inode.depth, block, path, at - 1, g.h + 1, index', ptr', target, all')
  {
    ghost var d, root, used, free, blocks, all := vol.disk, inode.root, alloc.used, alloc.totalFree, inode.blocks, g.all;
    LevelRoom(d, vol.cap, root, inode.depth, block, path, at, g.h, index, ptr, target, all);
    ret, index', ptr' := InsertIndex(vol, inode, alloc, path, at, index, ptr, hint, g.h, block, target, all);
    all', news' := all, g.news;
    if ptr' == 0 {
      SinceSame(before, alloc.geo, d, vol.disk, used, free, blocks, all, g.news);
      if ret != OK {
        index', ptr' := index, ptr;
      }
    } else {
      all', news' := all + {ptr'}, g.news + [ptr'];
      SinceTook(before, alloc.geo, d, used, alloc.used, free, alloc.totalFree, blocks, inode.blocks, all, g.news, ptr', vol.disk);
      RoomStays(d, root, vol.disk, root, path, runs, at);
    }
  }

  /** The node where a sibling waits is full exactly when it has as many entries as its kind of node can have. */
  lemma LevelRoom(d: Disk, cap: nat, root: Node, depth: nat, block: nat, path: seq<Step>, at: nat, h: nat,
                  idx: nat, q: nat, target: set<Extent>, all: set<nat>)
    requires HalfDone(d, cap, root, depth, block, path, at, h, idx, q, target, all)
    ensures FullAt(d, root, path, at) <==> NodeAt(d, root, path, at).Count() == if at == 0 then ROOT_CAP else cap
  {
    if at > 0 {
      NodeCap(d, cap, root, depth, block, path, at, h);
    }
  }

  /** A complete tree, or a full root where a sibling still waits. */
  ghost predicate LinkOutcome(d: Disk, cap: nat, root: Node, depth: nat, block: nat, path: seq<Step>,
                              ret: int, idx: nat, ptr: nat, target: set<Extent>, all: set<nat>) {
    if ret == OK then Complete(d, cap, root, depth, target, all)
    else && ret == NEED_GROW
         && HalfDone(d, cap, root, depth, block, path, 0, depth, idx, ptr, target, all)
         && root.Count() == ROOT_CAP
  }

  lemma KeepsTwice(d0: Disk, d1: Disk, d2: Disk, s: set<nat>, t: set<nat>)
    requires KeepsOthers(d0, d1, s) && KeepsOthers(d1, d2, t) && s <= t
    ensures KeepsOthers(d0, d2, t)
  {
    forall b | b in d0 && b !in t
      ensures b in d2 && d2[b] == d0[b]
    {
      assert b in d1 && d1[b] == d0[b];
    }
  }

  /** How many levels are full from the leaf upwards, as counted before an insertion. */
  method Level(vol: Volume, inode: Inode, path: seq<Step>) returns (level: nat)
    requires |path| == inode.depth + 1
    ensures level == FullLevels(vol.disk, inode.root, path, inode.depth + 1)
  {
    var i: int := inode.depth;
    level := 0;
    while i >= 0 && FullAt(vol.disk, inode.root, path, i)
      invariant -1 <= i <= inode.depth
      invariant level + FullLevels(vol.disk, inode.root, path, i + 1) == FullLevels(vol.disk, inode.root, path, inode.depth + 1)
    {
      i, level := i - 1, level + 1;
    }
  }

  // ---------------------------------------------------------------- growing and trying again

  lemma GrewNone(geo: Geometry, used: set<nat>, free: int, blocks: int, all: set<nat>)
    requires all <= used
    ensures Grew(geo, used, used, free, free, blocks, blocks, all, all)
  {
    assert GrewBy(geo, used, used, free, free, blocks, blocks, all, all, []);
  }

  /** The full root leaf moves into a block of its own, where the extent is inserted. */
  method GrowLeaf(vol: Volume, inode: Inode, alloc: BlockAllocator, path: seq<Step>, e: Extent, hint: int)
    returns (err: int, ghost target: set<Extent>, ghost block: nat)
    requires inode.depth == 0 && Ready(vol.disk, vol.cap, inode.root, 0, path, e)
    requires LeafFull(vol.disk, inode.root, 0, path) && !PrependApplies(vol.disk, inode.root, 0, path, e)
    requires alloc.Valid()
    modifies vol`disk, inode`root, inode`depth, inode`blocks, alloc`bitmaps, alloc`groupFree, alloc`totalFree, alloc`used
    ensures alloc.Valid() && err == if old(alloc.totalFree) > 0 then OK else ENOSPC
    ensures err == OK ==>
              && Added(old(Exts(vol.disk, inode.root, 0)), e, target) && target == old(Target(vol.disk, inode.root, 0, path, e))
              && Complete(vol.disk, vol.cap, inode.root, inode.depth, target, {block})
              && KeepsOthers(old(vol.disk), vol.disk, {block})
              && block != 0 && !Head(alloc.geo, block)
              && Took(old(alloc.used), alloc.used, old(alloc.totalFree), alloc.totalFree, old(inode.blocks), inode.blocks, block)
    ensures err != OK ==>
              && vol.disk == old(vol.disk) && inode.root == old(inode.root) && inode.depth == old(inode.depth)
              && alloc.used == old(alloc.used) && alloc.totalFree == old(alloc.totalFree) && inode.blocks == old(inode.blocks)
  {
    var nb;
    err, nb := GrowIndepth(vol, inode, alloc);
    target, block := {}, nb;
    if err == OK {
      target := FillGrown(vol, inode, alloc, path, e, hint, old(vol.disk), old(inode.root), nb);
    }
  }

  /** Inserts the extent into the leaf `nb`, which `root` became. */
  method FillGrown(vol: Volume, inode: Inode, alloc: BlockAllocator, ghost path: seq<Step>, e: Extent, hint: int,
                   ghost d: Disk, ghost root: Node, ghost nb: nat)
    returns (ghost target: set<Extent>)
    requires Ready(d, vol.cap, root, 0, path, e) && LeafFull(d, root, 0, path) && !PrependApplies(d, root, 0, path, e)
    requires vol.disk == d[nb := InBlock(root, vol.cap)] && inode.root == NewRoot(root, nb) && inode.depth == 1
    requires alloc.Valid() && nb in alloc.used && nb != 0
    modifies vol`disk, inode`root, inode`blocks, alloc`bitmaps, alloc`groupFree, alloc`totalFree, alloc`used
    ensures alloc.Valid() && Added(Exts(d, root, 0), e, target) && target == Target(d, root, 0, path, e)
    ensures Complete(vol.disk, vol.cap, inode.root, inode.depth, target, {nb}) && KeepsOthers(d, vol.disk, {nb})
    ensures alloc.used == old(alloc.used) && alloc.totalFree == old(alloc.totalFree) && inode.blocks == old(inode.blocks)
  {
    GrowGood(d, vol.cap, root, 0, nb);
    var path' := FindExtent(vol, inode, e.block);
    GrowFits(d, vol.disk, vol.cap, root, path, path', e, nb);
    ghost var d1 := vol.disk;
    var ret, newIndex, newPtr;
    ret, newIndex, newPtr, target := InsertLeaf(vol, inode, alloc, path', e, hint);
    KeepsTwice(d, d1, vol.disk, {nb}, {nb});
  }

  /** The full index root moves into a block of its own, where the waiting sibling is linked. */
  method GrowIndex(vol: Volume, inode: Inode, alloc: BlockAllocator, path: seq<Step>, block: nat, index: nat, ptr: nat,
                   hint: int, ghost target: set<Extent>, ghost all: set<nat>)
    returns (ghost nb: nat)
    requires HalfDone(vol.disk, vol.cap, inode.root, inode.depth, block, path, 0, inode.depth, index, ptr, target, all)
    requires inode.root.Count() == ROOT_CAP && vol.cap > ROOT_CAP
    requires alloc.Valid() && alloc.totalFree > 0 && all <= alloc.used
    modifies vol`disk, inode`root, inode`depth, inode`blocks, alloc`bitmaps, alloc`groupFree, alloc`totalFree, alloc`used
    ensures alloc.Valid()
    ensures Complete(vol.disk, vol.cap, inode.root, inode.depth, target, all + {nb})
    ensures KeepsOthers(old(vol.disk), vol.disk, all + {nb})
    ensures nb != 0 && !Head(alloc.geo, nb)
    ensures Took(old(alloc.used), alloc.used, old(alloc.totalFree), alloc.totalFree, old(inode.blocks), inode.blocks, nb)
  {
    ghost var d, root, depth := vol.disk, inode.root, inode.depth;
    var err, b := GrowIndepth(vol, inode, alloc);
    assert b !in all;
    GrowGood(d, vol.cap, root, depth, b);
    var path' := FindExtent(vol, inode, block);
    GrowInFlight(d, vol.disk, vol.cap, root, depth, block, path, path', index, ptr, target, b);
    ghost var d1 := vol.disk;
    var ret, newIndex, newPtr := InsertIndex(vol, inode, alloc, path', 1, index, ptr, hint, depth, block, target, all + {b});
    KeepsTwice(d, d1, vol.disk, all + {b}, all + {b});
    nb := b;
  }

  /**
   Inserts an extent over unmapped blocks into the tree, through any number of splits and a
   growth of the tree.  It takes one block for each full node from the leaf upwards, and none if
   the extent is appended to the one found.  If it needs blocks and none is free, it fails and
   nothing changes.
   */
  method InsertPlain(vol: Volume, inode: Inode, alloc: BlockAllocator, path: seq<Step>, e: Extent, hint: int)
    returns (err: int, ghost target: set<Extent>, ghost all: set<nat>)
    requires Ready(vol.disk, vol.cap, inode.root, inode.depth, path, e)
    requires !PrependApplies(vol.disk, inode.root, inode.depth, path, e)
    requires alloc.Valid() && Blks(vol.disk, inode.root, inode.depth) <= alloc.used
    requires alloc.totalFree > 0 ==> alloc.totalFree >= Needs(vol.disk, inode.root, inode.depth, path, e)
    modifies vol`disk, inode`root, inode`depth, inode`blocks, alloc`bitmaps, alloc`groupFree, alloc`totalFree, alloc`used
    ensures alloc.Valid()
    ensures err == if old(alloc.totalFree >= Needs(vol.disk, inode.root, inode.depth, path, e)) then OK else ENOSPC
    ensures err == OK ==>
              && Added(old(Exts(vol.disk, inode.root, inode.depth)), e, target)
              && target == old(Target(vol.disk, inode.root, inode.depth, path, e))
              && Complete(vol.disk, vol.cap, inode.root, inode.depth, target, all)
              && Grew(alloc.geo, old(alloc.used), alloc.used, old(alloc.totalFree), alloc.totalFree,
                      old(inode.blocks), inode.blocks, old(Blks(vol.disk, inode.root, inode.depth)), all)
              && KeepsOthers(old(vol.disk), vol.disk, all)
              && alloc.totalFree == old(alloc.totalFree) - old(Needs(vol.disk, inode.root, inode.depth, path, e))
    ensures err != OK ==>
              && vol.disk == old(vol.disk) && inode.root == old(inode.root) && inode.depth == old(inode.depth)
              && alloc.used == old(alloc.used) && alloc.totalFree == old(alloc.totalFree) && inode.blocks == old(inode.blocks)
  {
    ghost var before := Before(vol.disk, alloc.used, alloc.totalFree, inode.blocks, Blks(vol.disk, inode.root, inode.depth));
    ghost var root, depth := inode.root, inode.depth;
    LeafNeeds(vol.disk, root, depth, path, e);
    var index, ptr;
    all := before.all;
    err, index, ptr, target := InsertLeaf(vol, inode, alloc, path, e, hint);
    if err == NEED_GROW {
      err, target, all := InsertGrown(vol, inode, alloc, path, e, hint, before);
    } else if err == OK && ptr != 0 {
      SameLevels(before.disk, root, path, vol.disk, inode.root, path, depth);
      all := InsertLinked(vol, inode, alloc, path, index, ptr, hint, e.block, target, before);
    } else if err == OK {
      GrewNone(alloc.geo, before.used, before.free, before.blocks, before.all);
    }
  }

  /** The end of an insertion into a full root leaf: the tree grows. */
  method InsertGrown(vol: Volume, inode: Inode, alloc: BlockAllocator, path: seq<Step>, e: Extent, hint: int, ghost before: Before)
    returns (err: int, ghost target: set<Extent>, ghost all: set<nat>)
    requires inode.depth == 0 && Ready(vol.disk, vol.cap, inode.root, 0, path, e)
    requires LeafFull(vol.disk, inode.root, 0, path) && !PrependApplies(vol.disk, inode.root, 0, path, e)
    requires alloc.Valid() && before == Before(vol.disk, alloc.used, alloc.totalFree, inode.blocks, {})
    modifies vol`disk, inode`root, inode`depth, inode`blocks, alloc`bitmaps, alloc`groupFree, alloc`totalFree, alloc`used
    ensures alloc.Valid() && err == if before.free > 0 then OK else ENOSPC
    ensures err == OK ==>
              && Added(old(Exts(vol.disk, inode.root, 0)), e, target) && target == old(Target(vol.disk, inode.root, 0, path, e))
              && Complete(vol.disk, vol.cap, inode.root, inode.depth, target, all)
              && Grew(alloc.geo, before.used, alloc.used, before.free, alloc.totalFree, before.blocks, inode.blocks, before.all, all)
              && KeepsOthers(before.disk, vol.disk, all) && alloc.totalFree == before.free - 1
    ensures err != OK ==>
              && vol.disk == old(vol.disk) && inode.root == old(inode.root) && inode.depth == old(inode.depth)
              && alloc.used == old(alloc.used) && alloc.totalFree == old(alloc.totalFree) && inode.blocks == old(inode.blocks)
  {
    ghost var b;
    err, target, b := GrowLeaf(vol, inode, alloc, path, e, hint);
    all := {b};
    if err == OK {
      SinceNone(before, alloc.geo);
      SinceTook(before, alloc.geo, before.disk, before.used, alloc.used, before.free, alloc.totalFree, before.blocks, inode.blocks,
                {}, [], b, vol.disk);
      assert {} + {b} == all;
      assert GrewBy(alloc.geo, before.used, alloc.used, before.free, alloc.totalFree, before.blocks, inode.blocks, {}, all, [] + [b]);
    }
  }

  /** The end of an insertion that split the leaf: the new leaf `ptr` is linked. */
  method InsertLinked(vol: Volume, inode: Inode, alloc: BlockAllocator, path: seq<Step>, index: nat, ptr: nat, hint: int, block: nat,
                      ghost target: set<Extent>, ghost before: Before)
    returns (ghost all: set<nat>)
    requires inode.depth > 0 && ptr != 0 && !Head(alloc.geo, ptr) && before.all <= before.used
    requires HalfDone(vol.disk, vol.cap, inode.root, inode.depth, block, path, inode.depth - 1, 1, index, ptr, target, before.all + {ptr})
    requires alloc.Valid() && vol.cap > ROOT_CAP && |path| == inode.depth + 1
    requires alloc.totalFree >= FullLevels(vol.disk, inode.root, path, inode.depth)
    requires Took(before.used, alloc.used, before.free, alloc.totalFree, before.blocks, inode.blocks, ptr)
    requires KeepsOthers(before.disk, vol.disk, before.all + {ptr})
    modifies vol`disk, inode`root, inode`depth, inode`blocks, alloc`bitmaps, alloc`groupFree, alloc`totalFree, alloc`used
    ensures alloc.Valid() && Complete(vol.disk, vol.cap, inode.root, inode.depth, target, all)
    ensures Grew(alloc.geo, before.used, alloc.used, before.free, alloc.totalFree, before.blocks, inode.blocks, before.all, all)
    ensures KeepsOthers(before.disk, vol.disk, all)
    ensures alloc.totalFree == old(alloc.totalFree) - old(FullLevels(vol.disk, inode.root, path, inode.depth))
  {
    ghost var news;
    SinceNone(before, alloc.geo);
    SinceTook(before, alloc.geo, before.disk, before.used, alloc.used, before.free, alloc.totalFree, before.blocks, inode.blocks,
              before.all, [], ptr, vol.disk);
    all, news := LinkOrGrow(vol, inode, alloc, path, index, ptr, hint, block, target, before.all + {ptr}, before, [] + [ptr]);
    assert GrewBy(alloc.geo, before.used, alloc.used, before.free, alloc.totalFree, before.blocks, inode.blocks, before.all, all, news);
  }

  /** What an insertion needs, by what happens to the leaf. */
  lemma LeafNeeds(d: Disk, root: Node, depth: nat, path: seq<Step>, e: Extent)
    requires Found(d, root, depth, e.block, path) && !PrependApplies(d, root, depth, path, e)
    ensures Needs(d, root, depth, path, e)
         == if Appends(d, root, depth, path, e) || !LeafFull(d, root, depth, path) then 0 else 1 + FullLevels(d, root, path, depth)
  {
  }

  /** Links a new leaf into the tree, growing the tree if all nodes on the path are full. */
  method LinkOrGrow(vol: Volume, inode: Inode, alloc: BlockAllocator, path: seq<Step>, index0: nat, ptr0: nat,
                    hint: int, block: nat, ghost target: set<Extent>, ghost all1: set<nat>, ghost before: Before,
                    ghost news1: seq<nat>)
    returns (ghost all: set<nat>, ghost news: seq<nat>)
    requires inode.depth > 0 && ptr0 != 0
    requires HalfDone(vol.disk, vol.cap, inode.root, inode.depth, block, path, inode.depth - 1, 1, index0, ptr0, target, all1)
    requires alloc.Valid() && vol.cap > ROOT_CAP && |path| == inode.depth + 1
    requires alloc.totalFree >= FullLevels(vol.disk, inode.root, path, inode.depth)
    requires Since(before, alloc.geo, vol.disk, alloc.used, alloc.totalFree, inode.blocks, all1, news1)
    modifies vol`disk, inode`root, inode`depth, inode`blocks, alloc`bitmaps, alloc`groupFree, alloc`totalFree, alloc`used
    ensures alloc.Valid()
    ensures Complete(vol.disk, vol.cap, inode.root, inode.depth, target, all)
    ensures Since(before, alloc.geo, vol.disk, alloc.used, alloc.totalFree, inode.blocks, all, news)
    ensures alloc.totalFree == old(alloc.totalFree) - old(FullLevels(vol.disk, inode.root, path, inode.depth))
  {
    var ret, index, ptr;
    ghost var runs := Runs(vol.disk, inode.root, path, inode.depth);
    ghost var g := Stage(inode.depth - 1, 1, OK, index0, ptr0, all1, news1);
    ret, index, ptr, g := LinkUpwards(vol, inode, alloc, path, index0, ptr0, hint, block, target, before, runs,
                                      alloc.totalFree - runs[inode.depth], g);
    all, news := g.all, g.news;
    if ret != OK {
      ghost var used1, free1, blocks1, d1 := alloc.used, alloc.totalFree, inode.blocks, vol.disk;
      ghost var b := GrowIndex(vol, inode, alloc, path, block, index, ptr, hint, target, all);
      SinceTook(before, alloc.geo, d1, used1, alloc.used, free1, alloc.totalFree, blocks1, inode.blocks, all, news, b, vol.disk);
      all, news := all + {b}, news + [b];
    }
  }
}
