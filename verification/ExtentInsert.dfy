/**
 Inserting an extent: into the leaf found, splitting full nodes on the way up, correcting index
 keys, and growing the tree when the root is full.
 */
module ExtentInsert {
  import opened ExtentNodes
  import opened ExtentPaths
  import opened ExtentMap
  import opened ExtentEdit
  import opened ExtentLeaf
  import opened ExtentSplit
  import opened ExtentCorrect
  import opened ExtentRoom
  import opened Volumes
  import opened BlockAlloc

  /* Returned when the root is full and the tree has to grow. */
  const NEED_GROW: int := 1

  /** All blocks but those of `own` keep their node. */
  ghost predicate KeepsOthers(d: Disk, d': Disk, own: set<nat>) {
    forall b {:trigger b in d'} {:trigger d'[b]} :: b in d && b !in own ==> b in d' && d'[b] == d[b]
  }

  /** At most the block `ptr` was allocated, and the counts moved with it. */
  ghost predicate Took(used: set<nat>, used': set<nat>, free: int, free': int, blocks: int, blocks': int, ptr: nat) {
    if ptr == 0 then used' == used && free' == free && blocks' == blocks
    else ptr !in used && used' == used + {ptr} && free' == free - 1 && blocks' == blocks + 1
  }

  /** Allocates one tree block near `hint`; fails when no block is free. */
  method NewTreeBlock(alloc: BlockAllocator, inode: Inode, hint: int) returns (err: int, block: nat)
    requires alloc.Valid()
    modifies alloc`bitmaps, alloc`groupFree, alloc`totalFree, alloc`used, inode`blocks
    ensures alloc.Valid() && err == if old(alloc.totalFree) > 0 then OK else ENOSPC
    ensures err == OK ==>
              && block != 0 && block !in old(alloc.used) && alloc.used == old(alloc.used) + {block} && !Head(alloc.geo, block)
              && alloc.totalFree == old(alloc.totalFree) - 1 && inode.blocks == old(inode.blocks) + 1
              && (alloc.geo.first <= hint < alloc.geo.Start(alloc.geo.groups) ==>
                    FirstFit(alloc.geo, old(alloc.bitmaps), old(alloc.groupFree), hint, block))
    ensures err != OK ==>
              block == 0 && alloc.used == old(alloc.used) && alloc.totalFree == old(alloc.totalFree) && inode.blocks == old(inode.blocks)
  {
    // the hint only picks the group where the search begins
    var len;
    err, block, len := alloc.NewMetaBlocks(inode, GoalOf(alloc.geo, hint), 1);
  }

  // ---------------------------------------------------------------- index entries

  /** As `InFlight`, with `all` the blocks of the tree and of the waiting subtree. */
  ghost predicate HalfDone(d: Disk, cap: nat, root: Node, depth: nat, block: nat, path: seq<Step>,
                           at: nat, h: nat, idx: nat, q: nat, target: set<Extent>, all: set<nat>) {
    && InFlight(d, cap, root, depth, block, path, at, h, idx, q, target)
    && Blks(d, root, depth) + Sub(d, q, h) == all
  }

  /** A well-formed tree that holds exactly `target` in the blocks `all`. */
  ghost predicate Complete(d: Disk, cap: nat, root: Node, depth: nat, target: set<Extent>, all: set<nat>) {
    && GoodTree(d, cap, root, depth)
    && Exts(d, root, depth) == target
    && Blks(d, root, depth) == all
  }

  /**
   Inserts the entry of a new sibling into the node at level `at`, splitting the node if it is
   full.  A full root asks for the tree to grow instead.
   */
  method InsertIndex(vol: Volume, inode: Inode, alloc: BlockAllocator, path: seq<Step>, at: nat, index: nat, ptr: nat,
                     hint: int, ghost h: nat, ghost block: nat, ghost target: set<Extent>, ghost all: set<nat>)
    returns (ret: int, newIndex: nat, newPtr: nat)
    requires HalfDone(vol.disk, vol.cap, inode.root, inode.depth, block, path, at, h, index, ptr, target, all)
    requires alloc.Valid() && all <= alloc.used && vol.cap >= ROOT_CAP
    requires at > 0 && NodeAt(vol.disk, inode.root, path, at).Count() == vol.cap ==> alloc.totalFree > 0
    modifies vol`disk, inode`root, inode`blocks, alloc`bitmaps, alloc`groupFree, alloc`totalFree, alloc`used
    ensures alloc.Valid()
    ensures newPtr != 0 <==> at > 0 && old(NodeAt(vol.disk, inode.root, path, at).Count()) == vol.cap
    ensures ret == if at == 0 && old(inode.root).Count() == ROOT_CAP then NEED_GROW else OK
    ensures ret == NEED_GROW ==> vol.disk == old(vol.disk) && inode.root == old(inode.root) && newPtr == 0
    ensures ret == OK && newPtr == 0 ==>
              && Complete(vol.disk, vol.cap, inode.root, inode.depth, target, all)
              && KeepsOthers(old(vol.disk), vol.disk, all)
    ensures ret == OK && newPtr != 0 ==>
              && at > 0 && !Head(alloc.geo, newPtr)
              && HalfDone(vol.disk, vol.cap, inode.root, inode.depth, block, path, at - 1, h + 1,
                          newIndex, newPtr, target, all + {newPtr})
              && KeepsOthers(old(vol.disk), vol.disk, all + {newPtr})
              && inode.root == old(inode.root) && SameRoom(old(vol.disk), inode.root, path, vol.disk, inode.root, path, at)
    ensures Took(old(alloc.used), alloc.used, old(alloc.totalFree), alloc.totalFree, old(inode.blocks), inode.blocks, newPtr)
  {
    var n := NodeAt(vol.disk, inode.root, path, at);
    ret, newIndex, newPtr := OK, 0, 0;
    if at > 0 {
      NodeCap(vol.disk, vol.cap, inode.root, inode.depth, block, path, at, h);
    }
    if |n.ents| != n.max {
      AddEntry(vol, inode, path, at, index, ptr, h, block, target, all);
    } else if at == 0 {
      ret := NEED_GROW;
    } else {
      newIndex, newPtr := SplitIndexNode(vol, inode, alloc, path, at, index, ptr, hint, h, block, target, all);
    }
  }

  /** The node at level `at` has room: the entry goes right after the one taken. */
  method AddEntry(vol: Volume, inode: Inode, path: seq<Step>, at: nat, index: nat, ptr: nat,
                  ghost h: nat, ghost block: nat, ghost target: set<Extent>, ghost all: set<nat>)
    requires HalfDone(vol.disk, vol.cap, inode.root, inode.depth, block, path, at, h, index, ptr, target, all)
    requires NodeAt(vol.disk, inode.root, path, at).Count() != NodeAt(vol.disk, inode.root, path, at).max
    modifies vol`disk, inode`root
    ensures Complete(vol.disk, vol.cap, inode.root, inode.depth, target, all)
    ensures KeepsOthers(old(vol.disk), vol.disk, all)
  {
    ghost var d, root, depth := vol.disk, inode.root, inode.depth;
    var n := NodeAt(vol.disk, inode.root, path, at);
    var n' := n.(ents := Ins(n.ents, path[at].pos + 1, IndexEntry(index, ptr)));
    if at == 0 {
      LinkInRoot(d, vol.cap, root, depth, block, path, h, index, ptr, target);
      inode.root := n';
    } else {
      NodeCap(d, vol.cap, root, depth, block, path, at, h);
      vol.disk := vol.disk[path[at].blk := n'];
      LinkInBlock(d, vol.disk, vol.cap, root, depth, block, path, at, h, index, ptr, target);
    }
  }

  /** The node at level `at` is full: the entries after the one taken move to a new block. */
  method SplitIndexNode(vol: Volume, inode: Inode, alloc: BlockAllocator, path: seq<Step>, at: nat, index: nat, ptr: nat,
                        hint: int, ghost h: nat, ghost block: nat, ghost target: set<Extent>, ghost all: set<nat>)
    returns (newIndex: nat, newPtr: nat)
    requires at > 0
    requires HalfDone(vol.disk, vol.cap, inode.root, inode.depth, block, path, at, h, index, ptr, target, all)
    requires NodeAt(vol.disk, inode.root, path, at).Count() == NodeAt(vol.disk, inode.root, path, at).max
    requires alloc.Valid() && alloc.totalFree > 0 && all <= alloc.used && vol.cap >= ROOT_CAP
    modifies vol`disk, inode`blocks, alloc`bitmaps, alloc`groupFree, alloc`totalFree, alloc`used
    ensures alloc.Valid()
    ensures newPtr != 0 && newPtr !in old(alloc.used) && !Head(alloc.geo, newPtr)
    ensures HalfDone(vol.disk, vol.cap, inode.root, inode.depth, block, path, at - 1, h + 1,
                     newIndex, newPtr, target, all + {newPtr})
    ensures KeepsOthers(old(vol.disk), vol.disk, all + {newPtr})
    ensures SameRoom(old(vol.disk), inode.root, path, vol.disk, inode.root, path, at)
    ensures alloc.used == old(alloc.used) + {newPtr}
    ensures alloc.totalFree == old(alloc.totalFree) - 1 && inode.blocks == old(inode.blocks) + 1
  {
    ghost var d, root, depth := vol.disk, inode.root, inode.depth;
    var n, pos := NodeAt(vol.disk, inode.root, path, at), path[at].pos;
    NodeCap(d, vol.cap, root, depth, block, path, at, h);
    var err;
    err, newPtr := NewTreeBlock(alloc, inode, hint);
    var left, right := n.ents[..pos + 1], n.ents[pos + 1..];
    if |right| > |left| {
      left := left + [IndexEntry(index, ptr)];
    } else {
      right := [IndexEntry(index, ptr)] + right;
    }
    assert left + right == Ins(n.ents, pos + 1, IndexEntry(index, ptr));
    vol.disk := vol.disk[newPtr := Index(right, vol.cap)];
    vol.disk := vol.disk[path[at].blk := Index(left, vol.cap)];
    newIndex := right[0].key;
    SplitIndex(d, vol.disk, vol.cap, root, depth, block, path, at, h, index, ptr, target, left, right, newPtr);
    RoomAbove(d, vol.disk, vol.cap, root, depth, block, path, at, newPtr, Index(right, vol.cap), Index(left, vol.cap));
  }

  /** A tree block has the capacity of a block, and its number is one of the tree's blocks. */
  lemma NodeCap(d: Disk, cap: nat, root: Node, depth: nat, block: nat, path: seq<Step>, k: nat, h: nat)
    requires GoodTree(d, cap, root, depth) && 0 < k && k + h == depth && Chain(d, root, block, path, k)
    ensures NodeAt(d, root, path, k).max == cap && 0 < NodeAt(d, root, path, k).Count() <= cap
    ensures path[k].blk in Blks(d, root, depth)
  {
    GoodSubAt(d, cap, {}, root, depth, block, path, k, h + 1, 0, MAX_BLOCKS);
    assert path[k].blk in Sub(d, path[k].blk, h + 1);
  }

  // ---------------------------------------------------------------- index keys

  /** Writes `border` as the key of the entry taken at level `k`. */
  method SetKey(vol: Volume, inode: Inode, path: seq<Step>, k: nat, border: nat)
    requires k < |path| && (k == 0 || path[k].blk in vol.disk)
    requires NodeAt(vol.disk, inode.root, path, k).Index?
    requires path[k].pos < |NodeAt(vol.disk, inode.root, path, k).ents|
    modifies vol`disk, inode`root
    ensures k == 0 ==> vol.disk == old(vol.disk) && inode.root == Rekey(old(inode.root), path[0].pos, border)
    ensures k > 0 ==> inode.root == old(inode.root)
                      && vol.disk == old(vol.disk)[path[k].blk := Rekey(old(vol.disk)[path[k].blk], path[k].pos, border)]
  {
    var n := NodeAt(vol.disk, inode.root, path, k);
    var n' := n.(ents := n.ents[path[k].pos := IndexEntry(border, n.ents[path[k].pos].ptr)]);
    if k == 0 {
      inode.root := n';
    } else {
      vol.disk := vol.disk[path[k].blk := n'];
    }
  }

  /**
   The first extent of the leaf changed: its block becomes the key of the leaf's entry, and the
   key of each entry above as long as the entry below is the first one of its node.
   */
  method CorrectIndexes(vol: Volume, inode: Inode, path: seq<Step>, ghost d0: Disk, ghost block: nat,
                        ghost gone: set<Extent>, ghost come: set<Extent>) returns (ghost k: nat)
    requires inode.depth > 0 && GoodTree(d0, vol.cap, inode.root, inode.depth)
    requires |path| == inode.depth + 1 && Chain(d0, inode.root, block, path, inode.depth) && path[inode.depth].pos == 0
    requires path[inode.depth].blk in vol.disk && vol.disk[path[inode.depth].blk].Leaf?
             && |vol.disk[path[inode.depth].blk].exts| > 0
    requires vol.disk == d0[path[inode.depth].blk := vol.disk[path[inode.depth].blk]]
    requires var leaf := vol.disk[path[inode.depth].blk];
             && Lifted(d0, vol.disk, vol.cap, inode.root, leaf, inode.depth, block, path, inode.depth, 0,
                       leaf.exts[0].block, gone, come)
             && BorderOk(d0, inode.root, block, path, inode.depth, leaf.exts[0].block)
    modifies vol`disk, inode`root
    ensures k < inode.depth && GoodTree(vol.disk, vol.cap, inode.root, inode.depth)
    ensures Swapped(d0, vol.disk, old(inode.root), inode.root, inode.depth, gone, come)
    ensures Corrected(d0, old(inode.root), vol.disk, inode.root, inode.depth, block, path, k,
                      old(vol.disk)[path[inode.depth].blk].exts[0].block)
    ensures OffPath(d0, vol.disk, path, inode.depth)
    ensures path[inode.depth].blk in vol.disk
            && vol.disk[path[inode.depth].blk] == old(vol.disk)[path[inode.depth].blk]
  {
    ghost var root0, depth, cap := inode.root, inode.depth, vol.cap;
    ghost var leaf := vol.disk[path[depth].blk];
    var border := vol.disk[path[inode.depth].blk].exts[0].block;
    CorrectedLeaf(d0, vol.disk, cap, root0, depth, block, path, border, leaf);
    var level := inode.depth;
    ghost var nk := leaf;
    while level == inode.depth || (level > 0 && path[level].pos == 0)
      invariant 0 <= level <= depth && inode.depth == depth
      invariant Correcting(d0, root0, vol.disk, inode.root, nk, cap, depth, block, path, level, depth - level,
                           border, gone, come)
      invariant path[depth].blk in vol.disk && vol.disk[path[depth].blk] == leaf
      decreases level
    {
      level := level - 1;
      nk := CorrectKey(vol, inode, path, level, border, d0, root0, nk, block, gone, come);
    }
    LiftDone(d0, vol.disk, cap, root0, nk, depth, block, path, level, depth - level, border, gone, come);
    k := level;
  }

  /** One level of it. */
  method CorrectKey(vol: Volume, inode: Inode, path: seq<Step>, level: nat, border: nat, ghost d0: Disk, ghost root0: Node,
                    ghost nk: Node, ghost block: nat, ghost gone: set<Extent>, ghost come: set<Extent>) returns (ghost nk': Node)
    requires level < inode.depth && |path| == inode.depth + 1 && path[level + 1].pos == 0
    requires GoodTree(d0, vol.cap, root0, inode.depth)
    requires Correcting(d0, root0, vol.disk, inode.root, nk, vol.cap, inode.depth, block, path, level + 1, inode.depth - level - 1,
                        border, gone, come)
    requires path[inode.depth].blk in vol.disk
    modifies vol`disk, inode`root
    ensures Correcting(d0, root0, vol.disk, inode.root, nk', vol.cap, inode.depth, block, path, level, inode.depth - level,
                       border, gone, come)
    ensures path[inode.depth].blk in vol.disk && vol.disk[path[inode.depth].blk] == old(vol.disk)[path[inode.depth].blk]
  {
    ghost var d, root := vol.disk, inode.root;
    assert CorrectedAt(d0, root0, d, root, block, path, level, level + 1, border);
    SetKey(vol, inode, path, level, border);
    CorrectingStep(d0, root0, d, root, nk, vol.disk, inode.root, vol.cap, inode.depth, block, path, level + 1,
                   inode.depth - level - 1, border, gone, come);
    nk' := RekeyedAt(d0, root0, path, level, border);
  }

  // ---------------------------------------------------------------- leaves

  /** The leaf at the end of the path. */
  ghost function LeafAt(d: Disk, root: Node, depth: nat, path: seq<Step>): Node
    requires |path| == depth + 1 && (depth == 0 || path[depth].blk in d)
  {
    NodeAt(d, root, path, depth)
  }

  /** The path was found for the extent, which fits at its end. */
  ghost predicate Ready(d: Disk, cap: nat, root: Node, depth: nat, path: seq<Step>, e: Extent) {
    && GoodTree(d, cap, root, depth) && cap > ROOT_CAP
    && Found(d, root, depth, e.block, path)
    && Fits(d, root, depth, path, e)
  }

  /** Rewrites the extents of the leaf at the end of the path. */
  method SetLeaf(vol: Volume, inode: Inode, path: seq<Step>, exts: seq<Extent>)
    requires |path| == inode.depth + 1 && (inode.depth == 0 || path[inode.depth].blk in vol.disk)
    requires NodeAt(vol.disk, inode.root, path, inode.depth).Leaf?
    modifies vol`disk, inode`root
    ensures inode.depth == 0 ==> vol.disk == old(vol.disk) && inode.root == old(inode.root).(exts := exts)
    ensures inode.depth > 0 ==>
              && inode.root == old(inode.root)
              && vol.disk == old(vol.disk)[path[inode.depth].blk := old(vol.disk)[path[inode.depth].blk].(exts := exts)]
  {
    if inode.depth == 0 {
      inode.root := inode.root.(exts := exts);
    } else {
      var blk := path[inode.depth].blk;
      vol.disk := vol.disk[blk := vol.disk[blk].(exts := exts)];
    }
  }

  /** What a rewritten leaf means for the whole tree, when its first key stays in range. */
  lemma LeafRewritten(d: Disk, d': Disk, cap: nat, root: Node, root': Node, depth: nat, block: nat, path: seq<Step>,
                      exts: seq<Extent>)
    requires GoodTree(d, cap, root, depth) && Found(d, root, depth, block, path)
    requires SortedExts(exts, LoAt(d, root, block, path, depth, 0), HiAt(d, root, block, path, depth, MAX_BLOCKS))
    requires 0 < |exts| <= NodeAt(d, root, path, depth).max
    requires depth == 0 ==> d' == d && root' == root.(exts := exts)
    requires depth > 0 ==> root' == root && d' == d[path[depth].blk := d[path[depth].blk].(exts := exts)]
    ensures Complete(d', cap, root', depth,
                     Exts(d, root, depth) - Elems(NodeAt(d, root, path, depth).exts) + Elems(exts), Blks(d, root, depth))
    ensures KeepsOthers(d, d', Blks(d, root, depth))
  {
    if depth == 0 {
      WriteRootLeaf(d, cap, root, exts);
    } else {
      NodeCap(d, cap, root, depth, block, path, depth, 0);
      WriteLeaf(d, d', cap, root, depth, block, path, exts);
    }
  }

  /** The extents of the tree with `e` joined to the end of the one found. */
  ghost function Joined(d: Disk, root: Node, depth: nat, path: seq<Step>, e: Extent): set<Extent>
    requires |path| == depth + 1 && (depth == 0 || path[depth].blk in d)
    requires LeafAt(d, root, depth, path).Leaf? && path[depth].pos < |LeafAt(d, root, depth, path).exts|
  {
    var f := LeafAt(d, root, depth, path).exts[path[depth].pos];
    Exts(d, root, depth) - {f} + {Append(f, e)}
  }

  /** The extent found is continued by the new one: it grows. */
  method AppendToLeaf(vol: Volume, inode: Inode, path: seq<Step>, e: Extent) returns (ghost target: set<Extent>)
    requires Ready(vol.disk, vol.cap, inode.root, inode.depth, path, e)
    requires |LeafAt(vol.disk, inode.root, inode.depth, path).exts| > 0
    requires CanAppend(LeafAt(vol.disk, inode.root, inode.depth, path).exts[path[inode.depth].pos], e)
    modifies vol`disk, inode`root
    ensures Added(old(Exts(vol.disk, inode.root, inode.depth)), e, target)
    ensures target == old(Joined(vol.disk, inode.root, inode.depth, path, e))
    ensures Complete(vol.disk, vol.cap, inode.root, inode.depth, target, old(Blks(vol.disk, inode.root, inode.depth)))
    ensures KeepsOthers(old(vol.disk), vol.disk, old(Blks(vol.disk, inode.root, inode.depth)))
  {
    ghost var d, root, depth := vol.disk, inode.root, inode.depth;
    var leaf, pos := NodeAt(vol.disk, inode.root, path, inode.depth), path[inode.depth].pos;
    var exts := leaf.exts[pos := Append(leaf.exts[pos], e)];
    target := AppendTarget(d, vol.cap, root, depth, path, e);
    SetLeaf(vol, inode, path, exts);
    LeafRewritten(d, vol.disk, vol.cap, root, inode.root, depth, e.block, path, exts);
  }

  lemma AppendTarget(d: Disk, cap: nat, root: Node, depth: nat, path: seq<Step>, e: Extent) returns (target: set<Extent>)
    requires Ready(d, cap, root, depth, path, e)
    requires |LeafAt(d, root, depth, path).exts| > 0
    requires CanAppend(LeafAt(d, root, depth, path).exts[path[depth].pos], e)
    ensures Added(Exts(d, root, depth), e, target) && target == Joined(d, root, depth, path, e)
    ensures var leaf, pos := LeafAt(d, root, depth, path), path[depth].pos;
            var exts := leaf.exts[pos := Append(leaf.exts[pos], e)];
            && 0 < |exts| <= leaf.max
            && SortedExts(exts, LoAt(d, root, e.block, path, depth, 0), HiAt(d, root, e.block, path, depth, MAX_BLOCKS))
            && target == Exts(d, root, depth) - Elems(leaf.exts) + Elems(exts)
  {
    var leaf, pos := LeafAt(d, root, depth, path), path[depth].pos;
    var lo, hi := LoAt(d, root, e.block, path, depth, 0), HiAt(d, root, e.block, path, depth, MAX_BLOCKS);
    GoodAt(d, cap, {}, root, depth, e.block, path, depth, 0, 0, MAX_BLOCKS);
    NextInRange(d, cap, root, depth, path, e);
    AppendSorted(leaf.exts, pos, e, lo, hi);
    UpdateElems(leaf.exts, pos, Append(leaf.exts[pos], e), lo, hi);
    var f := leaf.exts[pos];
    assert f in Exts(d, leaf, 0);
    target := Exts(d, root, depth) - {f} + {Append(f, e)};
    SwapInside(Exts(d, root, depth), Elems(leaf.exts), {f}, {Append(f, e)});
  }

  /** The next bound lies within the range of the leaf. */
  lemma NextInRange(d: Disk, cap: nat, root: Node, depth: nat, path: seq<Step>, e: Extent)
    requires Ready(d, cap, root, depth, path, e)
    ensures e.End() <= HiAt(d, root, e.block, path, depth, MAX_BLOCKS)
  {
    var leaf, pos := LeafAt(d, root, depth, path), path[depth].pos;
    GoodAt(d, cap, {}, root, depth, e.block, path, depth, 0, 0, MAX_BLOCKS);
    if pos + 1 < |leaf.exts| {
      assert leaf.exts[pos + 1].End() <= HiAt(d, root, e.block, path, depth, MAX_BLOCKS);
    }
  }

  /** The leaf with the new extent in place: sorted, and where its first key may have moved. */
  lemma PlacedLeaf(d: Disk, cap: nat, root: Node, depth: nat, path: seq<Step>, e: Extent)
    requires Ready(d, cap, root, depth, path, e)
    ensures var leaf, pos := LeafAt(d, root, depth, path), path[depth].pos;
            var lo, hi := LoAt(d, root, e.block, path, depth, 0), HiAt(d, root, e.block, path, depth, MAX_BLOCKS);
            && (depth > 0 ==> |leaf.exts| > 0)
            && (|leaf.exts| > 0 ==> pos < |leaf.exts|)
            && var exts := Ins(leaf.exts, Place(leaf.exts, pos, e), e);
               && SortedExts(exts, Min(lo, exts[0].block), hi)
               && (depth == 0 || pos > 0 || e.block > leaf.exts[0].block ==> SortedExts(exts, lo, hi))
               && (depth > 0 && pos == 0 ==> BorderOk(d, root, e.block, path, depth, exts[0].block))
               && Elems(exts) == Elems(leaf.exts) + {e}
  {
    LeafFound(d, cap, root, depth, path, e);
    PlacedHere(LeafAt(d, root, depth, path).exts, path[depth].pos, e, LoAt(d, root, e.block, path, depth, 0),
               HiAt(d, root, e.block, path, depth, MAX_BLOCKS));
  }

  /** What is known of the leaf found. */
  lemma LeafFound(d: Disk, cap: nat, root: Node, depth: nat, path: seq<Step>, e: Extent)
    requires Ready(d, cap, root, depth, path, e)
    ensures var exts, pos := LeafAt(d, root, depth, path).exts, path[depth].pos;
            var lo, hi := LoAt(d, root, e.block, path, depth, 0), HiAt(d, root, e.block, path, depth, MAX_BLOCKS);
            && (depth > 0 ==> |exts| > 0) && (depth == 0 ==> lo == 0)
            && SortedExts(exts, lo, hi) && PlaceFree(exts, pos, e, hi)
  {
    GoodAt(d, cap, {}, root, depth, e.block, path, depth, 0, 0, MAX_BLOCKS);
    if depth > 0 {
      GoodSubAt(d, cap, {}, root, depth, e.block, path, depth, 1, 0, MAX_BLOCKS);
    }
    NextInRange(d, cap, root, depth, path, e);
  }

  /** The extent overlaps neither the one found nor the next one nor the end of the range. */
  ghost predicate PlaceFree(exts: seq<Extent>, pos: nat, e: Extent, hi: int) {
    && e.Len() > 0 && e.End() <= hi
    && (|exts| > 0 ==>
          && ChosenExt(exts, pos, e.block)
          && (exts[pos].End() <= e.block || e.End() <= exts[pos].block))
    && (pos + 1 < |exts| ==> e.End() <= exts[pos + 1].block)
  }

  lemma PlacedHere(leaf: seq<Extent>, pos: nat, e: Extent, lo: int, hi: int)
    requires SortedExts(leaf, lo, hi) && PlaceFree(leaf, pos, e, hi)
    ensures |leaf| > 0 ==> pos < |leaf|
    ensures var exts := Ins(leaf, Place(leaf, pos, e), e);
            && SortedExts(exts, Min(lo, exts[0].block), hi)
            && (lo <= e.block || (|leaf| > 0 && (pos > 0 || e.block > leaf[0].block)) ==> SortedExts(exts, lo, hi))
            && (exts[0].block == e.block || (lo <= exts[0].block < e.block))
            && Elems(exts) == Elems(leaf) + {e}
  {
    PlaceSorted(leaf, pos, e, lo, hi);
    InsElems(leaf, Place(leaf, pos, e), e);
  }

  /** The leaf has room: the extent goes to its place, and index keys follow a new first key. */
  method AddToLeaf(vol: Volume, inode: Inode, path: seq<Step>, e: Extent)
    requires Ready(vol.disk, vol.cap, inode.root, inode.depth, path, e)
    requires |LeafAt(vol.disk, inode.root, inode.depth, path).exts| < LeafAt(vol.disk, inode.root, inode.depth, path).max
    modifies vol`disk, inode`root
    ensures Complete(vol.disk, vol.cap, inode.root, inode.depth,
                     old(Exts(vol.disk, inode.root, inode.depth)) + {e}, old(Blks(vol.disk, inode.root, inode.depth)))
    ensures KeepsOthers(old(vol.disk), vol.disk, old(Blks(vol.disk, inode.root, inode.depth)))
  {
    ghost var d, root, depth := vol.disk, inode.root, inode.depth;
    var leaf, pos := NodeAt(vol.disk, inode.root, path, inode.depth), path[inode.depth].pos;
    PlacedLeaf(d, vol.cap, root, depth, path, e);
    var exts := Ins(leaf.exts, Place(leaf.exts, pos, e), e);
    LeafGain(d, vol.cap, root, depth, path, e, exts);
    SetLeaf(vol, inode, path, exts);
    if inode.depth > 0 && pos == 0 {
      NodeCap(d, vol.cap, root, depth, e.block, path, depth, 0);
      LiftLeaf(d, vol.disk, vol.cap, root, depth, e.block, path, exts, exts[0].block);
      ghost var k := CorrectIndexes(vol, inode, path, d, e.block, Elems(leaf.exts), Elems(exts));
      OffPathKeeps(d, vol.disk, vol.cap, root, depth, e.block, path);
    } else {
      LeafRewritten(d, vol.disk, vol.cap, root, inode.root, depth, e.block, path, exts);
    }
  }

  lemma LeafGain(d: Disk, cap: nat, root: Node, depth: nat, path: seq<Step>, e: Extent, exts: seq<Extent>)
    requires Ready(d, cap, root, depth, path, e)
    requires Elems(exts) == Elems(LeafAt(d, root, depth, path).exts) + {e}
    ensures Exts(d, root, depth) - Elems(LeafAt(d, root, depth, path).exts) + Elems(exts) == Exts(d, root, depth) + {e}
  {
    GoodAt(d, cap, {}, root, depth, e.block, path, depth, 0, 0, MAX_BLOCKS);
    assert Elems(LeafAt(d, root, depth, path).exts) == Exts(d, LeafAt(d, root, depth, path), 0);
  }

  lemma OffPathKeeps(d: Disk, d': Disk, cap: nat, root: Node, depth: nat, block: nat, path: seq<Step>)
    requires GoodTree(d, cap, root, depth) && Chain(d, root, block, path, depth) && OffPath(d, d', path, depth)
    ensures KeepsOthers(d, d', Blks(d, root, depth))
  {
    forall j | 0 < j <= depth
      ensures path[j].blk in Blks(d, root, depth)
    {
      ChainUp(d, root, block, path, j, depth);
      NodeCap(d, cap, root, depth, block, path, j, depth - j);
    }
  }

  // ---------------------------------------------------------------- splitting a leaf

  /** The entries after the one found move to a new leaf; the extent goes to the end of one or the front of the other. */
  function SplitLeafAt(exts: seq<Extent>, pos: nat, e: Extent): (p: (seq<Extent>, seq<Extent>, bool))
    requires pos < |exts|
    requires e.block <= exts[pos].block ==> pos == 0
    ensures p.0 + p.1 == Ins(exts, Place(exts, pos, e), e)
    ensures |p.0| > 0 && |p.0| <= |exts| + 1 && |p.1| <= |exts|
    ensures |exts| >= 2 ==> |p.0| <= |exts| && |p.1| > 0
    ensures !p.2 ==> e.block > exts[pos].block
  {
    var left, right := exts[..pos + 1], exts[pos + 1..];
    if e.block > exts[pos].block then
      if |right| > |left| then (left + [e], right, true) else (left, [e] + right, false)
    else
      (left[..pos] + [e] + left[pos..], right, true)
  }

  lemma LeafPos(d: Disk, cap: nat, root: Node, depth: nat, path: seq<Step>, e: Extent)
    requires depth > 0 && Ready(d, cap, root, depth, path, e)
    ensures var exts, pos := LeafAt(d, root, depth, path).exts, path[depth].pos;
            pos < |exts| && (e.block <= exts[pos].block ==> pos == 0)
  {
    NodeCap(d, cap, root, depth, e.block, path, depth, 0);
    GoodAt(d, cap, {}, root, depth, e.block, path, depth, 0, 0, MAX_BLOCKS);
  }

  /** Splits a full leaf and puts the extent into one of the halves. */
  method SplitLeafNode(vol: Volume, inode: Inode, alloc: BlockAllocator, path: seq<Step>, e: Extent, hint: int)
    returns (err: int, newIndex: nat, newPtr: nat)
    requires inode.depth > 0 && Ready(vol.disk, vol.cap, inode.root, inode.depth, path, e)
    requires |LeafAt(vol.disk, inode.root, inode.depth, path).exts| == LeafAt(vol.disk, inode.root, inode.depth, path).max
    requires alloc.Valid() && Blks(vol.disk, inode.root, inode.depth) <= alloc.used
    modifies vol`disk, inode`root, inode`blocks, alloc`bitmaps, alloc`groupFree, alloc`totalFree, alloc`used
    ensures alloc.Valid() && err == if old(alloc.totalFree) > 0 then OK else ENOSPC
    ensures Took(old(alloc.used), alloc.used, old(alloc.totalFree), alloc.totalFree, old(inode.blocks), inode.blocks, newPtr)
    ensures newPtr != 0 <==> err == OK
    ensures err != OK ==> vol.disk == old(vol.disk) && inode.root == old(inode.root)
    ensures err == OK ==>
              && !Head(alloc.geo, newPtr)
              && HalfDone(vol.disk, vol.cap, inode.root, inode.depth, e.block, path, inode.depth - 1, 1, newIndex, newPtr,
                          old(Exts(vol.disk, inode.root, inode.depth)) + {e},
                          old(Blks(vol.disk, inode.root, inode.depth)) + {newPtr})
              && KeepsOthers(old(vol.disk), vol.disk, old(Blks(vol.disk, inode.root, inode.depth)) + {newPtr})
              && SameRoom(old(vol.disk), old(inode.root), path, vol.disk, inode.root, path, inode.depth)
  {
    err, newPtr := NewTreeBlock(alloc, inode, hint);
    newIndex := 0;
    if err == OK {
      newIndex := SplitLeafInto(vol, inode, path, e, newPtr);
    }
  }

  /** The split itself, once the new block is allocated. */
  method SplitLeafInto(vol: Volume, inode: Inode, path: seq<Step>, e: Extent, newPtr: nat) returns (newIndex: nat)
    requires inode.depth > 0 && Ready(vol.disk, vol.cap, inode.root, inode.depth, path, e)
    requires |LeafAt(vol.disk, inode.root, inode.depth, path).exts| == LeafAt(vol.disk, inode.root, inode.depth, path).max
    requires newPtr !in Blks(vol.disk, inode.root, inode.depth)
    modifies vol`disk, inode`root
    ensures HalfDone(vol.disk, vol.cap, inode.root, inode.depth, e.block, path, inode.depth - 1, 1, newIndex, newPtr,
                     old(Exts(vol.disk, inode.root, inode.depth)) + {e},
                     old(Blks(vol.disk, inode.root, inode.depth)) + {newPtr})
    ensures KeepsOthers(old(vol.disk), vol.disk, old(Blks(vol.disk, inode.root, inode.depth)) + {newPtr})
    ensures SameRoom(old(vol.disk), old(inode.root), path, vol.disk, inode.root, path, inode.depth)
  {
    ghost var d := vol.disk;
    var leaf, pos := NodeAt(vol.disk, inode.root, path, inode.depth), path[inode.depth].pos;
    NodeCap(d, vol.cap, inode.root, inode.depth, e.block, path, inode.depth, 0);
    LeafPos(d, vol.cap, inode.root, inode.depth, path, e);
    var (left, right, inLeft) := SplitLeafAt(leaf.exts, pos, e);
    newIndex := right[0].block;
    vol.disk := vol.disk[newPtr := Leaf(right, vol.cap)];
    if inLeft && pos == 0 {
      SplitLeftmost(vol, inode, path, e, left, right, newPtr, d);
    } else {
      SplitElsewhere(vol, inode, path, e, left, right, newPtr, d);
    }
  }

  /** The first key of the leaf stays in range: no key above changes. */
  method SplitElsewhere(vol: Volume, inode: Inode, path: seq<Step>, e: Extent, left: seq<Extent>, right: seq<Extent>,
                        newPtr: nat, ghost d: Disk)
    requires inode.depth > 0 && Ready(d, vol.cap, inode.root, inode.depth, path, e)
    requires vol.disk == d[newPtr := Leaf(right, vol.cap)] && newPtr !in Blks(d, inode.root, inode.depth)
    requires var leaf := LeafAt(d, inode.root, inode.depth, path);
             var pos := path[inode.depth].pos;
             && pos < |leaf.exts| && left + right == Ins(leaf.exts, Place(leaf.exts, pos, e), e)
             && 0 < |left| <= vol.cap && 0 < |right| <= vol.cap
             && (pos > 0 || e.block > leaf.exts[0].block)
    modifies vol`disk, inode`root
    ensures inode.root == old(inode.root)
    ensures HalfDone(vol.disk, vol.cap, inode.root, inode.depth, e.block, path, inode.depth - 1, 1, right[0].block, newPtr,
                     Exts(d, inode.root, inode.depth) + {e}, Blks(d, inode.root, inode.depth) + {newPtr})
    ensures KeepsOthers(d, vol.disk, Blks(d, inode.root, inode.depth) + {newPtr})
    ensures SameRoom(d, old(inode.root), path, vol.disk, inode.root, path, inode.depth)
  {
    ghost var root, depth := inode.root, inode.depth;
    NodeCap(d, vol.cap, root, depth, e.block, path, depth, 0);
    PlacedLeaf(d, vol.cap, root, depth, path, e);
    SetLeaf(vol, inode, path, left);
    ConcatElems(left, right);
    SplitLeafCut(d, vol.disk, vol.cap, root, depth, e.block, path, left, right, e, newPtr);
    RoomAbove(d, vol.disk, vol.cap, root, depth, e.block, path, depth, newPtr, Leaf(right, vol.cap), Leaf(left, vol.cap));
  }

  lemma ConcatElems(l: seq<Extent>, r: seq<Extent>)
    ensures Elems(l + r) == Elems(l) + Elems(r)
  {
  }

  /** The extent lands in a leaf whose first entry was found: the keys above follow. */
  method SplitLeftmost(vol: Volume, inode: Inode, path: seq<Step>, e: Extent, left: seq<Extent>, right: seq<Extent>,
                       newPtr: nat, ghost d: Disk)
    requires inode.depth > 0 && Ready(d, vol.cap, inode.root, inode.depth, path, e) && path[inode.depth].pos == 0
    requires vol.disk == d[newPtr := Leaf(right, vol.cap)] && newPtr !in Blks(d, inode.root, inode.depth)
    requires var exts := LeafAt(d, inode.root, inode.depth, path).exts;
             && |exts| > 0 && left + right == Ins(exts, Place(exts, 0, e), e)
             && 0 < |left| <= vol.cap && 0 < |right| <= vol.cap
    modifies vol`disk, inode`root
    ensures HalfDone(vol.disk, vol.cap, inode.root, inode.depth, e.block, path, inode.depth - 1, 1, right[0].block, newPtr,
                     Exts(d, old(inode.root), inode.depth) + {e}, Blks(d, old(inode.root), inode.depth) + {newPtr})
    ensures KeepsOthers(d, vol.disk, Blks(d, old(inode.root), inode.depth) + {newPtr})
    ensures SameRoom(d, old(inode.root), path, vol.disk, inode.root, path, inode.depth)
  {
    ghost var d0, root, depth := vol.disk, inode.root, inode.depth;
    LeftmostReady(d, d0, vol.cap, root, depth, path, e, left, right, newPtr);
    ghost var k := CorrectLeftmost(vol, inode, path, left, e.block, d0);
    LeftmostDone(d, d0, vol.disk, vol.cap, root, inode.root, depth, path, e, left, right, newPtr, k);
    LeftmostRoom(d, d0, vol.disk, vol.cap, root, inode.root, depth, e.block, path, k, left[0].block, newPtr, Leaf(right, vol.cap));
  }

  /** Gives the leaf the extents `left` and corrects the keys above. */
  method CorrectLeftmost(vol: Volume, inode: Inode, path: seq<Step>, left: seq<Extent>, ghost block: nat, ghost d0: Disk)
    returns (ghost k: nat)
    requires inode.depth > 0 && vol.disk == d0 && GoodTree(d0, vol.cap, inode.root, inode.depth)
    requires |path| == inode.depth + 1 && Chain(d0, inode.root, block, path, inode.depth) && path[inode.depth].pos == 0
    requires LeftmostFits(d0, vol.cap, inode.root, inode.depth, block, path, left)
    modifies vol`disk, inode`root
    ensures k < inode.depth
    ensures LeftmostFixed(d0, vol.disk, vol.cap, old(inode.root), inode.root, inode.depth, block, path, left, k)
  {
    ghost var root, depth := inode.root, inode.depth;
    SetLeaf(vol, inode, path, left);
    LiftLeaf(d0, vol.disk, vol.cap, root, depth, block, path, left, left[0].block);
    k := CorrectIndexes(vol, inode, path, d0, block, Elems(LeafAt(d0, root, depth, path).exts), Elems(left));
  }

  /** The extents `left` may take the place of those of the leaf, once the keys above are corrected. */
  ghost predicate LeftmostFits(d0: Disk, cap: nat, root: Node, depth: nat, block: nat, path: seq<Step>, left: seq<Extent>)
    requires depth > 0 && |path| == depth + 1 && Chain(d0, root, block, path, depth)
  {
    && 0 < |left| <= cap && LeafAt(d0, root, depth, path).Leaf? && LeafAt(d0, root, depth, path).max == cap
    && SortedExts(left, Min(LoAt(d0, root, block, path, depth, 0), left[0].block), HiAt(d0, root, block, path, depth, MAX_BLOCKS))
    && BorderOk(d0, root, block, path, depth, left[0].block)
  }

  /** The leaf has the extents `left`, the keys above are corrected up to level `k`, and the tree is well formed. */
  ghost predicate LeftmostFixed(d0: Disk, d': Disk, cap: nat, root: Node, root': Node, depth: nat, block: nat, path: seq<Step>,
                                left: seq<Extent>, k: nat)
    requires depth > 0 && |path| == depth + 1 && Chain(d0, root, block, path, depth) && |left| > 0
    requires LeafAt(d0, root, depth, path).Leaf?
  {
    && GoodTree(d', cap, root', depth)
    && Swapped(d0, d', root, root', depth, Elems(LeafAt(d0, root, depth, path).exts), Elems(left))
    && Corrected(d0, root, d', root', depth, block, path, k, left[0].block)
    && OffPath(d0, d', path, depth)
    && path[depth].blk in d' && d'[path[depth].blk] == d0[path[depth].blk].(exts := left)
  }

  /** What a leftmost split leaves. */
  lemma LeftmostDone(d: Disk, d0: Disk, d': Disk, cap: nat, root: Node, root': Node, depth: nat, path: seq<Step>, e: Extent,
                     left: seq<Extent>, right: seq<Extent>, nb: nat, k: nat)
    requires depth > 0 && Ready(d, cap, root, depth, path, e) && path[depth].pos == 0
    requires d0 == d[nb := Leaf(right, cap)] && nb !in Blks(d, root, depth)
    requires var exts := LeafAt(d, root, depth, path).exts;
             && |exts| > 0 && left + right == Ins(exts, Place(exts, 0, e), e)
             && 0 < |left| <= cap && 0 < |right| <= cap
    requires Chain(d0, root, e.block, path, depth) && LeafAt(d0, root, depth, path).Leaf? && k < depth
    requires LeftmostFixed(d0, d', cap, root, root', depth, e.block, path, left, k)
    ensures HalfDone(d', cap, root', depth, e.block, path, depth - 1, 1, right[0].block, nb,
                     Exts(d, root, depth) + {e}, Blks(d, root, depth) + {nb})
    ensures KeepsOthers(d, d', Blks(d, root, depth) + {nb})
  {
    LeftmostReady(d, d0, cap, root, depth, path, e, left, right, nb);
    OffPathKeeps(d0, d', cap, root, depth, e.block, path);
    KeptBoth(d, d0, d', nb, Leaf(right, cap), Blks(d, root, depth));
    LeftmostHalf(d0, d', cap, root, root', depth, e, path, LeafAt(d, root, depth, path).exts, left, right, nb, k);
  }

  lemma KeptBoth(d: Disk, d0: Disk, d': Disk, nb: nat, x: Node, own: set<nat>)
    requires d0 == d[nb := x] && KeepsOthers(d0, d', own)
    ensures KeepsOthers(d, d', own + {nb})
  {
  }

  /** The right half of a leftmost split waits next to the left one. */
  lemma LeftmostHalf(d0: Disk, d': Disk, cap: nat, root: Node, root': Node, depth: nat, e: Extent, path: seq<Step>,
                     exts: seq<Extent>, left: seq<Extent>, right: seq<Extent>, nb: nat, k: nat)
    requires GoodTree(d0, cap, root, depth) && depth > 0 && |path| == depth + 1 && Chain(d0, root, e.block, path, depth)
    requires LeafAt(d0, root, depth, path).Leaf? && LeafAt(d0, root, depth, path).exts == exts && LeafAt(d0, root, depth, path).max == cap
    requires Elems(exts) <= Exts(d0, root, depth) && Elems(left) + Elems(right) == Elems(exts) + {e}
    requires 0 < |left| <= cap && 0 < |right| <= cap && left[0].block < right[0].block && left[0].block <= e.block
    requires SortedExts(left, left[0].block, right[0].block)
    requires SortedExts(right, right[0].block, HiAt(d0, root, e.block, path, depth, MAX_BLOCKS))
    requires nb !in Blks(d0, root, depth) && k < depth && nb in d0 && d0[nb] == Leaf(right, cap)
    requires LeftmostFixed(d0, d', cap, root, root', depth, e.block, path, left, k) && KeepsOthers(d0, d', Blks(d0, root, depth))
    ensures HalfDone(d', cap, root', depth, e.block, path, depth - 1, 1, right[0].block, nb,
                     Exts(d0, root, depth) + {e}, Blks(d0, root, depth) + {nb})
  {
    LeftmostTarget(Exts(d0, root, depth), Elems(exts), Elems(left), Elems(right), e);
    SplitLeafCorrected(d0, root, d', root', cap, depth, e.block, path, k, left[0].block,
                       left, right, nb, Exts(d0, root, depth) + {e});
  }

  lemma LeftmostRoom(d: Disk, d0: Disk, d': Disk, cap: nat, root: Node, root': Node, depth: nat, block: nat, path: seq<Step>,
                     k: nat, border: nat, nb: nat, x: Node)
    requires GoodTree(d, cap, root, depth) && Chain(d, root, block, path, depth)
    requires nb !in Blks(d, root, depth) && d0 == d[nb := x]
    requires Chain(d0, root, block, path, depth) && Corrected(d0, root, d', root', depth, block, path, k, border)
    ensures SameRoom(d, root, path, d', root', path, depth)
  {
    RoomFresh(d, d0, cap, root, depth, block, path, nb, x);
    RoomCorrected(d0, root, d', root', depth, block, path, k, border);
  }

  lemma LeftmostTarget(all: set<Extent>, gone: set<Extent>, l: set<Extent>, r: set<Extent>, e: Extent)
    requires gone <= all && l + r == gone + {e}
    ensures all - gone + l + r == all + {e}
  {
    SameUnion(all, gone, l, r, {e});
  }

  /** Everything the correction of a leftmost split needs, after the sibling was written. */
  lemma LeftmostReady(d: Disk, d0: Disk, cap: nat, root: Node, depth: nat, path: seq<Step>, e: Extent,
                      left: seq<Extent>, right: seq<Extent>, nb: nat)
    requires depth > 0 && Ready(d, cap, root, depth, path, e) && path[depth].pos == 0
    requires d0 == d[nb := Leaf(right, cap)] && nb !in Blks(d, root, depth)
    requires var exts := LeafAt(d, root, depth, path).exts;
             && |exts| > 0 && left + right == Ins(exts, Place(exts, 0, e), e)
             && 0 < |left| <= cap && 0 < |right| <= cap
    ensures GoodTree(d0, cap, root, depth) && Chain(d0, root, e.block, path, depth) && path[depth].blk != nb
    ensures NodeAt(d0, root, path, depth) == LeafAt(d, root, depth, path) && LeafAt(d, root, depth, path).max == cap
    ensures Exts(d0, root, depth) == Exts(d, root, depth) && Blks(d0, root, depth) == Blks(d, root, depth)
    ensures left[0].block < right[0].block && left[0].block <= e.block
    ensures var lo, hi := LoAt(d0, root, e.block, path, depth, 0), HiAt(d0, root, e.block, path, depth, MAX_BLOCKS);
            && SortedExts(left, Min(lo, left[0].block), hi)
            && SortedExts(left, left[0].block, right[0].block)
            && SortedExts(right, right[0].block, hi)
    ensures BorderOk(d0, root, e.block, path, depth, left[0].block)
    ensures Elems(left) + Elems(right) == Elems(LeafAt(d, root, depth, path).exts) + {e}
    ensures Elems(LeafAt(d, root, depth, path).exts) <= Exts(d, root, depth)
  {
    PlacedLeaf(d, cap, root, depth, path, e);
    NodeCap(d, cap, root, depth, e.block, path, depth, 0);
    WriteElsewhere(d, cap, {}, root, depth, 0, MAX_BLOCKS, nb, Leaf(right, cap));
    PathElsewhere(d, cap, root, depth, e.block, path, depth, 0, nb, Leaf(right, cap));
    GoodAt(d, cap, {}, root, depth, e.block, path, depth, 0, 0, MAX_BLOCKS);
    assert Elems(LeafAt(d, root, depth, path).exts) == Exts(d, LeafAt(d, root, depth, path), 0);
    var lo, hi := LoAt(d, root, e.block, path, depth, 0), HiAt(d, root, e.block, path, depth, MAX_BLOCKS);
    HalvesSorted(left, right, Min(lo, (left + right)[0].block), hi);
    ConcatElems(left, right);
  }

  lemma HalvesSorted(l: seq<Extent>, r: seq<Extent>, lo: int, hi: int)
    requires SortedExts(l + r, lo, hi) && 0 < |l| && 0 < |r|
    ensures SortedExts(l, lo, hi) && SortedExts(l, l[0].block, r[0].block) && SortedExts(r, r[0].block, hi)
    ensures l[0].block < r[0].block && (l + r)[0] == l[0]
  {
    CutSorted(l, r, lo, hi);
    CutBlockBounds(l, r, lo, hi);
    forall i | 0 <= i < |l|
      ensures l[0].block <= l[i].block
    {
      assert i > 0 ==> l[0].End() <= l[i].block;
    }
  }
}
