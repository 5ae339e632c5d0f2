/** Inserting an extent into a file, and finding or creating the block behind a logical block. */
module ExtentFile {
  import opened ExtentNodes
  import opened ExtentPaths
  import opened ExtentMap
  import opened ExtentLookup
  import opened ExtentLeaf
  import opened ExtentInsert
  import opened ExtentRoom
  import opened ExtentTree
  import opened ExtentPrepend
  import opened Volumes
  import opened BlockAlloc

  /** The extents of the tree with `e` merged into the front of the one found. */
  ghost function JoinedFront(d: Disk, root: Node, depth: nat, path: seq<Step>, e: Extent): set<Extent>
    requires Found(d, root, depth, e.block, path) && PrependApplies(d, root, depth, path, e)
  {
    var f := LeafAt(d, root, depth, path).exts[path[depth].pos];
    Exts(d, root, depth) - {f} + {Prepend(f, e)}
  }

  /** Overwrites the extent found by the one the prepend merge makes of it. */
  method PrependToLeaf(vol: Volume, inode: Inode, path: seq<Step>, e: Extent)
    requires Ready(vol.disk, vol.cap, inode.root, inode.depth, path, e)
    requires PrependApplies(vol.disk, inode.root, inode.depth, path, e)
    modifies vol`disk, inode`root
    ensures MapOf(Exts(vol.disk, inode.root, inode.depth))
            != MapOf(old(Exts(vol.disk, inode.root, inode.depth))) + ExtentMapOf(e)
    ensures Exts(vol.disk, inode.root, inode.depth) == old(JoinedFront(vol.disk, inode.root, inode.depth, path, e))
    ensures Blks(vol.disk, inode.root, inode.depth) == old(Blks(vol.disk, inode.root, inode.depth))
  {
    ghost var d, root, depth := vol.disk, inode.root, inode.depth;
    var leaf, pos := NodeAt(vol.disk, inode.root, path, inode.depth), path[inode.depth].pos;
    var f := leaf.exts[pos];
    var exts := leaf.exts[pos := Prepend(f, e)];
    PrependWrong(d, vol.cap, root, depth, path, e);
    SetLeaf(vol, inode, path, exts);
    Overwritten(d, vol.disk, vol.cap, root, inode.root, depth, e.block, path, exts, {f}, {Prepend(f, e)});
  }

  lemma PrependWrong(d: Disk, cap: nat, root: Node, depth: nat, path: seq<Step>, e: Extent)
    requires Ready(d, cap, root, depth, path, e) && PrependApplies(d, root, depth, path, e)
    ensures var leaf, pos := LeafAt(d, root, depth, path), path[depth].pos;
            var f, g := leaf.exts[pos], Prepend(leaf.exts[pos], e);
            && Elems(leaf.exts[pos := g]) == Elems(leaf.exts) - {f} + {g}
            && MapOf(Exts(d, root, depth) - {f} + {g}) != MapOf(Exts(d, root, depth)) + ExtentMapOf(e)
  {
    var leaf, pos := LeafAt(d, root, depth, path), path[depth].pos;
    GoodAt(d, cap, {}, root, depth, e.block, path, depth, 0, 0, MAX_BLOCKS);
    assert leaf.exts[pos] in Exts(d, leaf, 0);
    UpdateElems(leaf.exts, pos, Prepend(leaf.exts[pos], e), LoAt(d, root, e.block, path, depth, 0),
                HiAt(d, root, e.block, path, depth, MAX_BLOCKS));
    FitsApart(d, cap, root, depth, path, e);
    GoodDisjoint(d, cap, {}, root, depth, 0, MAX_BLOCKS);
    ExtsInRange(d, cap, {}, root, depth, 0, MAX_BLOCKS);
    PrependedMap(Exts(d, root, depth), leaf.exts[pos], e);
  }

  /**
   A file maps block 1 to 11.  Inserting block 0 at 10 makes it map block 0 to 11 and block 1 to 12:
   it loses block 10, and reads blocks that it does not own.
   */
  lemma PrependExample()
    ensures var d, root, path, e := map[], Leaf([Extent(1, 1, 11)], ROOT_CAP), [Step(0, 0)], Extent(0, 1, 10);
            && Ready(d, ROOT_CAP + 1, root, 0, path, e) && PrependApplies(d, root, 0, path, e)
            && MapOf(Exts(d, root, 0)) == map[1 := 11]
            && MapOf(Exts(d, root.(exts := [Prepend(root.exts[0], e)]), 0)) == map[0 := 11, 1 := 12]
  {
    MergeApplies();
    RootMap(map[], Extent(1, 1, 11));
    RootMap(map[], Extent(0, 2, 11));
    FirstMap();
    MergedMap();
  }

  lemma MergeApplies()
    ensures var root, path, e := Leaf([Extent(1, 1, 11)], ROOT_CAP), [Step(0, 0)], Extent(0, 1, 10);
            Ready(map[], ROOT_CAP + 1, root, 0, path, e) && PrependApplies(map[], root, 0, path, e)
    ensures Prepend(Extent(1, 1, 11), Extent(0, 1, 10)) == Extent(0, 2, 11)
  {
  }

  lemma FirstMap()
    ensures ExtentMapOf(Extent(1, 1, 11)) == map[1 := 11]
  {
    var e := Extent(1, 1, 11);
    assert e.Covers(1) && forall l: nat :: e.Covers(l) ==> l == 1;
  }

  lemma MergedMap()
    ensures ExtentMapOf(Extent(0, 2, 11)) == map[0 := 11, 1 := 12]
  {
    var e := Extent(0, 2, 11);
    assert e.Covers(0) && e.Covers(1) && forall l: nat :: e.Covers(l) ==> l == 0 || l == 1;
  }

  /** What a complete insertion means for the map of the file. */
  lemma InsertedMap(d: Disk, cap: nat, root: Node, depth: nat, path: seq<Step>, e: Extent, target: set<Extent>)
    requires Ready(d, cap, root, depth, path, e) && Added(Exts(d, root, depth), e, target)
    ensures MapOf(target) == MapOf(Exts(d, root, depth)) + ExtentMapOf(e)
  {
    FitsApart(d, cap, root, depth, path, e);
    GoodDisjoint(d, cap, {}, root, depth, 0, MAX_BLOCKS);
    ExtsInRange(d, cap, {}, root, depth, 0, MAX_BLOCKS);
    AddedMap(Exts(d, root, depth), e, target);
  }

  // ---------------------------------------------------------------- the state of a file on a volume

  /** A file: the root and the depth of its tree, and its block count. */
  datatype FileRec = FileRec(root: Node, depth: nat, blocks: int)

  /** One file of a volume, with the blocks in use and the number of free ones. */
  datatype State = State(disk: Disk, rec: FileRec, used: set<nat>, free: int) {
    ghost function Extents(): set<Extent> {
      Exts(disk, rec.root, rec.depth)
    }

    ghost function Blocks(): set<nat> {
      Blks(disk, rec.root, rec.depth)
    }

    ghost function Map(): map<nat, nat> {
      MapOf(Extents())
    }
  }

  ghost function StateOf(vol: Volume, inode: Inode, alloc: BlockAllocator): State
    reads vol, inode, alloc
  {
    State(vol.disk, FileRec(inode.root, inode.depth, inode.blocks), alloc.used, alloc.totalFree)
  }

  /** The tree holds one extent more, in its old blocks and others that were free, and is well formed. */
  ghost predicate Inserted(cap: nat, s: State, s': State, e: Extent) {
    && GoodTree(s'.disk, cap, s'.rec.root, s'.rec.depth)
    && Added(s.Extents(), e, s'.Extents())
    && KeepsOthers(s.disk, s'.disk, s'.Blocks())
  }

  /** The blocks of the tree and the counts moved together. */
  ghost predicate StateGrew(geo: Geometry, s: State, s': State) {
    Grew(geo, s.used, s'.used, s.free, s'.free, s.rec.blocks, s'.rec.blocks, s.Blocks(), s'.Blocks())
  }

  /** Merges the extent into the one found, to its end or to its front, or inserts it as an entry of its own. */
  method InsertAt(vol: Volume, inode: Inode, alloc: BlockAllocator, path: seq<Step>, e: Extent, hint: int)
    returns (err: int, prepended: bool, ghost target: set<Extent>)
    requires Ready(vol.disk, vol.cap, inode.root, inode.depth, path, e)
    requires alloc.Valid() && Blks(vol.disk, inode.root, inode.depth) <= alloc.used
    requires alloc.totalFree > 0 ==> alloc.totalFree >= Needs(vol.disk, inode.root, inode.depth, path, e)
    modifies vol`disk, inode`root, inode`depth, inode`blocks, alloc`bitmaps, alloc`groupFree, alloc`totalFree, alloc`used
    ensures alloc.Valid()
    ensures err == if old(alloc.totalFree >= Needs(vol.disk, inode.root, inode.depth, path, e)) then OK else ENOSPC
    ensures prepended <==> old(PrependApplies(vol.disk, inode.root, inode.depth, path, e))
    ensures err != OK ==> !prepended && StateOf(vol, inode, alloc) == old(StateOf(vol, inode, alloc))
    ensures err == OK ==>
              target == Exts(vol.disk, inode.root, inode.depth) ==
                if prepended then old(JoinedFront(vol.disk, inode.root, inode.depth, path, e)) else old(Target(vol.disk, inode.root, inode.depth, path, e))
    ensures err == OK ==>
              && (!prepended <==> StateOf(vol, inode, alloc).Map() == old(StateOf(vol, inode, alloc).Map()) + ExtentMapOf(e))
              && (!prepended ==> Inserted(vol.cap, old(StateOf(vol, inode, alloc)), StateOf(vol, inode, alloc), e))
              && StateGrew(alloc.geo, old(StateOf(vol, inode, alloc)), StateOf(vol, inode, alloc))
              && alloc.totalFree == old(alloc.totalFree) - old(Needs(vol.disk, inode.root, inode.depth, path, e))
  {
    ghost var d, root, depth, all := vol.disk, inode.root, inode.depth, {};
    var leaf, pos := NodeAt(vol.disk, inode.root, path, inode.depth), path[inode.depth].pos;
    prepended := |leaf.exts| > 0 && !CanAppend(leaf.exts[pos], e) && CanPrepend(leaf.exts[pos], e);
    if prepended {
      err := OK;
      GrewNone(alloc.geo, alloc.used, alloc.totalFree, inode.blocks, Blks(vol.disk, inode.root, inode.depth));
      PrependToLeaf(vol, inode, path, e);
      target := Exts(vol.disk, inode.root, inode.depth);
    } else {
      err, target, all := InsertPlain(vol, inode, alloc, path, e, hint);
      if err == OK {
        InsertedMap(d, vol.cap, root, depth, path, e, target);
      }
    }
  }

  /**
   Inserts an extent over unmapped blocks.  The map of the file becomes the old map plus the new
   extent exactly when the prepend merge does not apply; then the tree stays well formed, its new
   blocks were free before, and blocks outside the tree keep their contents.  The insertion takes
   exactly the blocks it needs, and asks for no more to be free; it fails, with nothing changed, if
   it needs blocks and none is free.
   */
  method InsertExtent(vol: Volume, inode: Inode, alloc: BlockAllocator, path: seq<Step>, e: Extent, hint: int)
    returns (err: int, prepended: bool)
    requires Ready(vol.disk, vol.cap, inode.root, inode.depth, path, e)
    requires alloc.Valid() && Blks(vol.disk, inode.root, inode.depth) <= alloc.used
    requires alloc.totalFree > 0 ==> alloc.totalFree >= Needs(vol.disk, inode.root, inode.depth, path, e)
    modifies vol`disk, inode`root, inode`depth, inode`blocks, alloc`bitmaps, alloc`groupFree, alloc`totalFree, alloc`used
    ensures alloc.Valid()
    ensures err == if old(alloc.totalFree >= Needs(vol.disk, inode.root, inode.depth, path, e)) then OK else ENOSPC
    ensures prepended <==> old(PrependApplies(vol.disk, inode.root, inode.depth, path, e))
    ensures err != OK ==> !prepended && StateOf(vol, inode, alloc) == old(StateOf(vol, inode, alloc))
    ensures var leaf, s, t := old(LeafAt(vol.disk, inode.root, inode.depth, path)), old(Exts(vol.disk, inode.root, inode.depth)),
                              Exts(vol.disk, inode.root, inode.depth);
            if leaf.exts == [] then err == OK ==> t == s + {e}
            else
              var f := leaf.exts[path[old(inode.depth)].pos];
              var fits, len := f.Len() + e.Len() <= (if f.rawLen > 0x8000 then 0x7fff else 0x8000), f.rawLen + e.Len();
              if fits && f.block + f.Len() == e.block && f.start + f.Len() == e.start then
                err == OK && t == s - {f} + {Extent(f.block, len, f.start)} && alloc.totalFree == old(alloc.totalFree) && !prepended
              else if fits && e.block + e.Len() == f.block && e.start + e.Len() == f.start then
                err == OK && t == s - {f} + {Extent(e.block, len, f.start)} && alloc.totalFree == old(alloc.totalFree) && prepended
              else
                !prepended && (err == OK ==> t == s + {e})
                && (|leaf.exts| < leaf.max ==> err == OK && alloc.totalFree == old(alloc.totalFree))
    ensures err == OK ==>
              && (!prepended <==> StateOf(vol, inode, alloc).Map() == old(StateOf(vol, inode, alloc).Map()) + ExtentMapOf(e))
              && (!prepended ==> Inserted(vol.cap, old(StateOf(vol, inode, alloc)), StateOf(vol, inode, alloc), e))
              && StateGrew(alloc.geo, old(StateOf(vol, inode, alloc)), StateOf(vol, inode, alloc))
              && alloc.totalFree == old(alloc.totalFree) - old(Needs(vol.disk, inode.root, inode.depth, path, e))
  {
    ghost var d, root, depth, free := vol.disk, inode.root, inode.depth, alloc.totalFree;
    ghost var target;
    err, prepended, target := InsertAt(vol, inode, alloc, path, e, hint);
    InsertCases(d, root, depth, path, e, err, prepended, target, free, alloc.totalFree);
  }

  /** What the leaf found says about an insertion. */
  lemma InsertCases(d: Disk, root: Node, depth: nat, path: seq<Step>, e: Extent, err: int, prepended: bool,
                    t: set<Extent>, free: int, free': int)
    requires Found(d, root, depth, e.block, path) && e.Len() > 0 && (prepended <==> PrependApplies(d, root, depth, path, e))
    requires free >= 0 && err == if free >= Needs(d, root, depth, path, e) then OK else ENOSPC
    requires err == OK ==> free' == free - Needs(d, root, depth, path, e)
                           && t == if prepended then JoinedFront(d, root, depth, path, e) else Target(d, root, depth, path, e)
    ensures var leaf, s := LeafAt(d, root, depth, path), Exts(d, root, depth);
            if leaf.exts == [] then err == OK ==> t == s + {e}
            else
              var f := leaf.exts[path[depth].pos];
              var fits, len := f.Len() + e.Len() <= (if f.rawLen > 0x8000 then 0x7fff else 0x8000), f.rawLen + e.Len();
              if fits && f.block + f.Len() == e.block && f.start + f.Len() == e.start then
                err == OK && t == s - {f} + {Extent(f.block, len, f.start)} && free' == free && !prepended
              else if fits && e.block + e.Len() == f.block && e.start + e.Len() == f.start then
                err == OK && t == s - {f} + {Extent(e.block, len, f.start)} && free' == free && prepended
              else
                !prepended && (err == OK ==> t == s + {e}) && (|leaf.exts| < leaf.max ==> err == OK && free' == free)
  {
    var leaf := LeafAt(d, root, depth, path);
    if leaf.exts != [] {
      MergedEntry(leaf.exts[path[depth].pos], e);
    }
  }

  // ---------------------------------------------------------------- blocks of a file

  /** A single unmapped block fits at the end of its path. */
  lemma BlockFits(d: Disk, cap: nat, root: Node, depth: nat, iblock: nat, path: seq<Step>, e: Extent)
    requires GoodTree(d, cap, root, depth) && cap > ROOT_CAP && iblock < MAX_BLOCKS
    requires Found(d, root, depth, iblock, path) && iblock !in MapOf(Exts(d, root, depth))
    requires e.block == iblock && e.Len() == 1
    ensures iblock < NextBound(d, root, depth, iblock, path) && Ready(d, cap, root, depth, path, e)
  {
    var leaf, pos := NodeAt(d, root, path, depth), path[depth].pos;
    BelowHi(d, root, iblock, path, depth, MAX_BLOCKS);
    if |leaf.exts| > 0 {
      FoundRun(d, cap, root, depth, iblock, path, leaf.exts[pos]);
      assert !leaf.exts[pos].Covers(iblock);
    }
  }

  /** The logical block after `iblock` is mapped to the physical block after `pblk`. */
  ghost predicate Abuts(m: map<nat, nat>, iblock: nat, pblk: nat) {
    iblock + 1 in m && m[iblock + 1] == pblk + 1
  }

  lemma PrependAbuts(d: Disk, cap: nat, root: Node, depth: nat, path: seq<Step>, e: Extent)
    requires Ready(d, cap, root, depth, path, e) && PrependApplies(d, root, depth, path, e)
    requires e.Len() == 1 && e.block < MAX_BLOCKS
    ensures Abuts(MapOf(Exts(d, root, depth)), e.block, e.start)
  {
    var f := LeafAt(d, root, depth, path).exts[path[depth].pos];
    GoodAt(d, cap, {}, root, depth, e.block, path, depth, 0, 0, MAX_BLOCKS);
    FoundRun(d, cap, root, depth, e.block, path, f);
    assert f.Covers(e.block + 1);
  }

  /**
   A block was created: it was free before, opens no group, and so do the blocks the tree took
   for itself; unless the prepend merge applied, the file maps the block in addition to what it
   mapped before, and its tree is well formed.  The merge only applies in front of a mapped block.
   */
  ghost predicate Created(geo: Geometry, cap: nat, s: State, s': State, iblock: nat, pblk: nat, prepended: bool) {
    && pblk !in s.used && !Head(geo, pblk)
    && StateGrew(geo, WithBlock(s, pblk), s')
    && (s'.Map() == s.Map() + ExtentMapOf(Extent(iblock, 1, pblk)) <==> !prepended)
    && (prepended ==> Abuts(s.Map(), iblock, pblk))
    && (!prepended ==> Inserted(cap, s, s', Extent(iblock, 1, pblk)))
  }

  /** The state once the block `pblk` is allocated for the file. */
  ghost function WithBlock(s: State, pblk: nat): State {
    State(s.disk, s.rec.(blocks := s.rec.blocks + 1), s.used + {pblk}, s.free - 1)
  }

  // ---------------------------------------------------------------- when a block can be created

  /** After the block that the allocator will give for `iblock`, as many are left as inserting it takes. */
  ghost predicate Affordable(alloc: BlockAllocator, goal: nat, d: Disk, root: Node, depth: nat, path: seq<Step>, iblock: nat)
    requires alloc.Valid() && Found(d, root, depth, iblock, path)
    reads alloc
  {
    && alloc.totalFree > 0
    && forall p :: FirstFit(alloc.geo, alloc.bitmaps, alloc.groupFree, GoalOf(alloc.geo, goal), p) ==>
                     alloc.totalFree > Needs(d, root, depth, path, Extent(iblock, 1, p))
  }

  /** As `Affordable`, along whatever path the search finds. */
  ghost predicate CanCreate(alloc: BlockAllocator, goal: nat, d: Disk, root: Node, depth: nat, iblock: nat)
    requires alloc.Valid()
    reads alloc
  {
    alloc.totalFree > 0 && forall path :: Found(d, root, depth, iblock, path) ==> Affordable(alloc, goal, d, root, depth, path, iblock)
  }

  /** The prepend merge applies to the extent, along whatever path the search finds. */
  ghost predicate Merging(d: Disk, root: Node, depth: nat, e: Extent) {
    exists path :: Found(d, root, depth, e.block, path) && PrependApplies(d, root, depth, path, e)
  }

  lemma MergingHere(d: Disk, root: Node, depth: nat, path: seq<Step>, e: Extent)
    requires Found(d, root, depth, e.block, path)
    ensures Merging(d, root, depth, e) <==> PrependApplies(d, root, depth, path, e)
  {
    if q :| Found(d, root, depth, e.block, q) && PrependApplies(d, root, depth, q, e) {
      SameEnd(d, root, depth, path, q, e.block);
    }
  }

  /**
   Whether the block is mapped, or can be created with the blocks that are free, or at most one is
   free, so that a creation that fails changes nothing.
   */
  method CheckCreate(vol: Volume, inode: Inode, alloc: BlockAllocator, iblock: nat, goal: nat) returns (ok: bool)
    requires GoodTree(vol.disk, vol.cap, inode.root, inode.depth) && alloc.Valid() && iblock < MAX_BLOCKS
    ensures ok <==> iblock in TreeMap(vol, inode) || alloc.totalFree <= 1
                    || CanCreate(alloc, goal, vol.disk, inode.root, inode.depth, iblock)
  {
    var path := FindExtent(vol, inode, iblock);
    var len, pblk := MappedRun(vol, inode, path, iblock, 1);
    ok := len > 0 || alloc.totalFree <= 1;
    if !ok {
      ok := CheckRoom(vol, inode, alloc, path, iblock, goal);
    }
  }

  /** Whether the block can be created at the end of the path. */
  method CheckRoom(vol: Volume, inode: Inode, alloc: BlockAllocator, path: seq<Step>, iblock: nat, goal: nat) returns (ok: bool)
    requires alloc.Valid() && Found(vol.disk, inode.root, inode.depth, iblock, path)
    ensures ok <==> CanCreate(alloc, goal, vol.disk, inode.root, inode.depth, iblock)
  {
    var err, group, index := alloc.FindBlock(GoalOf(alloc.geo, goal));
    if err != OK {
      return false;
    }
    var p := BlockNumber(alloc.geo, group, index);
    var level := Level(vol, inode, path);
    var merges := Merges(NodeAt(vol.disk, inode.root, path, inode.depth).exts, path[inode.depth].pos, Extent(iblock, 1, p));
    ok := alloc.totalFree > if merges then 0 else level;
    OneFit(alloc, goal, vol.disk, inode.root, inode.depth, path, iblock, p);
    OnePath(alloc, goal, vol.disk, inode.root, inode.depth, path, iblock);
  }

  /** The one block that fits first decides whether a block can be created at the end of a path. */
  lemma OneFit(alloc: BlockAllocator, goal: nat, d: Disk, root: Node, depth: nat, path: seq<Step>, iblock: nat, p: nat)
    requires alloc.Valid() && Found(d, root, depth, iblock, path)
    requires FirstFit(alloc.geo, alloc.bitmaps, alloc.groupFree, GoalOf(alloc.geo, goal), p)
    ensures Affordable(alloc, goal, d, root, depth, path, iblock) <==>
            alloc.totalFree > Needs(d, root, depth, path, Extent(iblock, 1, p))
  {
    forall b | FirstFit(alloc.geo, alloc.bitmaps, alloc.groupFree, GoalOf(alloc.geo, goal), b)
      ensures b == p
    {
      FirstFitUnique(alloc.geo, alloc.bitmaps, alloc.groupFree, GoalOf(alloc.geo, goal), b, p);
    }
  }

  /** The same for whichever block fits first. */
  lemma DecidedBy(alloc: BlockAllocator, goal: nat, d: Disk, root: Node, depth: nat, path: seq<Step>, iblock: nat)
    requires alloc.Valid() && Found(d, root, depth, iblock, path)
    ensures forall p :: FirstFit(alloc.geo, alloc.bitmaps, alloc.groupFree, GoalOf(alloc.geo, goal), p) ==>
                          (Affordable(alloc, goal, d, root, depth, path, iblock) <==>
                           alloc.totalFree > Needs(d, root, depth, path, Extent(iblock, 1, p)))
  {
    forall p | FirstFit(alloc.geo, alloc.bitmaps, alloc.groupFree, GoalOf(alloc.geo, goal), p)
      ensures Affordable(alloc, goal, d, root, depth, path, iblock) <==>
              alloc.totalFree > Needs(d, root, depth, path, Extent(iblock, 1, p))
    {
      OneFit(alloc, goal, d, root, depth, path, iblock, p);
    }
  }

  /** One path decides it for all. */
  lemma OnePath(alloc: BlockAllocator, goal: nat, d: Disk, root: Node, depth: nat, path: seq<Step>, iblock: nat)
    requires alloc.Valid() && Found(d, root, depth, iblock, path)
    ensures CanCreate(alloc, goal, d, root, depth, iblock) <==> Affordable(alloc, goal, d, root, depth, path, iblock)
  {
    if Affordable(alloc, goal, d, root, depth, path, iblock) {
      forall q | Found(d, root, depth, iblock, q)
        ensures Affordable(alloc, goal, d, root, depth, q, iblock)
      {
        forall p | FirstFit(alloc.geo, alloc.bitmaps, alloc.groupFree, GoalOf(alloc.geo, goal), p)
          ensures alloc.totalFree > Needs(d, root, depth, q, Extent(iblock, 1, p))
        {
          SameNeeds(d, root, depth, path, q, Extent(iblock, 1, p));
        }
      }
    }
  }

  // ---------------------------------------------------------------- creating a block

  /**
   Allocates a block for the unmapped `iblock` and inserts it into the tree.  It fails, with nothing
   changed, if no block is free, or only the one that it takes for the data.
   */
  method CreateBlock(vol: Volume, inode: Inode, alloc: BlockAllocator, path: seq<Step>, iblock: nat, maxBlocks: nat, goal: nat)
    returns (err: int, pblk: nat, prepended: bool)
    requires GoodTree(vol.disk, vol.cap, inode.root, inode.depth) && vol.cap > ROOT_CAP
    requires alloc.Valid() && Blks(vol.disk, inode.root, inode.depth) <= alloc.used
    requires iblock < MAX_BLOCKS && maxBlocks > 0 && iblock !in TreeMap(vol, inode)
    requires Found(vol.disk, inode.root, inode.depth, iblock, path)
    requires alloc.totalFree > 1 ==> Affordable(alloc, goal, vol.disk, inode.root, inode.depth, path, iblock)
    modifies vol`disk, inode`root, inode`depth, inode`blocks, alloc`bitmaps, alloc`groupFree, alloc`totalFree, alloc`used
    ensures alloc.Valid()
    ensures err == if old(Affordable(alloc, goal, vol.disk, inode.root, inode.depth, path, iblock)) then OK else ENOSPC
    ensures err != OK ==> !prepended && StateOf(vol, inode, alloc) == old(StateOf(vol, inode, alloc))
    ensures err == OK ==>
              && Created(alloc.geo, vol.cap, old(StateOf(vol, inode, alloc)), StateOf(vol, inode, alloc), iblock, pblk, prepended)
              && (prepended <==> old(PrependApplies(vol.disk, inode.root, inode.depth, path, Extent(iblock, 1, pblk))))
              && alloc.totalFree == old(alloc.totalFree) - 1 - old(Needs(vol.disk, inode.root, inode.depth, path, Extent(iblock, 1, pblk)))
              && FirstFit(alloc.geo, old(alloc.bitmaps), old(alloc.groupFree), GoalOf(alloc.geo, goal), pblk)
              && (alloc.geo.first <= goal < alloc.geo.Start(alloc.geo.groups) ==>
                    FirstFit(alloc.geo, old(alloc.bitmaps), old(alloc.groupFree), goal, pblk))
  {
    prepended := false;
    var wanted := Wanted(vol, inode, path, iblock, maxBlocks);
    var len;
    ghost var s := StateOf(vol, inode, alloc);
    err, pblk, len := AllocFor(alloc, inode, goal, wanted, vol.disk, inode.root, inode.depth, path, iblock);
    if err == OK {
      err, prepended := InsertBlock(vol, inode, alloc, path, iblock, pblk, len, goal, s);
    }
  }

  /** How many blocks to ask for: not past the next allocated one. */
  method Wanted(vol: Volume, inode: Inode, path: seq<Step>, iblock: nat, maxBlocks: nat) returns (wanted: nat)
    requires GoodTree(vol.disk, vol.cap, inode.root, inode.depth) && vol.cap > ROOT_CAP
    requires iblock < MAX_BLOCKS && maxBlocks > 0 && iblock !in TreeMap(vol, inode)
    requires Found(vol.disk, inode.root, inode.depth, iblock, path)
    ensures 0 < wanted <= maxBlocks && iblock + wanted <= NextBound(vol.disk, inode.root, inode.depth, iblock, path)
  {
    var next := NextAllocatedBlock(vol, inode, path, iblock);
    BlockFits(vol.disk, vol.cap, inode.root, inode.depth, iblock, path, Extent(iblock, 1, 0));
    wanted := if next - iblock > maxBlocks then maxBlocks else next - iblock;
  }

  /** Allocates the block for `iblock`; what is left suffices to insert it exactly if that was affordable. */
  method AllocFor(alloc: BlockAllocator, inode: Inode, goal: nat, wanted: nat, ghost d: Disk, ghost root: Node, ghost depth: nat,
                  ghost path: seq<Step>, ghost iblock: nat)
    returns (err: int, block: nat, len: nat)
    requires alloc.Valid() && wanted > 0 && Found(d, root, depth, iblock, path)
    modifies alloc`bitmaps, alloc`groupFree, alloc`totalFree, alloc`used, inode`blocks
    ensures alloc.Valid() && err == if old(alloc.totalFree) > 0 then OK else ENOSPC
    ensures err == OK ==>
              && len == 1 && block !in old(alloc.used) && !Head(alloc.geo, block) && alloc.used == old(alloc.used) + {block}
              && alloc.totalFree == old(alloc.totalFree) - 1 && inode.blocks == old(inode.blocks) + 1
              && FirstFit(alloc.geo, old(alloc.bitmaps), old(alloc.groupFree), GoalOf(alloc.geo, goal), block)
              && (old(Affordable(alloc, goal, d, root, depth, path, iblock)) <==>
                  alloc.totalFree >= Needs(d, root, depth, path, Extent(iblock, 1, block)))
    ensures err != OK ==>
              alloc.used == old(alloc.used) && alloc.totalFree == old(alloc.totalFree) && inode.blocks == old(inode.blocks)
  {
    DecidedBy(alloc, goal, d, root, depth, path, iblock);
    err, block, len := NewDataBlocks(alloc, inode, goal, wanted);
  }

  /** Inserts the block `pblk`, just allocated, or gives it back; `s` is the state before that. */
  method InsertBlock(vol: Volume, inode: Inode, alloc: BlockAllocator, path: seq<Step>, iblock: nat, pblk: nat, len: nat,
                     goal: nat, ghost s: State)
    returns (err: int, prepended: bool)
    requires GoodTree(vol.disk, vol.cap, inode.root, inode.depth) && vol.cap > ROOT_CAP
    requires alloc.Valid() && s.Blocks() <= s.used
    requires iblock < MAX_BLOCKS && iblock !in MapOf(Exts(vol.disk, inode.root, inode.depth)) && len == 1
    requires Found(vol.disk, inode.root, inode.depth, iblock, path)
    requires alloc.totalFree > 0 ==> alloc.totalFree >= Needs(vol.disk, inode.root, inode.depth, path, Extent(iblock, 1, pblk))
    requires pblk !in s.used && !Head(alloc.geo, pblk) && StateOf(vol, inode, alloc) == WithBlock(s, pblk)
    modifies vol`disk, inode`root, inode`depth, inode`blocks, alloc`bitmaps, alloc`groupFree, alloc`totalFree, alloc`used
    ensures alloc.Valid()
    ensures err == if old(alloc.totalFree >= Needs(vol.disk, inode.root, inode.depth, path, Extent(iblock, 1, pblk))) then OK else ENOSPC
    ensures prepended <==> old(PrependApplies(vol.disk, inode.root, inode.depth, path, Extent(iblock, 1, pblk)))
    ensures err != OK ==> !prepended && StateOf(vol, inode, alloc) == s
    ensures err == OK ==>
              && Created(alloc.geo, vol.cap, s, StateOf(vol, inode, alloc), iblock, pblk, prepended)
              && alloc.totalFree == old(alloc.totalFree) - old(Needs(vol.disk, inode.root, inode.depth, path, Extent(iblock, 1, pblk)))
  {
    var e := Extent(iblock, len, pblk);
    BlockFits(vol.disk, vol.cap, inode.root, inode.depth, iblock, path, e);
    Trans(Blks(vol.disk, inode.root, inode.depth), s.used, alloc.used);
    if PrependApplies(vol.disk, inode.root, inode.depth, path, e) {
      PrependAbuts(vol.disk, vol.cap, inode.root, inode.depth, path, e);
    }
    err, prepended := InsertExtent(vol, inode, alloc, path, e, goal);
    if err == OK {
      CreatedBy(alloc.geo, vol.cap, s, StateOf(vol, inode, alloc), iblock, pblk, prepended);
    } else {
      OneTaken(alloc.geo, s.used, pblk);
      alloc.FreeBlocks(inode, pblk, len);
    }
  }

  lemma CreatedBy(geo: Geometry, cap: nat, s: State, s': State, iblock: nat, pblk: nat, prepended: bool)
    requires pblk !in s.used && !Head(geo, pblk) && StateGrew(geo, WithBlock(s, pblk), s')
    requires s'.Map() == WithBlock(s, pblk).Map() + ExtentMapOf(Extent(iblock, 1, pblk)) <==> !prepended
    requires !prepended ==> Inserted(cap, WithBlock(s, pblk), s', Extent(iblock, 1, pblk))
    requires prepended ==> Abuts(s.Map(), iblock, pblk)
    ensures Created(geo, cap, s, s', iblock, pblk, prepended)
  {
  }

  /** A block just taken can be given back. */
  lemma OneTaken(geo: Geometry, used: set<nat>, pblk: nat)
    requires pblk !in used && !Head(geo, pblk)
    ensures Freeable(geo, used + {pblk}, pblk, 1) && used + {pblk} - Run(pblk, 1) == used
  {
    assert Run(pblk, 1) == {pblk};
  }

  /** Allocates data blocks near `goal`: one block at a time. */
  method NewDataBlocks(alloc: BlockAllocator, inode: Inode, goal: nat, wanted: nat) returns (err: int, block: nat, len: nat)
    requires alloc.Valid() && wanted > 0
    modifies alloc`bitmaps, alloc`groupFree, alloc`totalFree, alloc`used, inode`blocks
    ensures alloc.Valid()
    ensures err == if old(alloc.totalFree) > 0 then OK else ENOSPC
    ensures err == OK ==>
              && len == 1 && block !in old(alloc.used) && !Head(alloc.geo, block)
              && alloc.used == old(alloc.used) + {block}
              && alloc.totalFree == old(alloc.totalFree) - 1 && inode.blocks == old(inode.blocks) + 1
              && FirstFit(alloc.geo, old(alloc.bitmaps), old(alloc.groupFree), GoalOf(alloc.geo, goal), block)
    ensures err != OK ==>
              alloc.used == old(alloc.used) && alloc.totalFree == old(alloc.totalFree) && inode.blocks == old(inode.blocks)
  {
    err, block, len := alloc.NewMetaBlocks(inode, GoalOf(alloc.geo, goal), wanted);
  }

  /**
   Finds the blocks behind `iblock`, creating one if asked to.  A mapped block is answered with a
   run of blocks the file maps in order, and nothing changes; an unmapped one with 0, or with the
   block created, or with ENOSPC when the free blocks do not suffice.
   */
  method GetBlocks(vol: Volume, inode: Inode, alloc: BlockAllocator, iblock: nat, maxBlocks: nat, create: bool, goal: nat)
    returns (ret: int, pblk: nat, prepended: bool)
    requires GoodTree(vol.disk, vol.cap, inode.root, inode.depth) && vol.cap > ROOT_CAP
    requires alloc.Valid() && Blks(vol.disk, inode.root, inode.depth) <= alloc.used
    requires create && iblock !in TreeMap(vol, inode) ==>
               alloc.totalFree <= 1 || CanCreate(alloc, goal, vol.disk, inode.root, inode.depth, iblock)
    requires iblock < MAX_BLOCKS && maxBlocks > 0
    modifies vol`disk, inode`root, inode`depth, inode`blocks, alloc`bitmaps, alloc`groupFree, alloc`totalFree, alloc`used
    ensures alloc.Valid()
    ensures iblock in old(TreeMap(vol, inode)) ==>
              exists x :: x in old(Exts(vol.disk, inode.root, inode.depth)) && x.block <= iblock < x.End()
                          && ret == (if maxBlocks < x.End() - iblock then maxBlocks else x.End() - iblock)
                          && pblk == x.start + (iblock - x.block)
    ensures iblock in old(TreeMap(vol, inode)) ==>
              && 0 < ret <= maxBlocks
              && forall l: nat :: iblock <= l < iblock + ret ==>
                   l in old(TreeMap(vol, inode)) && old(TreeMap(vol, inode))[l] == pblk + (l - iblock)
    ensures iblock !in old(TreeMap(vol, inode)) ==>
              ret == if !create then 0
                     else if old(CanCreate(alloc, goal, vol.disk, inode.root, inode.depth, iblock)) then 1 else ENOSPC
    ensures iblock in old(TreeMap(vol, inode)) || ret != 1 ==>
              StateOf(vol, inode, alloc) == old(StateOf(vol, inode, alloc)) && !prepended
    ensures iblock !in old(TreeMap(vol, inode)) && ret == 1 ==>
              && Created(alloc.geo, vol.cap, old(StateOf(vol, inode, alloc)), StateOf(vol, inode, alloc), iblock, pblk, prepended)
              && (prepended <==> old(Merging(vol.disk, inode.root, inode.depth, Extent(iblock, 1, pblk))))
              && FirstFit(alloc.geo, old(alloc.bitmaps), old(alloc.groupFree), GoalOf(alloc.geo, goal), pblk)
              && (alloc.geo.first <= goal < alloc.geo.Start(alloc.geo.groups) ==>
                    FirstFit(alloc.geo, old(alloc.bitmaps), old(alloc.groupFree), goal, pblk))
  {
    prepended := false;
    var path := FindExtent(vol, inode, iblock);
    ret, pblk := MappedRun(vol, inode, path, iblock, maxBlocks);
    if ret == 0 && create {
      ghost var d, root, depth := vol.disk, inode.root, inode.depth;
      OnePath(alloc, goal, d, root, depth, path, iblock);
      var err;
      err, pblk, prepended := CreateBlock(vol, inode, alloc, path, iblock, maxBlocks, goal);
      MergingHere(d, root, depth, path, Extent(iblock, 1, pblk));
      ret := if err == OK then 1 else err;
    }
  }
}
